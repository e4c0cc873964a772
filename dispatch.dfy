/** How `StreamSearch` spreads the pages over goroutines.

    With `maxGoroutines == -1` every page gets its own goroutine.
    Otherwise the worker count is `min(len(pages), maxGoroutines)`, or the
    number of CPUs when that is 0; the library version then gives worker
    `i` the pages `[i*rangeLen, i*rangeLen + rangeLen)` with
    `rangeLen = len(pages) / workers`, except that the last worker's range
    runs to the end.  The goroutines, channels and the wait group are not
    modelled: a schedule is the list of page ranges the goroutines search.
 */
module Dispatch {
  import opened Concordance

  /** A half-open range of page indices. */
  datatype Range = Range(start: nat, end: nat)

  /** The worker count after the clamp: `min(len(pages), maxGoroutines)`,
      replaced by `numCpu` when it is 0.  It is never 0, so computing
      `rangeLen` never divides by zero; it is at least 1 whenever
      `maxGoroutines` is not negative, at most the number of pages and at
      most `maxGoroutines` when both are positive, and a negative
      `maxGoroutines` passes through unchanged. */
  function WorkerCount(n: nat, maxGoroutines: int, numCpu: nat): (w: int)
    requires numCpu > 0
    ensures w != 0
    ensures maxGoroutines >= 0 ==> 1 <= w <= Max(n, numCpu)
    ensures maxGoroutines > 0 && n > 0 ==> w <= n && w <= maxGoroutines
    ensures maxGoroutines < 0 ==> w == maxGoroutines
  {
    var m := Min(n, maxGoroutines);
    if m == 0 then numCpu else m
  }

  /** `w * (n / w)` never exceeds `n`, and fewer workers cover no more. */
  lemma ShareBound(n: nat, w: nat, i: nat)
    requires 0 < w && i <= w
    ensures i * (n / w) <= w * (n / w) <= n
  {
    var q := n / w;
    assert n == w * q + n % w;
    MulLeft(i, w, q);
  }

  lemma {:induction false} MulLeft(i: nat, w: nat, q: nat)
    requires i <= w
    ensures i * q <= w * q
    decreases w - i
  {
    if i < w {
      MulLeft(i + 1, w, q);
      assert (i + 1) * q == i * q + q;
    }
  }

  /** Worker `i`'s range out of `w` over `n` pages. */
  function WorkerRange(n: nat, w: nat, i: nat): (r: Range)
    requires 0 < w && i < w
    ensures r.start <= r.end <= n
  {
    var rangeLen := n / w;
    ShareBound(n, w, i + 1);
    assert (i + 1) * rangeLen == i * rangeLen + rangeLen;
    var start := i * rangeLen;
    Range(start, if i == w - 1 then n else start + rangeLen)
  }

  /** The ranges of all `w` workers, in worker order. */
  function Partition(n: nat, w: nat): (rs: seq<Range>)
    requires 0 < w
    ensures |rs| == w
  {
    seq(w, (i: int) requires 0 <= i < w => WorkerRange(n, w, i))
  }

  /** Every worker but the last gets `rangeLen = n / w` pages; the last
      also gets the `n % w` pages left over. */
  lemma PartitionSizes(n: nat, w: nat)
    requires 0 < w
    ensures forall i :: 0 <= i < w - 1 ==> Partition(n, w)[i].end - Partition(n, w)[i].start == n / w
    ensures Partition(n, w)[w - 1].end - Partition(n, w)[w - 1].start == n / w + n % w
  {
    var q := n / w;
    assert n == w * q + n % w;
    assert (w - 1) * q + q == w * q;
  }

  /** `rs` cuts `[lo, hi)` into consecutive ranges: the first starts at
      `lo`, each ends where the next starts, the last ends at `hi`, and no
      range runs backwards. */
  predicate Tiles(rs: seq<Range>, lo: nat, hi: nat)
  {
    (|rs| == 0 ==> lo == hi)
    && (|rs| > 0 ==> rs[0].start == lo && rs[|rs| - 1].end == hi)
    && (forall i :: 0 <= i < |rs| ==> rs[i].start <= rs[i].end)
    && (forall i :: 0 <= i < |rs| - 1 ==> rs[i].end == rs[i + 1].start)
  }

  /** The workers' ranges tile the pages `[0, n)`. */
  lemma PartitionTiles(n: nat, w: nat)
    requires 0 < w
    ensures Tiles(Partition(n, w), 0, n)
  {
    var rs := Partition(n, w);
    forall i | 0 <= i < w - 1 ensures rs[i].end == rs[i + 1].start {
      assert (i + 1) * (n / w) == i * (n / w) + n / w;
    }
  }

  /** In a tiling, an earlier range ends no later than a later one
      starts. */
  lemma {:induction false} TilesOrdered(rs: seq<Range>, lo: nat, hi: nat, i: nat, j: nat)
    requires Tiles(rs, lo, hi)
    requires i < j < |rs|
    ensures rs[i].end <= rs[j].start
    decreases j - i
  {
    if i + 1 < j {
      TilesOrdered(rs, lo, hi, i + 1, j);
    }
  }

  /** Every page of `[lo, hi)` lies in the `i`-th range of a tiling. */
  lemma {:induction false} TilesCover(rs: seq<Range>, lo: nat, hi: nat, p: nat) returns (i: nat)
    requires Tiles(rs, lo, hi)
    requires lo <= p < hi
    ensures i < |rs| && rs[i].start <= p < rs[i].end
    decreases |rs|
  {
    var m := |rs| - 1;
    if rs[m].start <= p {
      i := m;
    } else {
      var init := rs[..m];
      assert Tiles(init, lo, rs[m].start);
      i := TilesCover(init, lo, rs[m].start, p);
    }
  }

  /** No page lies in two ranges of a tiling. */
  lemma TilesDisjoint(rs: seq<Range>, lo: nat, hi: nat, i: nat, j: nat, p: nat)
    requires Tiles(rs, lo, hi)
    requires i < |rs| && j < |rs| && i != j
    ensures !(rs[i].start <= p < rs[i].end && rs[j].start <= p < rs[j].end)
  {
    if i < j {
      TilesOrdered(rs, lo, hi, i, j);
    } else {
      TilesOrdered(rs, lo, hi, j, i);
    }
  }

  /** The pages the ranges select, range after range. */
  function Gather<T>(pages: seq<T>, rs: seq<Range>): seq<T>
    requires forall i :: 0 <= i < |rs| ==> rs[i].start <= rs[i].end <= |pages|
  {
    if |rs| == 0 then []
    else Gather(pages, rs[..|rs| - 1]) + pages[rs[|rs| - 1].start..rs[|rs| - 1].end]
  }

  /** Every range of a tiling of `[lo, hi)` lies inside it. */
  lemma TilesWithin(rs: seq<Range>, lo: nat, hi: nat)
    requires Tiles(rs, lo, hi)
    ensures lo <= hi
    ensures forall i :: 0 <= i < |rs| ==> lo <= rs[i].start <= rs[i].end <= hi
  {
    forall i | 0 <= i < |rs| ensures lo <= rs[i].start && rs[i].end <= hi {
      if 0 < i {
        TilesOrdered(rs, lo, hi, 0, i);
      }
      if i < |rs| - 1 {
        TilesOrdered(rs, lo, hi, i, |rs| - 1);
      }
    }
  }

  /** The ranges of a tiling together select exactly the pages `[lo, hi)`,
      each once and in order. */
  lemma {:induction false} TilesGather<T>(pages: seq<T>, rs: seq<Range>, lo: nat, hi: nat)
    requires Tiles(rs, lo, hi) && hi <= |pages|
    ensures lo <= hi
    ensures forall i :: 0 <= i < |rs| ==> rs[i].start <= rs[i].end <= |pages|
    ensures Gather(pages, rs) == pages[lo..hi]
    decreases |rs|
  {
    TilesWithin(rs, lo, hi);
    if |rs| > 0 {
      var m := |rs| - 1;
      var init := rs[..m];
      assert Tiles(init, lo, rs[m].start);
      TilesGather(pages, init, lo, rs[m].start);
      assert pages[lo..rs[m].start] + pages[rs[m].start..hi] == pages[lo..hi];
    }
  }

  /** The ranges the goroutines of `StreamSearch` search: one per page with
      `maxGoroutines == -1`; otherwise one per worker, and none at all when
      the clamped worker count is negative, since `for i := range w` then
      runs zero times. */
  function Schedule(n: nat, maxGoroutines: int, numCpu: nat): (rs: seq<Range>)
    requires numCpu > 0
    ensures maxGoroutines == -1 ==> |rs| == n && forall i :: 0 <= i < n ==> rs[i] == Range(i, i + 1)
    ensures maxGoroutines >= 0 ==> |rs| == WorkerCount(n, maxGoroutines, numCpu)
    ensures maxGoroutines < -1 ==> |rs| == 0
  {
    if maxGoroutines == -1 then seq(n, (i: int) requires 0 <= i < n => Range(i, i + 1))
    else
      var w := WorkerCount(n, maxGoroutines, numCpu);
      if w < 0 then [] else Partition(n, w)
  }

  /** For `maxGoroutines >= -1` the schedule searches every page exactly
      once, in page order: its ranges tile `[0, n)` and select all the
      pages. */
  lemma ScheduleCoversPages<T>(pages: seq<T>, maxGoroutines: int, numCpu: nat)
    requires numCpu > 0 && maxGoroutines >= -1
    ensures Tiles(Schedule(|pages|, maxGoroutines, numCpu), 0, |pages|)
    ensures forall i :: 0 <= i < |Schedule(|pages|, maxGoroutines, numCpu)| ==>
              Schedule(|pages|, maxGoroutines, numCpu)[i].start <= Schedule(|pages|, maxGoroutines, numCpu)[i].end <= |pages|
    ensures Gather(pages, Schedule(|pages|, maxGoroutines, numCpu)) == pages
  {
    var n := |pages|;
    var rs := Schedule(n, maxGoroutines, numCpu);
    if maxGoroutines >= 0 {
      PartitionTiles(n, WorkerCount(n, maxGoroutines, numCpu));
    }
    TilesGather(pages, rs, 0, n);
    assert pages[0..n] == pages;
  }

  /** A `maxGoroutines` below -1 starts no worker, so no page is ever
      searched. */
  lemma NegativeLimitSearchesNothing<T>(pages: seq<T>, maxGoroutines: int, numCpu: nat)
    requires numCpu > 0 && maxGoroutines < -1
    ensures |Gather(pages, Schedule(|pages|, maxGoroutines, numCpu))| == 0
  {
  }
}
