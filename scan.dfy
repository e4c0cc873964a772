/** The scan loop that resumes one byte after each hit.

    Both `search_one` in the C benchmark and the Go SIMD finder call a
    search function from offset 0, take each result `index` as a
    candidate occurrence, and search again from `index + 1` until the
    search returns -1.  Resuming one byte on, rather than past the whole
    match, means overlapping occurrences are each visited.  The C program
    can plug in any of three search functions; the Go finder always uses
    the masked one.

    Texts and keywords here are the bytes a search function sees.  The C
    search functions take C strings and stop at the first NUL byte, so
    `CSearch` hands them the file's contents up to that byte and a
    keyword that holds none; the Go finder hands over whole Go strings.
 */
module Scan {
  import opened Utf8
  import opened Literal
  import opened SimdSearch
  import opened Concordance

  /** The search function a scan calls: `strstr` (`regular_str_search`),
      the naive double loop (`stupid_str_search`) or the masked 32-byte
      comparison (`simd_str_search`). */
  datatype Searcher = Strstr | Naive | Masked

  /** What `stupid_str_search(text, keyword, offset)` returns: the first
      occurrence at or after `offset`; an empty keyword is found at every
      position before the terminator but not at the terminator itself. */
  function NaiveResult(text: seq<Byte>, kw: seq<Byte>, offset: nat): (r: int)
    ensures r == -1 || (offset <= r < |text| && r + |kw| <= |text|)
  {
    if |kw| == 0 then (if offset < |text| then offset else -1)
    else FirstOccurrence(text, kw, offset)
  }

  /** What the chosen search function returns from `offset`. */
  function SearchResult(s: Searcher, text: seq<Byte>, kw: seq<Byte>, offset: nat): (r: int)
    ensures r == -1 || (offset <= r <= |text| && r + |kw| <= |text|)
    ensures s == Masked && r != -1 ==> r + Width <= |text|
    ensures s != Strstr && r != -1 ==> r < |text|
  {
    match s
    case Strstr => FirstOccurrence(text, kw, offset)
    case Naive => NaiveResult(text, kw, offset)
    case Masked => SimdSpec(text, kw, offset)
  }

  /** `stupid_str_search`: try each start from `offset` up to the
      terminator, extending the common prefix of the text there and the
      keyword; the keyword occurs when the prefix reaches its terminator. */
  method StupidSearch(text: seq<Byte>, kw: seq<Byte>, offset: nat) returns (r: int)
    requires offset <= |text|
    ensures r == NaiveResult(text, kw, offset)
  {
    var i := offset;
    while i < |text|
      invariant offset <= i <= |text|
      invariant |kw| == 0 ==> i == offset
      invariant |kw| > 0 ==> FirstOccurrence(text, kw, i) == FirstOccurrence(text, kw, offset)
      decreases |text| - i
    {
      var j := 0;
      while i + j < |text| && j < |kw| && text[i + j] == kw[j]
        invariant j <= |kw| && i + j <= |text|
        invariant forall t :: 0 <= t < j ==> text[i + t] == kw[t]
        decreases |kw| - j
      {
        j := j + 1;
      }
      if j == |kw| {
        assert text[i..i + |kw|] == kw;
        return i;
      }
      if i + |kw| <= |text| {
        assert text[i..i + |kw|][j] != kw[j];
      }
      i := i + 1;
    }
    return -1;
  }

  /** The call `search_f(text, keyword, offset)`: `strstr` is foreign code
      and is stated by its specification; the other two are the methods
      above. */
  method SearchWith(s: Searcher, text: seq<Byte>, kw: seq<Byte>, offset: nat) returns (r: int)
    requires offset <= |text|
    ensures r == SearchResult(s, text, kw, offset)
  {
    match s
    case Strstr => r := FirstOccurrence(text, kw, offset);
    case Naive => r := StupidSearch(text, kw, offset);
    case Masked => r := Search(text, kw, offset);
  }

  /** Every search function returns occurrences only. */
  lemma SearchFound(s: Searcher, text: seq<Byte>, kw: seq<Byte>, offset: nat)
    ensures SearchResult(s, text, kw, offset) != -1 ==> OccursAt(text, kw, SearchResult(s, text, kw, offset))
  {
    match s
    case Strstr => FirstOccurrenceFound(text, kw, offset);
    case Naive => FirstOccurrenceFound(text, kw, offset);
    case Masked => SimdSpecFound(text, kw, offset);
  }

  /** The occurrences a search function can return at all: the masked
      search sees only occurrences with a whole vector of text from their
      start (and keywords of at most 32 bytes); the naive search never
      reports an empty keyword at the terminator. */
  predicate Visible(s: Searcher, text: seq<Byte>, kw: seq<Byte>, p: nat)
  {
    match s
    case Strstr => true
    case Naive => |kw| > 0 || p < |text|
    case Masked => |kw| <= Width && p + Width <= |text|
  }

  /** Every search function finds the leftmost visible occurrence: one at
      `p` means the search from `offset <= p` succeeds at `p` or before. */
  lemma SearchLeftmost(s: Searcher, text: seq<Byte>, kw: seq<Byte>, offset: nat, p: nat)
    requires offset <= p && OccursAt(text, kw, p) && Visible(s, text, kw, p)
    ensures SearchResult(s, text, kw, offset) != -1 && SearchResult(s, text, kw, offset) <= p
  {
    match s
    case Strstr => FirstOccurrenceIsLeftmost(text, kw, offset, p);
    case Naive =>
      if |kw| > 0 {
        FirstOccurrenceIsLeftmost(text, kw, offset, p);
      }
    case Masked => SimdSpecIsLeftmost(text, kw, offset, p);
  }

  /** The search function `search_f` a scan calls, bound to the text and
      the keyword: from an offset to the search result. */
  function SearchFn(s: Searcher, text: seq<Byte>, kw: seq<Byte>): (search: nat -> int)
    ensures s != Strstr || |kw| > 0 ==> InRange(search, |text|, |kw|)
  {
    (o: nat) => SearchResult(s, text, kw, o)
  }

  /** From any offset `o`, `search` returns -1 or a start in `[o, n)` with
      room for `k` bytes before `n`. */
  ghost predicate InRange(search: nat -> int, n: nat, k: nat)
  {
    forall o: nat :: search(o) == -1 || (o <= search(o) < n && search(o) + k <= n)
  }

  /** The successive results of the scan from `offset`: each is the search
      result from one byte past the previous one, until the search
      returns -1. */
  ghost function Hits(search: nat -> int, n: nat, k: nat, offset: nat): (hits: seq<nat>)
    requires InRange(search, n, k)
    ensures InText(n, hits, k)
    ensures forall j :: 0 <= j < |hits| ==> offset <= hits[j]
    decreases n + 1 - offset
  {
    var r := search(offset);
    if r == -1 then [] else [r] + Hits(search, n, k, r + 1)
  }

  /** The offset the scan resumes from after its first `i` hits from
      `offset`: `offset` itself, then one past the latest hit. */
  ghost function Resume(search: nat -> int, n: nat, k: nat, offset: nat, i: nat): nat
    requires InRange(search, n, k) && i <= |Hits(search, n, k, offset)|
  {
    if i == 0 then offset else Hits(search, n, k, offset)[i - 1] + 1
  }

  /** Searching from where the scan resumes after `i` hits gives the next
      hit. */
  lemma {:induction false} HitsNext(search: nat -> int, n: nat, k: nat, offset: nat, i: nat)
    requires InRange(search, n, k) && i < |Hits(search, n, k, offset)|
    ensures search(Resume(search, n, k, offset, i)) == Hits(search, n, k, offset)[i]
    decreases i
  {
    var r := search(offset);
    var rest := Hits(search, n, k, r + 1);
    assert Hits(search, n, k, offset) == [r] + rest;
    if i > 0 {
      assert Resume(search, n, k, offset, i) == Resume(search, n, k, r + 1, i - 1);
      HitsNext(search, n, k, r + 1, i - 1);
    }
  }

  /** Searching from where the scan resumes after the last hit gives -1. */
  lemma {:induction false} HitsEnd(search: nat -> int, n: nat, k: nat, offset: nat)
    requires InRange(search, n, k)
    ensures search(Resume(search, n, k, offset, |Hits(search, n, k, offset)|)) == -1
    decreases n + 1 - offset
  {
    var r := search(offset);
    if r != -1 {
      var rest := Hits(search, n, k, r + 1);
      assert Hits(search, n, k, offset) == [r] + rest;
      assert Resume(search, n, k, offset, |rest| + 1) == Resume(search, n, k, r + 1, |rest|);
      HitsEnd(search, n, k, r + 1);
    }
  }

  /** One turn of the scan: searching from where it resumes after `i`
      hits gives the next hit, or -1 once every hit is seen. */
  lemma HitsResume(search: nat -> int, n: nat, k: nat, offset: nat, i: nat)
    requires InRange(search, n, k) && i <= |Hits(search, n, k, offset)|
    ensures search(Resume(search, n, k, offset, i)) ==
              if i < |Hits(search, n, k, offset)| then Hits(search, n, k, offset)[i] else -1
  {
    if i < |Hits(search, n, k, offset)| {
      HitsNext(search, n, k, offset, i);
    } else {
      HitsEnd(search, n, k, offset);
    }
  }

  /** The hits strictly increase: the offset moves past each hit. */
  lemma {:induction false} HitsIncreasing(search: nat -> int, n: nat, k: nat, offset: nat)
    requires InRange(search, n, k)
    ensures Increasing(Hits(search, n, k, offset))
    decreases n + 1 - offset
  {
    var r := search(offset);
    if r != -1 {
      HitsIncreasing(search, n, k, r + 1);
    }
  }

  /** Every position `p` that the search returns from every offset up to
      `p` is a hit: it is the `j`-th one. */
  lemma {:induction false} HitsReach(search: nat -> int, n: nat, k: nat, offset: nat, p: nat) returns (j: nat)
    requires InRange(search, n, k) && offset <= p
    requires forall o: nat :: offset <= o <= p ==> search(o) != -1 && search(o) <= p
    ensures j < |Hits(search, n, k, offset)| && Hits(search, n, k, offset)[j] == p
    decreases n + 1 - offset
  {
    var r := search(offset);
    var rest := Hits(search, n, k, r + 1);
    assert Hits(search, n, k, offset) == [r] + rest;
    if r < p {
      var i := HitsReach(search, n, k, r + 1, p);
      j := i + 1;
    } else {
      j := 0;
    }
  }

  /** Two searches that agree from `offset` on give the same scan. */
  lemma {:induction false} HitsAgree(f: nat -> int, g: nat -> int, n: nat, k: nat, offset: nat)
    requires InRange(f, n, k) && InRange(g, n, k)
    requires forall o: nat :: offset <= o ==> f(o) == g(o)
    ensures Hits(f, n, k, offset) == Hits(g, n, k, offset)
    decreases n + 1 - offset
  {
    if f(offset) != -1 {
      HitsAgree(f, g, n, k, f(offset) + 1);
    }
  }

  /** The hits of a search function's scan over a text. */
  ghost function ScanHits(s: Searcher, text: seq<Byte>, kw: seq<Byte>): (hits: seq<nat>)
    requires s != Strstr || |kw| > 0
    ensures InText(|text|, hits, |kw|)
  {
    Hits(SearchFn(s, text, kw), |text|, |kw|, 0)
  }

  /** Where the scan resumes after its first `i` hits. */
  ghost function ScanResume(s: Searcher, text: seq<Byte>, kw: seq<Byte>, i: nat): nat
    requires s != Strstr || |kw| > 0
    requires i <= |ScanHits(s, text, kw)|
  {
    Resume(SearchFn(s, text, kw), |text|, |kw|, 0, i)
  }

  /** One search of the scan: called from where the scan resumes after
      `i` hits, the search function returns the next hit, or -1 exactly
      when every hit has been seen; the scan then resumes one byte after
      the hit. */
  method NextHit(s: Searcher, text: seq<Byte>, kw: seq<Byte>, offset: nat, ghost i: nat) returns (index: int)
    requires s != Strstr || |kw| > 0
    requires i <= |ScanHits(s, text, kw)| && offset == ScanResume(s, text, kw, i)
    ensures index == if i < |ScanHits(s, text, kw)| then ScanHits(s, text, kw)[i] else -1
    ensures index == SearchResult(s, text, kw, offset)
    ensures index == -1 || offset <= index < |text|
    ensures index != -1 ==> index + 1 == ScanResume(s, text, kw, i + 1)
  {
    var search := SearchFn(s, text, kw);
    assert offset <= |text|;
    index := SearchWith(s, text, kw, offset);
    HitsResume(search, |text|, |kw|, 0, i);
    assert search(offset) == index;
  }

  /** Every hit of a scan is an occurrence of the keyword. */
  lemma HitsOccur(s: Searcher, text: seq<Byte>, kw: seq<Byte>, j: nat)
    requires s != Strstr || |kw| > 0
    requires j < |ScanHits(s, text, kw)|
    ensures OccursAt(text, kw, ScanHits(s, text, kw)[j])
  {
    var search := SearchFn(s, text, kw);
    HitsNext(search, |text|, |kw|, 0, j);
    SearchFound(s, text, kw, Resume(search, |text|, |kw|, 0, j));
  }

  /** Every occurrence the search function can see is a hit of the scan,
      overlapping ones included: it is the `j`-th hit. */
  lemma HitsComplete(s: Searcher, text: seq<Byte>, kw: seq<Byte>, p: nat) returns (j: nat)
    requires s != Strstr || |kw| > 0
    requires OccursAt(text, kw, p) && Visible(s, text, kw, p)
    ensures j < |ScanHits(s, text, kw)| && ScanHits(s, text, kw)[j] == p
  {
    var search := SearchFn(s, text, kw);
    forall o: nat | o <= p ensures search(o) != -1 && search(o) <= p {
      SearchLeftmost(s, text, kw, o, p);
    }
    j := HitsReach(search, |text|, |kw|, 0, p);
  }

  /** The hits of a scan come in strictly increasing order. */
  lemma ScanIncreasing(s: Searcher, text: seq<Byte>, kw: seq<Byte>)
    requires s != Strstr || |kw| > 0
    ensures Increasing(ScanHits(s, text, kw))
  {
    HitsIncreasing(SearchFn(s, text, kw), |text|, |kw|, 0);
  }

  /** A text shorter than one vector, or a keyword longer than one, gives
      the masked scan no hits at all. */
  lemma ShortTextNoHits(text: seq<Byte>, kw: seq<Byte>)
    requires |text| < Width || |kw| > Width
    ensures ScanHits(Masked, text, kw) == []
  {
    assert SearchFn(Masked, text, kw)(0) == -1;
  }

  /** For a non-empty keyword the naive search and `strstr` agree, so
      their scans visit the same hits. */
  lemma NaiveScanIsStrstrScan(text: seq<Byte>, kw: seq<Byte>)
    requires |kw| > 0
    ensures ScanHits(Naive, text, kw) == ScanHits(Strstr, text, kw)
  {
    var f, g := SearchFn(Naive, text, kw), SearchFn(Strstr, text, kw);
    forall o: nat ensures f(o) == g(o) {
    }
    HitsAgree(f, g, |text|, |kw|, 0);
  }

  /** When every occurrence leaves a whole vector of text after its start,
      the masked search and `strstr` agree at every offset, so their scans
      visit the same hits. */
  lemma MaskedScanIsStrstrScan(text: seq<Byte>, kw: seq<Byte>)
    requires 0 < |kw| <= Width
    requires forall p :: OccursAt(text, kw, p) ==> p + Width <= |text|
    ensures ScanHits(Masked, text, kw) == ScanHits(Strstr, text, kw)
  {
    var f, g := SearchFn(Masked, text, kw), SearchFn(Strstr, text, kw);
    forall o: nat ensures f(o) == g(o) {
      var r := FirstOccurrence(text, kw, o);
      FirstOccurrenceFound(text, kw, o);
      if r != -1 {
        assert OccursAt(text, kw, r);
      }
    }
    HitsAgree(f, g, |text|, |kw|, 0);
  }
}
