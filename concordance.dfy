/** The parts of a concordance search that both finder strategies share:
    pages, matches, the ASCII word-boundary filter and the context windows
    built around an occurrence.
 */
module Concordance {
  import opened Utf8
  import opened Literal

  /** Bytes of context taken on each side of a match (`CONTEXT_LENGTH`). */
  const ContextLength: nat := 40

  /** A document of the corpus. */
  datatype Page = Page(fileName: string, text: seq<Byte>)

  /** One reported occurrence with its left and right context. */
  datatype Match = Match(fileName: string, left: seq<Byte>, right: seq<Byte>)

  function Max(a: int, b: int): int { if a < b then b else a }
  function Min(a: int, b: int): int { if a < b then a else b }

  /** The cheap word-boundary filter: the occurrence `[start, end)` has no
      ASCII letter immediately before it and none immediately after it.
      Non-ASCII letters do not count as letters. */
  predicate WordBounded(text: seq<Byte>, start: nat, end: nat)
    requires start <= end <= |text|
  {
    !(start > 0 && IsLetter(text[start - 1])) && !(end < |text| && IsLetter(text[end]))
  }

  /** The left context of an occurrence starting at `start`: the text
      from `max(0, start-40)` to `start`, widened left to a character
      boundary. */
  function LeftContext(text: seq<Byte>, start: nat): seq<Byte>
    requires start < |text| && StartsOnBoundary(text)
  {
    var leftStart := Max(0, start - ContextLength);
    BoundaryFromStart(text, leftStart);
    SliceLeft(text, start, leftStart)
  }

  /** The right context of an occurrence ending at `end`: the text from
      `end` to `min(end+40, len)`, widened right to a character boundary. */
  function RightContext(text: seq<Byte>, end: nat): seq<Byte>
    requires end <= |text|
  {
    SliceRight(text, end, Min(end + ContextLength, |text|))
  }

  /** The left context is the text just before the occurrence, at least 40
      bytes of it (or all of it), and it begins on a character boundary. */
  lemma LeftContextWindow(text: seq<Byte>, start: nat)
    requires start < |text| && StartsOnBoundary(text)
    ensures Min(start, ContextLength) <= |LeftContext(text, start)| <= start
    ensures LeftContext(text, start) == text[start - |LeftContext(text, start)|..start]
    ensures |LeftContext(text, start)| > 0 ==> !IsContinuationByte(LeftContext(text, start)[0])
  {
    var leftStart := Max(0, start - ContextLength);
    BoundaryFromStart(text, leftStart);
    var e := LeftCut(text, leftStart);
    assert LeftContext(text, start) == text[e..start];
  }

  /** The right context is the text just after the occurrence, at least 40
      bytes of it (or all that is left), and it ends on a character
      boundary. */
  lemma RightContextWindow(text: seq<Byte>, end: nat)
    requires end <= |text|
    ensures Min(ContextLength, |text| - end) <= |RightContext(text, end)|
    ensures end + |RightContext(text, end)| <= |text|
    ensures RightContext(text, end) == text[end..end + |RightContext(text, end)|]
    ensures end + |RightContext(text, end)| == |text| || !IsContinuationByte(text[end + |RightContext(text, end)|])
  {
    var e := RightCut(text, Min(end + ContextLength, |text|));
    assert RightContext(text, end) == text[end..e];
  }

  /** The match a finder builds for the occurrence `[start, end)`. */
  function ContextMatch(page: Page, start: nat, end: nat): (m: Match)
    requires start <= end <= |page.text| && start < |page.text|
    requires StartsOnBoundary(page.text)
    ensures m.fileName == page.fileName
  {
    Match(page.fileName, LeftContext(page.text, start), RightContext(page.text, end))
  }

  /** The match-building block of the finders' loops: clamp the window to
      `[max(0, start-40), min(end+40, len)]` and widen it with the slicers. */
  method BuildMatch(page: Page, start: nat, end: nat) returns (m: Match)
    requires start <= end <= |page.text| && start < |page.text|
    requires StartsOnBoundary(page.text)
    ensures m == ContextMatch(page, start, end)
  {
    var text := page.text;
    var leftStart := Max(0, start - ContextLength);
    var rightEnd := Min(end + ContextLength, |text|);
    BoundaryFromStart(text, leftStart);
    var left := SliceLeftUtf8(text, start, leftStart);
    var right := SliceRightUtf8(text, end, rightEnd);
    m := Match(page.fileName, left, right);
  }

  /** The filter-and-emit block of the finders' loops: skip the
      occurrence `[start, end)` when an ASCII letter touches it on either
      side, otherwise append its context match. */
  method EmitIfBounded(page: Page, start: nat, end: nat, matches: seq<Match>) returns (out: seq<Match>)
    requires start <= end <= |page.text| && start < |page.text|
    requires StartsOnBoundary(page.text)
    ensures out == if WordBounded(page.text, start, end) then matches + [ContextMatch(page, start, end)] else matches
  {
    var text := page.text;
    out := matches;
    if start > 0 && IsLetter(text[start - 1]) {
      return;
    }
    if end < |text| && IsLetter(text[end]) {
      return;
    }
    var m := BuildMatch(page, start, end);
    out := matches + [m];
  }

  /** Every start lies in a text of length `n` and leaves room for `k`
      bytes after it. */
  predicate InText(n: nat, starts: seq<nat>, k: nat)
  {
    forall j :: 0 <= j < |starts| ==> starts[j] + k <= n && starts[j] < n
  }

  /** A prefix of in-text starts is in the text. */
  lemma InTextPrefix(n: nat, starts: seq<nat>, k: nat, i: nat)
    requires InText(n, starts, k) && i <= |starts|
    ensures InText(n, starts[..i], k)
  {
    forall j | 0 <= j < i ensures starts[..i][j] == starts[j] { }
  }

  /** The occurrences (given by their starts, each `k` bytes long) that pass
      the word-boundary filter, in their original order. */
  function BoundedStarts(text: seq<Byte>, starts: seq<nat>, k: nat): (q: seq<nat>)
    requires InText(|text|, starts, k)
    ensures |q| <= |starts| && InText(|text|, q, k)
    ensures forall j :: 0 <= j < |q| ==> WordBounded(text, q[j], q[j] + k)
  {
    if starts == [] then []
    else
      var n := |starts| - 1;
      InTextPrefix(|text|, starts, k, n);
      var init := BoundedStarts(text, starts[..n], k);
      if WordBounded(text, starts[n], starts[n] + k) then init + [starts[n]] else init
  }

  /** Every kept candidate comes from the input: the `j`-th kept one is the
      `i`-th candidate, and later kept ones come from later candidates. */
  lemma {:induction false} BoundedStartsFrom(text: seq<Byte>, starts: seq<nat>, k: nat, j: nat) returns (i: nat)
    requires InText(|text|, starts, k)
    requires j < |BoundedStarts(text, starts, k)|
    ensures i < |starts| && starts[i] == BoundedStarts(text, starts, k)[j]
    decreases |starts|
  {
    var n := |starts| - 1;
    InTextPrefix(|text|, starts, k, n);
    var init := BoundedStarts(text, starts[..n], k);
    if j < |init| {
      i := BoundedStartsFrom(text, starts[..n], k, j);
    } else {
      i := n;
    }
  }

  /** Every word-bounded candidate is kept: the `i`-th candidate is the
      `j`-th kept one. */
  lemma {:induction false} BoundedStartsKeeps(text: seq<Byte>, starts: seq<nat>, k: nat, i: nat) returns (j: nat)
    requires InText(|text|, starts, k)
    requires i < |starts| && WordBounded(text, starts[i], starts[i] + k)
    ensures j < |BoundedStarts(text, starts, k)| && BoundedStarts(text, starts, k)[j] == starts[i]
    decreases |starts|
  {
    var n := |starts| - 1;
    InTextPrefix(|text|, starts, k, n);
    var init := BoundedStarts(text, starts[..n], k);
    if i < n {
      j := BoundedStartsKeeps(text, starts[..n], k, i);
    } else {
      j := |init|;
    }
  }

  /** The filter keeps the candidates' order: kept candidates of an
      increasing list are increasing. */
  lemma {:induction false} BoundedStartsIncreasing(text: seq<Byte>, starts: seq<nat>, k: nat)
    requires InText(|text|, starts, k)
    requires Increasing(starts)
    ensures Increasing(BoundedStarts(text, starts, k))
    decreases |starts|
  {
    if starts != [] {
      var n := |starts| - 1;
      InTextPrefix(|text|, starts, k, n);
      var init := BoundedStarts(text, starts[..n], k);
      assert Increasing(starts[..n]);
      BoundedStartsIncreasing(text, starts[..n], k);
      if WordBounded(text, starts[n], starts[n] + k) {
        forall j | 0 <= j < |init| ensures init[j] < starts[n] {
          var i := BoundedStartsFrom(text, starts[..n], k, j);
        }
      }
    }
  }

  /** The candidates among the first `i` that pass the filter. */
  function KeptUpTo(text: seq<Byte>, starts: seq<nat>, k: nat, i: nat): (q: seq<nat>)
    requires InText(|text|, starts, k) && i <= |starts|
    ensures InText(|text|, q, k)
  {
    InTextPrefix(|text|, starts, k, i);
    BoundedStarts(text, starts[..i], k)
  }

  /** Past the last candidate, the kept ones are the filter's whole
      result. */
  lemma KeptUpToAll(text: seq<Byte>, starts: seq<nat>, k: nat)
    requires InText(|text|, starts, k)
    ensures KeptUpTo(text, starts, k, |starts|) == BoundedStarts(text, starts, k)
  {
    assert starts[..|starts|] == starts;
  }

  /** One more candidate: the kept list grows by that candidate exactly
      when it passes the filter. */
  lemma KeptUpToStep(text: seq<Byte>, starts: seq<nat>, k: nat, i: nat)
    requires InText(|text|, starts, k) && i < |starts|
    ensures KeptUpTo(text, starts, k, i + 1) ==
              if WordBounded(text, starts[i], starts[i] + k) then KeptUpTo(text, starts, k, i) + [starts[i]]
              else KeptUpTo(text, starts, k, i)
  {
    InTextPrefix(|text|, starts, k, i + 1);
    assert starts[..i + 1][..i] == starts[..i];
  }

  /** `ms` is what a finder emits for the candidates `q` that passed the
      filter: the context match of each, in order. */
  predicate Reports(page: Page, ms: seq<Match>, q: seq<nat>, k: nat)
    requires StartsOnBoundary(page.text)
    requires InText(|page.text|, q, k)
  {
    |ms| == |q| && forall j :: 0 <= j < |q| ==> ms[j] == ContextMatch(page, q[j], q[j] + k)
  }

  /** Emitting the match of one more candidate extends the report. */
  lemma ReportsSnoc(page: Page, ms: seq<Match>, q: seq<nat>, k: nat, p: nat)
    requires StartsOnBoundary(page.text)
    requires InText(|page.text|, q, k) && p + k <= |page.text| && p < |page.text|
    requires Reports(page, ms, q, k)
    ensures InText(|page.text|, q + [p], k)
    ensures Reports(page, ms + [ContextMatch(page, p, p + k)], q + [p], k)
  {
    var q' := q + [p];
    var ms' := ms + [ContextMatch(page, p, p + k)];
    forall j | 0 <= j < |q| ensures q'[j] == q[j] && ms'[j] == ms[j] { }
  }

  /** A candidate that fails the filter adds nothing to the report. */
  lemma ReportsSkip(page: Page, starts: seq<nat>, k: nat, i: nat, ms: seq<Match>)
    requires StartsOnBoundary(page.text)
    requires InText(|page.text|, starts, k) && i < |starts|
    requires Reports(page, ms, KeptUpTo(page.text, starts, k, i), k)
    requires !WordBounded(page.text, starts[i], starts[i] + k)
    ensures Reports(page, ms, KeptUpTo(page.text, starts, k, i + 1), k)
  {
    InTextPrefix(|page.text|, starts, k, i + 1);
    assert starts[..i + 1][..i] == starts[..i];
  }

  /** A candidate that passes the filter adds its context match. */
  lemma ReportsKeep(page: Page, starts: seq<nat>, k: nat, i: nat, ms: seq<Match>)
    requires StartsOnBoundary(page.text)
    requires InText(|page.text|, starts, k) && i < |starts|
    requires Reports(page, ms, KeptUpTo(page.text, starts, k, i), k)
    requires WordBounded(page.text, starts[i], starts[i] + k)
    ensures Reports(page, ms + [ContextMatch(page, starts[i], starts[i] + k)], KeptUpTo(page.text, starts, k, i + 1), k)
  {
    var prev, p := KeptUpTo(page.text, starts, k, i), starts[i];
    assert KeptUpTo(page.text, starts, k, i + 1) == prev + [p] by {
      InTextPrefix(|page.text|, starts, k, i + 1);
      assert starts[..i + 1][..i] == starts[..i];
    }
    ReportsSnoc(page, ms, prev, k, p);
  }

  /** One turn of a finder's loop keeps the report in step with the
      filter: whatever the filter-and-emit block returns for the `i`-th
      candidate reports the kept candidates among the first `i + 1`. */
  lemma ReportsStep(page: Page, starts: seq<nat>, k: nat, i: nat, ms: seq<Match>, out: seq<Match>)
    requires StartsOnBoundary(page.text)
    requires InText(|page.text|, starts, k) && i < |starts|
    requires Reports(page, ms, KeptUpTo(page.text, starts, k, i), k)
    requires out == if WordBounded(page.text, starts[i], starts[i] + k) then ms + [ContextMatch(page, starts[i], starts[i] + k)] else ms
    ensures Reports(page, out, KeptUpTo(page.text, starts, k, i + 1), k)
  {
    if WordBounded(page.text, starts[i], starts[i] + k) {
      ReportsKeep(page, starts, k, i, ms);
    } else {
      ReportsSkip(page, starts, k, i, ms);
    }
  }

  /** The filter-and-emit block applied to the `i`-th of a finder's
      candidates `starts`: the output reports the kept candidates among the
      first `i + 1` whenever the input reports those among the first `i`. */
  method EmitCandidate(page: Page, ghost starts: seq<nat>, k: nat, ghost i: nat, start: nat, matches: seq<Match>) returns (out: seq<Match>)
    requires StartsOnBoundary(page.text)
    requires InText(|page.text|, starts, k) && i < |starts| && start == starts[i]
    requires Reports(page, matches, KeptUpTo(page.text, starts, k, i), k)
    ensures Reports(page, out, KeptUpTo(page.text, starts, k, i + 1), k)
  {
    out := EmitIfBounded(page, start, start + k, matches);
    ReportsStep(page, starts, k, i, matches, out);
  }

  /** A report is determined by the candidates: two outputs that both
      report `q` are the same sequence. */
  lemma {:induction false} ReportsUnique(page: Page, ms1: seq<Match>, ms2: seq<Match>, q: seq<nat>, k: nat)
    requires StartsOnBoundary(page.text)
    requires InText(|page.text|, q, k)
    requires Reports(page, ms1, q, k) && Reports(page, ms2, q, k)
    ensures ms1 == ms2
  {
    forall j | 0 <= j < |q| ensures ms1[j] == ms2[j] {
      assert ms1[j] == ContextMatch(page, q[j], q[j] + k);
    }
  }

  /** Two reports agree wherever they report the same candidate. */
  lemma ReportsAgree(page: Page, ms1: seq<Match>, q1: seq<nat>, ms2: seq<Match>, q2: seq<nat>, k: nat, j1: nat, j2: nat)
    requires StartsOnBoundary(page.text)
    requires InText(|page.text|, q1, k) && InText(|page.text|, q2, k)
    requires Reports(page, ms1, q1, k) && Reports(page, ms2, q2, k)
    requires j1 < |q1| && j2 < |q2| && q1[j1] == q2[j2]
    ensures ms1[j1] == ms2[j2]
  {
    assert ms1[j1] == ContextMatch(page, q1[j1], q1[j1] + k);
  }

  /** Every emitted match is the context match of a word-bounded
      candidate: the `j`-th match belongs to the `i`-th candidate. */
  lemma ReportSound(page: Page, starts: seq<nat>, k: nat, ms: seq<Match>, j: nat) returns (i: nat)
    requires StartsOnBoundary(page.text)
    requires InText(|page.text|, starts, k)
    requires Reports(page, ms, BoundedStarts(page.text, starts, k), k)
    requires j < |ms|
    ensures i < |starts| && WordBounded(page.text, starts[i], starts[i] + k)
    ensures ms[j] == ContextMatch(page, starts[i], starts[i] + k)
  {
    i := BoundedStartsFrom(page.text, starts, k, j);
  }

  /** Every word-bounded candidate is emitted: the `i`-th candidate gives
      the `j`-th match. */
  lemma ReportComplete(page: Page, starts: seq<nat>, k: nat, ms: seq<Match>, i: nat) returns (j: nat)
    requires StartsOnBoundary(page.text)
    requires InText(|page.text|, starts, k)
    requires Reports(page, ms, BoundedStarts(page.text, starts, k), k)
    requires i < |starts| && WordBounded(page.text, starts[i], starts[i] + k)
    ensures j < |ms| && ms[j] == ContextMatch(page, starts[i], starts[i] + k)
  {
    j := BoundedStartsKeeps(page.text, starts, k, i);
  }

  /** The word-boundary examples: "cat" is rejected inside "category"
      (letter after) and "bobcat" (letter before) and accepted in
      "the cat sat". */
  lemma WordBoundaryExamples()
    ensures !WordBounded([0x63, 0x61, 0x74, 0x65, 0x67, 0x6F, 0x72, 0x79], 0, 3)
    ensures !WordBounded([0x62, 0x6F, 0x62, 0x63, 0x61, 0x74], 3, 6)
    ensures WordBounded([0x74, 0x68, 0x65, 0x20, 0x63, 0x61, 0x74, 0x20, 0x73, 0x61, 0x74], 4, 7)
  {
  }
}
