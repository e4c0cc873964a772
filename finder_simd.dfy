/** The SIMD finder.

    The finder calls the masked 32-byte search repeatedly, resuming one
    byte after each hit, so it examines every occurrence that starts in a
    full window, overlapping ones included.  Each hit that passes the ASCII
    word-boundary filter becomes a `Match` with widened context windows.
 */
module FinderSimd {
  import opened Utf8
  import opened Literal
  import opened SimdSearch
  import opened Concordance
  import opened Scan
  import FinderGeneric

  /** The keyword and its length in bytes. */
  datatype Finder = Finder(keyword: seq<Byte>, keywordLen: int)

  /** `NewFinder` cannot fail: it stores the keyword and its byte length. */
  function NewFinder(keyword: seq<Byte>): (f: Finder)
    ensures f.keyword == keyword && f.keywordLen == |keyword|
  {
    Finder(keyword, |keyword|)
  }

  /** `Find`: search from offset 0, resume one byte after each hit, and
      emit a match for each word-bounded hit.  The quit-channel `select`
      never ends the loop and is not modelled. */
  method Find(f: Finder, page: Page) returns (matches: seq<Match>)
    requires f.keywordLen == |f.keyword|
    requires StartsOnBoundary(page.text)
    ensures Reports(page, matches, BoundedStarts(page.text, ScanHits(Masked, page.text, f.keyword), |f.keyword|), |f.keyword|)
  {
    var text := page.text;
    var k := f.keywordLen;
    ghost var hits := ScanHits(Masked, text, f.keyword);
    ghost var i: nat := 0;
    var offset := 0;
    matches := [];
    while true
      invariant i <= |hits| && offset == ScanResume(Masked, text, f.keyword, i)
      invariant Reports(page, matches, KeptUpTo(text, hits, k, i), k)
      decreases |text| - offset
    {
      var start := NextHit(Masked, text, f.keyword, offset, i);
      if start == -1 {
        break;
      }
      offset := start + 1;
      matches := EmitCandidate(page, hits, k, i, start, matches);
      i := i + 1;
    }
    KeptUpToAll(text, hits, k);
  }

  /** A page shorter than one vector gives no SIMD matches at all, even
      when it contains the keyword. */
  lemma ShortPageNoMatches(page: Page, kw: seq<Byte>, matches: seq<Match>)
    requires StartsOnBoundary(page.text) && |page.text| < Width
    requires Reports(page, matches, BoundedStarts(page.text, ScanHits(Masked, page.text, kw), |kw|), |kw|)
    ensures |matches| == 0
  {
    ShortTextNoHits(page.text, kw);
  }

  /** Where the keyword fits a vector and no occurrence starts in the last
      31 bytes of the text, every occurrence the regular-expression finder
      keeps is kept by the SIMD finder too: the `j`-th kept literal match
      is the `j2`-th kept SIMD hit. */
  lemma GenericKeptIsSimdKept(text: seq<Byte>, kw: seq<Byte>, j: nat) returns (j2: nat)
    requires 0 < |kw| <= Width
    requires forall p :: OccursAt(text, kw, p) ==> p + Width <= |text|
    requires InText(|text|, LiteralMatches(text, kw, 0), |kw|)
    requires j < |BoundedStarts(text, LiteralMatches(text, kw, 0), |kw|)|
    ensures j2 < |BoundedStarts(text, ScanHits(Masked, text, kw), |kw|)|
    ensures BoundedStarts(text, ScanHits(Masked, text, kw), |kw|)[j2] == BoundedStarts(text, LiteralMatches(text, kw, 0), |kw|)[j]
  {
    var literal, hits := LiteralMatches(text, kw, 0), ScanHits(Masked, text, kw);
    var p := BoundedStarts(text, literal, |kw|)[j];
    FinderGeneric.KeptOccurs(text, kw, j);
    assert p + Width <= |text|;
    var h := HitsComplete(Masked, text, kw, p);
    j2 := BoundedStartsKeeps(text, hits, |kw|, h);
  }

  /** Where the keyword fits a vector and no occurrence starts in the last
      31 bytes of the page, every match of the regular-expression finder
      is also a match of the SIMD finder: the `j`-th generic match is the
      `j2`-th SIMD match. */
  lemma GenericMatchIsSimdMatch(page: Page, kw: seq<Byte>, generic: seq<Match>, simd: seq<Match>, j: nat) returns (j2: nat)
    requires 0 < |kw| <= Width
    requires StartsOnBoundary(page.text)
    requires forall p :: OccursAt(page.text, kw, p) ==> p + Width <= |page.text|
    requires Reports(page, generic, BoundedStarts(page.text, LiteralMatches(page.text, kw, 0), |kw|), |kw|)
    requires Reports(page, simd, BoundedStarts(page.text, ScanHits(Masked, page.text, kw), |kw|), |kw|)
    requires j < |generic|
    ensures j2 < |simd| && simd[j2] == generic[j]
  {
    var text, k := page.text, |kw|;
    j2 := GenericKeptIsSimdKept(text, kw, j);
    ReportsAgree(page, generic, BoundedStarts(text, LiteralMatches(text, kw, 0), k),
                 simd, BoundedStarts(text, ScanHits(Masked, text, kw), k), k, j, j2);
  }

  /** Two occurrences that overlap (`p` and `p + d` with `d` shorter than
      the keyword) are both hits of the SIMD search loop, in order, when
      both start in a full window; the literal pattern never reports both. */
  lemma OverlapsSplitFinders(text: seq<Byte>, kw: seq<Byte>, p: nat, d: nat) returns (a: nat, b: nat)
    requires 0 < d < |kw| <= Width
    requires OccursAt(text, kw, p) && OccursAt(text, kw, p + d) && p + d + Width <= |text|
    ensures a < b < |ScanHits(Masked, text, kw)|
    ensures ScanHits(Masked, text, kw)[a] == p && ScanHits(Masked, text, kw)[b] == p + d
    ensures forall x, y :: 0 <= x < |LiteralMatches(text, kw, 0)| && 0 <= y < |LiteralMatches(text, kw, 0)| ==>
              !(LiteralMatches(text, kw, 0)[x] == p && LiteralMatches(text, kw, 0)[y] == p + d)
  {
    a := HitsComplete(Masked, text, kw, p);
    b := HitsComplete(Masked, text, kw, p + d);
    ScanIncreasing(Masked, text, kw);
    LiteralMatchesOrdered(text, kw, 0);
  }
}
