/** The regular-expression finder.

    The finder compiles `regexp.QuoteMeta(keyword)`, a pattern that matches
    the keyword literally (compiling fails on a keyword that is not UTF-8),
    and walks the leftmost, non-overlapping matches
    that `FindAllStringSubmatchIndex` reports.  Each match that passes the
    ASCII word-boundary filter becomes a `Match` with widened context
    windows.  The same loop appears as `findConcordance` in the library
    package and in the stand-alone server; all three are this method.
 */
module FinderGeneric {
  import opened Utf8
  import opened Literal
  import opened Concordance
  import opened Handler

  /** A finder holds the compiled literal pattern, represented by the
      keyword it matches. */
  datatype Finder = Finder(keyword: seq<Byte>)

  /** What constructing a finder gives: a finder, or the error of
      `regexp.Compile`. */
  datatype Built = Built(finder: Finder) | CompileError

  /** `NewFinder`: `regexp.QuoteMeta` escapes only ASCII metacharacters, so
      compiling the quoted keyword fails exactly when the keyword is not
      well-formed UTF-8 (`ErrInvalidUTF8`).  This finder panics on that
      error; the library's `StreamSearch` and the server's `streamSearch`
      return it.  A finder that is built matches exactly the keyword's
      bytes. */
  function NewFinder(keyword: seq<Byte>): (r: Built)
    ensures r.Built? <==> ValidUtf8(keyword)
    ensures r.Built? ==> r.finder.keyword == keyword
  {
    if ValidUtf8(keyword) then Built(Finder(keyword)) else CompileError
  }

  /** An ASCII keyword always gives a finder. */
  lemma AsciiKeywordBuilds(keyword: seq<Byte>)
    requires forall j :: 0 <= j < |keyword| ==> IsSingleByteChar(keyword[j])
    ensures NewFinder(keyword) == Built(Finder(keyword))
  {
    AsciiIsValid(keyword);
  }

  /** The query `?w=%FF%FF%FF%FF` passes the handler's length check (four
      bytes) and then fails to compile, so no search runs. */
  lemma InvalidKeywordPassesLengthCheck()
    ensures CheckKeyword([0xFF, 0xFF, 0xFF, 0xFF]) == Accepted
    ensures NewFinder([0xFF, 0xFF, 0xFF, 0xFF]) == CompileError
  {
    ValidUtf8Examples();
  }

  /** `Find`: one match per word-bounded literal occurrence, in the order
      the pattern reports them.  The send on the output channel is an
      append; the quit-channel `select` only leaves the `select`, so it
      never ends the loop and is not modelled. */
  method Find(f: Finder, page: Page) returns (matches: seq<Match>)
    requires ValidUtf8(f.keyword) && |f.keyword| > 0
    requires StartsOnBoundary(page.text)
    ensures Reports(page, matches, BoundedStarts(page.text, LiteralMatches(page.text, f.keyword, 0), |f.keyword|), |f.keyword|)
  {
    var text := page.text;
    var k := |f.keyword|;
    var indices := LiteralMatches(text, f.keyword, 0);
    assert InText(|text|, indices, k);
    matches := [];
    for i := 0 to |indices|
      invariant Reports(page, matches, KeptUpTo(text, indices, k, i), k)
    {
      matches := EmitCandidate(page, indices, k, i, indices[i], matches);
    }
    KeptUpToAll(text, indices, k);
  }

  /** The generic finder's matches come in increasing order of position,
      one per kept occurrence, never more than the pattern's hits: the
      `j`-th match is the context match of the `j`-th entry of an
      increasing list of word-bounded literal occurrences. */
  lemma GenericMatchesInOrder(kw: seq<Byte>, page: Page, matches: seq<Match>)
    requires |kw| > 0
    requires StartsOnBoundary(page.text)
    requires Reports(page, matches, BoundedStarts(page.text, LiteralMatches(page.text, kw, 0), |kw|), |kw|)
    ensures |matches| <= |LiteralMatches(page.text, kw, 0)|
    ensures Increasing(BoundedStarts(page.text, LiteralMatches(page.text, kw, 0), |kw|))
    ensures forall j :: 0 <= j < |matches| ==>
              OccursAt(page.text, kw, BoundedStarts(page.text, LiteralMatches(page.text, kw, 0), |kw|)[j])
  {
    var hits := LiteralMatches(page.text, kw, 0);
    LiteralMatchesOrdered(page.text, kw, 0);
    BoundedStartsIncreasing(page.text, hits, |kw|);
    forall j | 0 <= j < |matches| ensures OccursAt(page.text, kw, BoundedStarts(page.text, hits, |kw|)[j]) {
      KeptOccurs(page.text, kw, j);
    }
  }

  /** Every kept literal match is an occurrence of the keyword. */
  lemma KeptOccurs(text: seq<Byte>, kw: seq<Byte>, j: nat)
    requires |kw| > 0
    requires j < |BoundedStarts(text, LiteralMatches(text, kw, 0), |kw|)|
    ensures OccursAt(text, kw, BoundedStarts(text, LiteralMatches(text, kw, 0), |kw|)[j])
  {
    var i := BoundedStartsFrom(text, LiteralMatches(text, kw, 0), |kw|, j);
    LiteralMatchesOccur(text, kw, 0, i);
  }
}
