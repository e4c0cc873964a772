/** Literal occurrences of a keyword in a text.

    Two foreign searches are stated here as specifications: C's `strstr`
    (the leftmost occurrence at or after an offset, both arguments being
    the bytes of C strings, before their terminating NUL) and Go's
    `regexp.FindAllStringSubmatchIndex` on `regexp.QuoteMeta(keyword)`
    (the leftmost, non-overlapping occurrences, each search resuming
    where the previous match ended).  The Go search is stated on bytes:
    the compiled pattern is a sequence of literal characters, and for a
    keyword that is valid UTF-8 without the replacement character U+FFFD
    a match of those characters is a match of the same bytes.
 */
module Literal {
  import opened Utf8

  /** The keyword occurs in the text starting at byte `i`. */
  predicate OccursAt(text: seq<Byte>, kw: seq<Byte>, i: int)
  {
    0 <= i && i + |kw| <= |text| && text[i..i + |kw|] == kw
  }

  /** The first occurrence at or after `from`, or -1 (the `strstr` result). */
  function FirstOccurrence(text: seq<Byte>, kw: seq<Byte>, from: nat): (r: int)
    ensures r == -1 || (from <= r && r + |kw| <= |text|)
    decreases |text| - from
  {
    if from + |kw| > |text| then -1
    else if OccursAt(text, kw, from) then from
    else FirstOccurrence(text, kw, from + 1)
  }

  /** A position the search returns holds an occurrence. */
  lemma {:induction false} FirstOccurrenceFound(text: seq<Byte>, kw: seq<Byte>, from: nat)
    ensures FirstOccurrence(text, kw, from) != -1 ==> OccursAt(text, kw, FirstOccurrence(text, kw, from))
    decreases |text| - from
  {
    if from + |kw| <= |text| && !OccursAt(text, kw, from) {
      FirstOccurrenceFound(text, kw, from + 1);
    }
  }

  /** The search finds the leftmost occurrence: any occurrence at or after
      `from` means it succeeds, at that position or before it. */
  lemma {:induction false} FirstOccurrenceIsLeftmost(text: seq<Byte>, kw: seq<Byte>, from: nat, p: nat)
    requires from <= p && OccursAt(text, kw, p)
    ensures FirstOccurrence(text, kw, from) != -1 && FirstOccurrence(text, kw, from) <= p
    decreases p - from
  {
    if from < p && !OccursAt(text, kw, from) {
      FirstOccurrenceIsLeftmost(text, kw, from + 1, p);
    }
  }

  /** Offsets listed in strictly increasing order. */
  predicate Increasing(starts: seq<nat>)
  {
    forall a, b :: 0 <= a < b < |starts| ==> starts[a] < starts[b]
  }

  /** Consecutive starts are at least `gap` apart. */
  predicate Spaced(starts: seq<nat>, gap: nat)
  {
    forall j :: 0 < j < |starts| ==> starts[j - 1] + gap <= starts[j]
  }

  /** The start offsets the literal pattern's `FindAll` reports, searching
      from `from`: leftmost first, then resuming at the end of each match. */
  function LiteralMatches(text: seq<Byte>, kw: seq<Byte>, from: nat): (starts: seq<nat>)
    requires |kw| > 0
    ensures forall j :: 0 <= j < |starts| ==> from <= starts[j] && starts[j] + |kw| <= |text|
    ensures Spaced(starts, |kw|)
    decreases |text| - from
  {
    var i := FirstOccurrence(text, kw, from);
    if i == -1 then []
    else
      var rest := LiteralMatches(text, kw, i + |kw|);
      assert forall j :: 0 <= j < |rest| ==> i + |kw| <= rest[j];
      [i] + rest
  }

  /** Every reported start is an occurrence of the keyword. */
  lemma {:induction false} LiteralMatchesOccur(text: seq<Byte>, kw: seq<Byte>, from: nat, j: nat)
    requires |kw| > 0 && j < |LiteralMatches(text, kw, from)|
    ensures OccursAt(text, kw, LiteralMatches(text, kw, from)[j])
    decreases |text| - from
  {
    var i := FirstOccurrence(text, kw, from);
    if j > 0 {
      LiteralMatchesOccur(text, kw, i + |kw|, j - 1);
    } else {
      FirstOccurrenceFound(text, kw, from);
    }
  }

  /** Every occurrence at or after `from` is reported or overlaps a reported
      one: the literal `FindAll` skips only occurrences that overlap an
      earlier match.  `j` is the index of the reported match covering `p`. */
  lemma {:induction false} LiteralMatchesMaximal(text: seq<Byte>, kw: seq<Byte>, from: nat, p: nat) returns (j: nat)
    requires |kw| > 0
    requires from <= p && OccursAt(text, kw, p)
    ensures j < |LiteralMatches(text, kw, from)|
    ensures LiteralMatches(text, kw, from)[j] <= p < LiteralMatches(text, kw, from)[j] + |kw|
    decreases |text| - from
  {
    FirstOccurrenceIsLeftmost(text, kw, from, p);
    var i := FirstOccurrence(text, kw, from);
    var rest := LiteralMatches(text, kw, i + |kw|);
    assert LiteralMatches(text, kw, from) == [i] + rest;
    if p >= i + |kw| {
      var r := LiteralMatchesMaximal(text, kw, i + |kw|, p);
      j := r + 1;
    } else {
      j := 0;
    }
  }

  /** Starts spaced by at least `gap` never overlap: any two of them are
      `gap` apart. */
  lemma {:induction false} SpacedApart(starts: seq<nat>, gap: nat, a: nat, b: nat)
    requires Spaced(starts, gap)
    requires a < b < |starts|
    ensures starts[a] + gap <= starts[b]
    decreases b - a
  {
    if a + 1 < b {
      SpacedApart(starts, gap, a + 1, b);
    }
  }

  /** The literal `FindAll` reports its matches in increasing start order,
      and no two of them overlap. */
  lemma LiteralMatchesOrdered(text: seq<Byte>, kw: seq<Byte>, from: nat)
    requires |kw| > 0
    ensures Increasing(LiteralMatches(text, kw, from))
    ensures forall a, b :: 0 <= a < b < |LiteralMatches(text, kw, from)| ==>
              LiteralMatches(text, kw, from)[a] + |kw| <= LiteralMatches(text, kw, from)[b]
  {
    var s := LiteralMatches(text, kw, from);
    forall a, b | 0 <= a < b < |s| ensures s[a] + |kw| <= s[b] {
      SpacedApart(s, |kw|, a, b);
    }
  }
}
