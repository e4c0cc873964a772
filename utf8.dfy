/** Byte classification and the UTF-8 context slicer.

    A context string around a match is cut at a byte offset that may fall
    inside a multi-byte UTF-8 sequence.  The slicer moves the cut outward
    until it sits on a code-point boundary, using the rule of section 3 of
    RFC 3629 that continuation bytes have the form 10xxxxxx.
 */
module Utf8 {

  /** One byte of a Go string (or of a C `char` buffer). */
  newtype Byte = x: int | 0 <= x < 256

  /** ASCII letter test used by the word-boundary filter (`isLetter`):
      'a' to 'z' (0x61 to 0x7A) or 'A' to 'Z' (0x41 to 0x5A). */
  function IsLetter(b: Byte): (r: bool)
  {
    (0x61 <= b <= 0x7A) || (0x41 <= b <= 0x5A)
  }

  /** The byte continues a multi-byte sequence: it has the form 10xxxxxx. */
  function IsContinuationByte(b: Byte): (r: bool)
  {
    0x80 <= b <= 0xBF
  }

  /** The byte is a whole one-byte (ASCII) character: 0xxxxxxx. */
  function IsSingleByteChar(b: Byte): (r: bool)
  {
    b < 0x80
  }

  /** Reading a byte as an 8-bit vector and back gives the byte again. */
  lemma BitsRoundTrip(b: Byte)
    ensures (b as bv8) as Byte == b
  {
    assert (b as int) % 256 == b as int;
  }

  /** The continuation test agrees with the bit test the source writes,
      `b&0xC0 == 0x80`. */
  lemma ContinuationIsBitTest(b: Byte)
    ensures IsContinuationByte(b) <==> (b as bv8) & 0xC0 == 0x80
  {
  }

  /** The one-byte test agrees with the bit test the source writes,
      `b&0x80 == 0`. */
  lemma SingleByteIsBitTest(b: Byte)
    ensures IsSingleByteChar(b) <==> (b as bv8) & 0x80 == 0
  {
  }

  /** Only the 52 ASCII letters are letters; in particular no byte of a
      multi-byte character is one, and a letter is a whole character. */
  lemma LetterIsAscii(b: Byte)
    ensures IsLetter(b) ==> IsSingleByteChar(b) && !IsContinuationByte(b)
    ensures b >= 0x80 ==> !IsLetter(b)
  {
  }

  /** Some byte at or before `end` starts a character, so the leftward
      walk of the slicer stops inside the text. */
  ghost predicate HasBoundaryAtOrBefore(text: seq<Byte>, end: int)
    requires end < |text|
  {
    exists k :: 0 <= k <= end && !IsContinuationByte(text[k])
  }

  /** A text that does not begin in the middle of a character (true of
      every valid UTF-8 text). */
  predicate StartsOnBoundary(text: seq<Byte>)
  {
    |text| == 0 || !IsContinuationByte(text[0])
  }

  lemma BoundaryFromStart(text: seq<Byte>, end: int)
    requires StartsOnBoundary(text) && 0 <= end < |text|
    ensures HasBoundaryAtOrBefore(text, end)
  {
    assert !IsContinuationByte(text[0]);
  }

  /** Position `j` holds a byte in `[lo, hi]`. */
  predicate ByteIn(s: seq<Byte>, j: nat, lo: Byte, hi: Byte)
  {
    j < |s| && lo <= s[j] <= hi
  }

  /** The length of the well-formed UTF-8 sequence starting at `i`, or 0
      when the bytes there do not form one.  This is the table of section 4
      of RFC 3629: no overlong forms, no surrogates (ED A0..BF), nothing
      above U+10FFFF. */
  function SequenceLength(s: seq<Byte>, i: nat): (n: nat)
    requires i < |s|
    ensures n <= 4 && i + n <= |s|
    ensures n > 0 ==> !IsContinuationByte(s[i])
    ensures n == 1 <==> IsSingleByteChar(s[i])
  {
    var b := s[i];
    if b < 0x80 then 1
    else if 0xC2 <= b <= 0xDF && ByteIn(s, i + 1, 0x80, 0xBF) then 2
    else if b == 0xE0 && ByteIn(s, i + 1, 0xA0, 0xBF) && ByteIn(s, i + 2, 0x80, 0xBF) then 3
    else if (0xE1 <= b <= 0xEC || 0xEE <= b <= 0xEF)
            && ByteIn(s, i + 1, 0x80, 0xBF) && ByteIn(s, i + 2, 0x80, 0xBF) then 3
    else if b == 0xED && ByteIn(s, i + 1, 0x80, 0x9F) && ByteIn(s, i + 2, 0x80, 0xBF) then 3
    else if b == 0xF0 && ByteIn(s, i + 1, 0x90, 0xBF)
            && ByteIn(s, i + 2, 0x80, 0xBF) && ByteIn(s, i + 3, 0x80, 0xBF) then 4
    else if 0xF1 <= b <= 0xF3 && ByteIn(s, i + 1, 0x80, 0xBF)
            && ByteIn(s, i + 2, 0x80, 0xBF) && ByteIn(s, i + 3, 0x80, 0xBF) then 4
    else if b == 0xF4 && ByteIn(s, i + 1, 0x80, 0x8F)
            && ByteIn(s, i + 2, 0x80, 0xBF) && ByteIn(s, i + 3, 0x80, 0xBF) then 4
    else 0
  }

  /** The bytes from `i` on are a sequence of well-formed UTF-8 characters. */
  predicate ValidFrom(s: seq<Byte>, i: nat)
    requires i <= |s|
    decreases |s| - i
  {
    i == |s| || (SequenceLength(s, i) > 0 && ValidFrom(s, i + SequenceLength(s, i)))
  }

  /** Go's `utf8.ValidString`: the text is well-formed UTF-8. */
  predicate ValidUtf8(s: seq<Byte>)
  {
    ValidFrom(s, 0)
  }

  /** Well-formed UTF-8 never begins in the middle of a character. */
  lemma ValidStartsOnBoundary(s: seq<Byte>)
    requires ValidUtf8(s)
    ensures StartsOnBoundary(s)
  {
  }

  /** Pure ASCII from `i` on is well-formed. */
  lemma {:induction false} AsciiValidFrom(s: seq<Byte>, i: nat)
    requires i <= |s|
    requires forall j :: i <= j < |s| ==> IsSingleByteChar(s[j])
    ensures ValidFrom(s, i)
    decreases |s| - i
  {
    if i < |s| {
      AsciiValidFrom(s, i + 1);
    }
  }

  /** Every ASCII text is well-formed UTF-8. */
  lemma AsciiIsValid(s: seq<Byte>)
    requires forall j :: 0 <= j < |s| ==> IsSingleByteChar(s[j])
    ensures ValidUtf8(s)
  {
    AsciiValidFrom(s, 0);
  }

  /** Examples: the bytes FF FF FF FF are not UTF-8 (0xFF never occurs in
      it); an en dash E2 80 93 is one three-byte character; the surrogate
      encoding ED A0 80 and the overlong C0 AF are rejected. */
  lemma ValidUtf8Examples()
    ensures !ValidUtf8([0xFF, 0xFF, 0xFF, 0xFF])
    ensures ValidUtf8([0xE2, 0x80, 0x93])
    ensures !ValidUtf8([0xED, 0xA0, 0x80])
    ensures !ValidUtf8([0xC0, 0xAF])
  {
    assert SequenceLength([0xE2, 0x80, 0x93], 0) == 3;
    assert ValidFrom([0xE2, 0x80, 0x93], 3);
  }

  /** The greatest position at or before `end` whose byte is not a
      continuation byte: where the left context starts. */
  function LeftCut(text: seq<Byte>, end: int): (e: nat)
    requires 0 <= end < |text|
    requires HasBoundaryAtOrBefore(text, end)
    ensures e <= end && !IsContinuationByte(text[e])
    decreases end
  {
    if !IsContinuationByte(text[end]) then end else LeftCut(text, end - 1)
  }

  /** Every byte after the left cut, up to `end`, is a continuation byte:
      the cut is the greatest boundary at or before `end`. */
  lemma {:induction false} LeftCutIsGreatest(text: seq<Byte>, end: int, k: int)
    requires 0 <= end < |text|
    requires HasBoundaryAtOrBefore(text, end)
    requires LeftCut(text, end) < k <= end
    ensures IsContinuationByte(text[k])
    decreases end
  {
    if k < end {
      LeftCutIsGreatest(text, end - 1, k);
    }
  }

  /** The first position at or after `p` that is the end of the text or
      holds a byte that is not a continuation byte. */
  function NextBoundary(text: seq<Byte>, p: nat): (e: nat)
    requires p <= |text|
    ensures p <= e <= |text|
    ensures e == |text| || !IsContinuationByte(text[e])
    decreases |text| - p
  {
    if p < |text| && IsContinuationByte(text[p]) then NextBoundary(text, p + 1) else p
  }

  /** Every byte from `p` up to the next boundary is a continuation byte. */
  lemma {:induction false} NextBoundaryIsFirst(text: seq<Byte>, p: nat, k: nat)
    requires p <= |text| && p <= k < NextBoundary(text, p)
    ensures IsContinuationByte(text[k])
    decreases |text| - p
  {
    if p < k {
      NextBoundaryIsFirst(text, p + 1, k);
    }
  }

  /** Where the right context ends: `end` itself when it is the end of the
      text or an ASCII byte, otherwise the boundary after the character
      that `end` falls in (a cut on a lead byte takes that whole character). */
  function RightCut(text: seq<Byte>, end: nat): (e: nat)
    requires end <= |text|
    ensures end <= e <= |text|
    ensures e == |text| || !IsContinuationByte(text[e])
    ensures (end == |text| || IsSingleByteChar(text[end])) <==> e == end
  {
    if end == |text| || IsSingleByteChar(text[end]) then end else NextBoundary(text, end + 1)
  }

  /** When the right cut moves, it moves exactly over the continuation
      bytes that follow `end`. */
  lemma RightCutIsFirst(text: seq<Byte>, end: nat, k: nat)
    requires end <= |text| && end < k < RightCut(text, end)
    ensures IsContinuationByte(text[k])
  {
    NextBoundaryIsFirst(text, end + 1, k);
  }

  /** The value `SliceLeftUtf8(text, index, end)` returns. */
  function SliceLeft(text: seq<Byte>, index: int, end: int): (s: seq<Byte>)
    requires 0 <= end <= index <= |text| && end < |text|
    requires HasBoundaryAtOrBefore(text, end)
  {
    text[LeftCut(text, end)..index]
  }

  /** The value `SliceRightUtf8(text, index, end)` returns. */
  function SliceRight(text: seq<Byte>, index: nat, end: nat): (s: seq<Byte>)
    requires index <= end <= |text|
  {
    text[index..RightCut(text, end)]
  }

  /** The left slicer only widens: its result ends with `text[end..index]`,
      is a piece of the text ending at `index`, and starts on a character
      boundary. */
  lemma SliceLeftWidens(text: seq<Byte>, index: int, end: int)
    requires 0 <= end <= index <= |text| && end < |text|
    requires HasBoundaryAtOrBefore(text, end)
    ensures index - end <= |SliceLeft(text, index, end)| <= index
    ensures SliceLeft(text, index, end) == text[index - |SliceLeft(text, index, end)|..index]
    ensures SliceLeft(text, index, end)[|SliceLeft(text, index, end)| - (index - end)..] == text[end..index]
    ensures |SliceLeft(text, index, end)| > 0 ==> !IsContinuationByte(SliceLeft(text, index, end)[0])
  {
  }

  /** The right slicer only widens: its result starts with
      `text[index..end]`, is a piece of the text starting at `index`, and
      ends on a character boundary. */
  lemma SliceRightWidens(text: seq<Byte>, index: nat, end: nat)
    requires index <= end <= |text|
    ensures end - index <= |SliceRight(text, index, end)| && index + |SliceRight(text, index, end)| <= |text|
    ensures SliceRight(text, index, end) == text[index..index + |SliceRight(text, index, end)|]
    ensures SliceRight(text, index, end)[..end - index] == text[index..end]
    ensures index + |SliceRight(text, index, end)| == |text| || !IsContinuationByte(text[index + |SliceRight(text, index, end)|])
  {
  }

  /** `SliceLeftUtf8`: walk `end` left over continuation bytes, then cut. */
  method SliceLeftUtf8(text: seq<Byte>, index: int, end: int) returns (s: seq<Byte>)
    requires 0 <= end <= index <= |text| && end < |text|
    requires HasBoundaryAtOrBefore(text, end)
    ensures s == text[LeftCut(text, end)..index]
  {
    var e := end;
    while e >= 0 && IsContinuationByte(text[e])
      invariant LeftCut(text, end) <= e <= end
      decreases e
    {
      e := e - 1;
    }
    if LeftCut(text, end) < e {
      LeftCutIsGreatest(text, end, e);
    }
    s := text[e..index];
  }

  /** `SliceRightUtf8`: keep `end` on an ASCII byte or the end of the text,
      otherwise step past the current character's continuation bytes. */
  method SliceRightUtf8(text: seq<Byte>, index: int, end: int) returns (s: seq<Byte>)
    requires 0 <= index <= end <= |text|
    ensures s == text[index..RightCut(text, end)]
  {
    if end == |text| || IsSingleByteChar(text[end]) {
      s := text[index..end];
    } else {
      var e := end + 1;
      while e < |text| && IsContinuationByte(text[e])
        invariant end < e <= NextBoundary(text, end + 1)
        decreases |text| - e
      {
        e := e + 1;
      }
      if e < NextBoundary(text, end + 1) {
        NextBoundaryIsFirst(text, end + 1, e);
      }
      s := text[index..e];
    }
  }

  /** "a–b–c", where the dash U+2013 is the three bytes E2 80 93. */
  const DashText: seq<Byte> := [0x61, 0xE2, 0x80, 0x93, 0x62, 0xE2, 0x80, 0x93, 0x63]
  const Dash: seq<Byte> := [0xE2, 0x80, 0x93]

  /** Left cuts at 3, 2 and 1 towards index 4 and right cuts at 6, 7 and 8
      from index 5 all give exactly the dash. */
  lemma DashSlices()
    ensures HasBoundaryAtOrBefore(DashText, 3)
    ensures SliceLeft(DashText, 4, 3) == Dash
    ensures SliceLeft(DashText, 4, 2) == Dash
    ensures SliceLeft(DashText, 4, 1) == Dash
    ensures SliceRight(DashText, 5, 6) == Dash
    ensures SliceRight(DashText, 5, 7) == Dash
    ensures SliceRight(DashText, 5, 8) == Dash
  {
    BoundaryFromStart(DashText, 3);
    BoundaryFromStart(DashText, 2);
    BoundaryFromStart(DashText, 1);
    assert LeftCut(DashText, 3) == 1;
    assert LeftCut(DashText, 2) == 1;
    assert LeftCut(DashText, 1) == 1;
    assert RightCut(DashText, 6) == 8;
    assert RightCut(DashText, 7) == 8;
    assert RightCut(DashText, 8) == 8;
  }
}
