/** The fixed-width masked substring search `simd_str_search`.

    The keyword is copied into a zero-padded 32-byte vector together with
    a mask that is 0xFF over the keyword and 0 beyond it.  Each 32-byte
    window of the text is XORed with the keyword vector and ANDed with the
    mask; the window matches when the result is all zero.  The vector
    instructions are modelled by their lane-wise meaning.

    The Go wrapper takes the lengths of Go strings; the copy in the C
    benchmark takes `strlen` of both arguments, so there `text` is the C
    string of the file's contents.
 */
module SimdSearch {
  import opened Utf8
  import opened Literal

  /** Width of one AVX2 vector, in bytes. */
  const Width: nat := 32

  /** What `simd_str_search(text, keyword, offset)` returns: -1 when the
      text is shorter than a vector or the keyword longer than one,
      otherwise the first occurrence starting in `[offset, |text| - 32]`,
      or -1 when there is none. */
  function SimdSpec(text: seq<Byte>, kw: seq<Byte>, offset: nat): (r: int)
    ensures (|text| < Width || |kw| > Width) ==> r == -1
    ensures r == -1 || offset <= r <= |text| - Width
  {
    if |text| < Width || |kw| > Width then -1
    else
      var r := FirstOccurrence(text, kw, offset);
      if r <= |text| - Width then r else -1
  }

  /** A position the masked search returns holds an occurrence. */
  lemma SimdSpecFound(text: seq<Byte>, kw: seq<Byte>, offset: nat)
    ensures SimdSpec(text, kw, offset) != -1 ==> OccursAt(text, kw, SimdSpec(text, kw, offset))
  {
    FirstOccurrenceFound(text, kw, offset);
  }

  /** The masked search returns the leftmost occurrence in the windows
      from `offset`: an occurrence starting at `p`, with a whole vector
      left from `p`, means it succeeds at `p` or before it. */
  lemma SimdSpecIsLeftmost(text: seq<Byte>, kw: seq<Byte>, offset: nat, p: nat)
    requires |kw| <= Width
    requires offset <= p && p + Width <= |text| && OccursAt(text, kw, p)
    ensures SimdSpec(text, kw, offset) != -1 && SimdSpec(text, kw, offset) <= p
  {
    FirstOccurrenceIsLeftmost(text, kw, offset, p);
  }

  /** The `keyword_padded` vector. */
  function Padded(kw: seq<Byte>): (v: seq<Byte>)
    requires |kw| <= Width
    ensures |v| == Width
  {
    seq(Width, (j: int) requires 0 <= j < Width => if j < |kw| then kw[j] else 0)
  }

  /** The `keyword_mask` vector. */
  function Mask(kw: seq<Byte>): (v: seq<Byte>)
    requires |kw| <= Width
    ensures |v| == Width
  {
    seq(Width, (j: int) requires 0 <= j < Width => if j < |kw| then 0xFF else 0)
  }

  /** `_mm256_testz_si256(r2, r2)` where `r2 = (textv ^ keywordv) & mask`:
      every lane of the masked difference is zero. */
  predicate LanesEqual(text: seq<Byte>, i: nat, keywordv: seq<Byte>, mask: seq<Byte>)
    requires i + Width <= |text| && |keywordv| == Width && |mask| == Width
  {
    forall j | 0 <= j < Width :: ((text[i + j] as bv8) ^ (keywordv[j] as bv8)) & (mask[j] as bv8) == 0
  }

  /** One lane: under an all-ones mask the masked difference is zero iff
      the bytes are equal; under a zero mask it is always zero. */
  lemma MaskedLane(a: Byte, b: Byte, m: Byte)
    requires m == 0xFF || m == 0
    ensures ((a as bv8) ^ (b as bv8)) & (m as bv8) == 0 <==> (m == 0 || a == b)
  {
    BitsRoundTrip(a);
    BitsRoundTrip(b);
    BitsRoundTrip(m);
    LaneBits(a as bv8, b as bv8, m as bv8);
  }

  lemma LaneBits(x: bv8, y: bv8, m: bv8)
    requires m == 0xFF || m == 0
    ensures (x ^ y) & m == 0 <==> (m == 0 || x == y)
  {
  }

  /** The masked vector test compares exactly the first `|kw|` bytes of the
      window with the keyword: it holds iff the keyword occurs at `i`. */
  lemma MaskedCompareIsOccurrence(text: seq<Byte>, kw: seq<Byte>, i: nat)
    requires |kw| <= Width && i + Width <= |text|
    ensures LanesEqual(text, i, Padded(kw), Mask(kw)) <==> OccursAt(text, kw, i)
  {
    if LanesEqual(text, i, Padded(kw), Mask(kw)) {
      LanesImplyOccurrence(text, kw, i);
    }
    if OccursAt(text, kw, i) {
      OccurrenceImpliesLanes(text, kw, i);
    }
  }

  lemma LanesImplyOccurrence(text: seq<Byte>, kw: seq<Byte>, i: nat)
    requires |kw| <= Width && i + Width <= |text|
    requires LanesEqual(text, i, Padded(kw), Mask(kw))
    ensures OccursAt(text, kw, i)
  {
    var pv, mv := Padded(kw), Mask(kw);
    forall j | 0 <= j < |kw| ensures text[i..i + |kw|][j] == kw[j] {
      MaskedLane(text[i + j], pv[j], mv[j]);
    }
  }

  lemma OccurrenceImpliesLanes(text: seq<Byte>, kw: seq<Byte>, i: nat)
    requires |kw| <= Width && i + Width <= |text|
    requires OccursAt(text, kw, i)
    ensures LanesEqual(text, i, Padded(kw), Mask(kw))
  {
    var pv, mv := Padded(kw), Mask(kw);
    forall j | 0 <= j < Width ensures ((text[i + j] as bv8) ^ (pv[j] as bv8)) & (mv[j] as bv8) == 0 {
      MaskedLane(text[i + j], pv[j], mv[j]);
      if j < |kw| {
        assert text[i..i + |kw|][j] == kw[j];
      }
    }
  }

  /** `simd_str_search` / the Go `Search` wrapper: fill the padded keyword
      and the mask, then scan the windows from `offset` with an early return. */
  method Search(text: seq<Byte>, kw: seq<Byte>, offset: nat) returns (r: int)
    ensures r == SimdSpec(text, kw, offset)
  {
    if |text| < Width || |kw| > Width {
      return -1;
    }
    var keywordPadded := new Byte[Width](_ => 0);
    var keywordMask := new Byte[Width](_ => 0);
    var k := 0;
    while k < |kw|
      invariant 0 <= k <= |kw|
      invariant forall j :: 0 <= j < Width ==> keywordPadded[j] == (if j < k then kw[j] else 0)
      invariant forall j :: 0 <= j < Width ==> keywordMask[j] == (if j < k then 0xFF else 0)
    {
      keywordPadded[k] := kw[k];
      keywordMask[k] := 0xFF;
      k := k + 1;
    }
    var keywordv := keywordPadded[..];
    var mask := keywordMask[..];
    assert keywordv == Padded(kw) && mask == Mask(kw);

    var i := offset;
    while i <= |text| - Width
      invariant offset <= i
      invariant FirstOccurrence(text, kw, i) == FirstOccurrence(text, kw, offset)
      decreases |text| - i
    {
      MaskedCompareIsOccurrence(text, kw, i);
      if LanesEqual(text, i, keywordv, mask) {
        return i;
      }
      i := i + 1;
    }
    return -1;
  }

  /** The window never reaches the last 31 bytes: an offset past
      `|text| - 32` finds nothing. */
  lemma {:induction false} OffsetPastLastWindow(text: seq<Byte>, kw: seq<Byte>, offset: nat)
    requires offset + Width > |text|
    ensures SimdSpec(text, kw, offset) == -1
  {
    if |text| >= Width && |kw| <= Width {
      var r := FirstOccurrence(text, kw, offset);
      assert r == -1 || r >= offset;
    }
  }

  /** A keyword that occurs nowhere in the text is never found, whatever
      the offset (the "vampire" cases of the Go tests). */
  lemma AbsentKeywordNotFound(text: seq<Byte>, kw: seq<Byte>, offset: nat)
    requires forall i :: !OccursAt(text, kw, i)
    ensures SimdSpec(text, kw, offset) == -1
  {
    SimdSpecFound(text, kw, offset);
  }

  /** The test text of the Go `Search` tests,
      "asdfhjkasdfhklasdhfklasdjfhjkasdjhfjkasdhvajkdv", as bytes: the
      13 bytes before the keyword "lasdh", the keyword, and the rest. */
  const TestText: seq<Byte> := TestText0 + TestKeyword + TestText1 + TestText2
  const TestText0: seq<Byte> := [0x61, 0x73, 0x64, 0x66, 0x68, 0x6A, 0x6B, 0x61, 0x73, 0x64, 0x66, 0x68, 0x6B]
  const TestText1: seq<Byte> := [0x66, 0x6B, 0x6C, 0x61, 0x73, 0x64, 0x6A, 0x66, 0x68, 0x6A, 0x6B, 0x61, 0x73, 0x64]
  const TestText2: seq<Byte> := [0x6A, 0x68, 0x66, 0x6A, 0x6B, 0x61, 0x73, 0x64, 0x68, 0x76, 0x61, 0x6A, 0x6B, 0x64, 0x76]
  /** "lasdh" as bytes. */
  const TestKeyword: seq<Byte> := [0x6C, 0x61, 0x73, 0x64, 0x68]

  /** `"lasdh"` is found at 13 from offsets 0, 1 and 10 and not from 14. */
  lemma SearchTestVectors()
    ensures SimdSpec(TestText, TestKeyword, 0) == 13
    ensures SimdSpec(TestText, TestKeyword, 1) == 13
    ensures SimdSpec(TestText, TestKeyword, 10) == 13
    ensures SimdSpec(TestText, TestKeyword, 14) == -1
  {
    var t, kw := TestText, TestKeyword;
    assert |t| == 47 && t[13..18] == kw;
    assert OccursAt(t, kw, 13);
    forall p | 0 <= p < 13 || 14 <= p <= 15 ensures t[p] != kw[0] {
      assert p == 0 || p == 1 || p == 2 || p == 3 || p == 4 || p == 5 || p == 6 || p == 7
          || p == 8 || p == 9 || p == 10 || p == 11 || p == 12 || p == 14 || p == 15;
    }
    forall p | 0 <= p < 13 || 14 <= p <= 15 ensures !OccursAt(t, kw, p) {
      assert t[p..p + 5][0] == t[p];
    }
    forall from: nat | from == 0 || from == 1 || from == 10 ensures SimdSpec(t, kw, from) == 13 {
      FirstOccurrenceIsLeftmost(t, kw, from, 13);
      FirstOccurrenceFound(t, kw, from);
    }
    FirstOccurrenceFound(t, kw, 14);
  }
}
