/** The C benchmark driver: `search_one`, `search_thread` and the two ways
    `main` sums the per-text counts.

    `search_one` runs the resume-one-byte-on scan with the chosen search
    function over the file's contents as a C string (up to the first NUL
    byte, which `load_all_texts` also puts after the last byte), drops hits with an ASCII letter just before or just after
    them, optionally prints an excerpt around each remaining hit, and
    returns how many remained.  A printed line is modelled by its excerpt;
    the `"filename: "` prefix and the newline are not modelled.
 */
module CSearch {
  import opened Utf8
  import opened Literal
  import opened SimdSearch
  import opened Concordance
  import opened Scan

  /** `match_context`: bytes of context printed on each side of a hit. */
  const MatchContext: nat := 20

  /** A printed excerpt: `match_len` bytes from `match_start`. */
  datatype Window = Window(start: nat, len: nat)

  /** The excerpt window `search_one` prints for a hit at `index` in a
      text of `n` bytes: it starts up to 20 bytes before the hit (at the
      start of the text if the hit is nearer), holds the hit, and runs for
      `40 + keyword_len` bytes or to the end of the text, whichever is
      shorter. */
  function PrintWindow(n: nat, index: nat, k: nat): (w: Window)
    requires index + k <= n
    ensures w.start + w.len <= n
    ensures w.start <= index && index + k <= w.start + w.len
    ensures index - w.start == Min(index, MatchContext)
    ensures w.start + w.len == Min(n, w.start + 2 * MatchContext + k)
  {
    var start := if index >= MatchContext then index - MatchContext else 0;
    var full := 2 * MatchContext + k;
    Window(start, if start + full <= n then full else n - start)
  }

  /** The bytes `fwrite` prints for a hit at `index`. */
  function Excerpt(text: seq<Byte>, index: nat, k: nat): seq<Byte>
    requires index + k <= |text|
  {
    var w := PrintWindow(|text|, index, k);
    text[w.start..w.start + w.len]
  }

  /** `printed` holds the excerpt of each kept hit `q`, in order. */
  predicate Prints(text: seq<Byte>, printed: seq<seq<Byte>>, q: seq<nat>, k: nat)
    requires InText(|text|, q, k)
  {
    |printed| == |q| && forall j :: 0 <= j < |q| ==> printed[j] == Excerpt(text, q[j], k)
  }

  /** No NUL byte in `s`. */
  predicate NulFree(s: seq<Byte>)
  {
    forall j :: 0 <= j < |s| ==> s[j] != 0
  }

  /** What `main` may pass as the keyword to a search function: a command
      line argument, which as a C string holds no NUL byte, and one that is
      not empty when the search function is `strstr`. */
  predicate KeywordArg(s: Searcher, keyword: seq<Byte>)
  {
    NulFree(keyword) && (s != Strstr || |keyword| > 0)
  }

  /** The bytes of a C string held in `buf`: everything before the first
      NUL byte, or all of `buf` when it holds none.  `strlen`, `strstr` and
      the two hand-written searches see only these bytes. */
  function CString(buf: seq<Byte>): (s: seq<Byte>)
    ensures |s| <= |buf|
  {
    if buf == [] || buf[0] == 0 then [] else [buf[0]] + CString(buf[1..])
  }

  /** The C string is the part of `buf` before its first NUL byte: a
      NUL-free prefix followed by a NUL or by the end of `buf`. */
  lemma {:induction false} CStringIsPrefix(buf: seq<Byte>)
    ensures CString(buf) == buf[..|CString(buf)|]
    ensures NulFree(CString(buf))
    ensures |CString(buf)| < |buf| ==> buf[|CString(buf)|] == 0
  {
    if buf != [] && buf[0] != 0 {
      CStringIsPrefix(buf[1..]);
    }
  }

  /** A buffer without NUL bytes is its own C string. */
  lemma CStringOfNulFree(buf: seq<Byte>)
    requires NulFree(buf)
    ensures CString(buf) == buf
  {
  }

  /** A start in the text leaves room for the keyword after it, so a
      keyword longer than the text has no start. */
  lemma StartsNeedRoom(n: nat, q: seq<nat>, k: nat)
    requires InText(n, q, k)
    ensures |q| > 0 ==> k <= n
  {
    if |q| > 0 {
      assert q[0] + k <= n;
    }
  }

  /** The hits of a scan that pass the word-boundary filter, which looks at
      the whole file (`text.length` bytes), past any NUL byte. */
  ghost function Kept(s: Searcher, text: seq<Byte>, keyword: seq<Byte>): (q: seq<nat>)
    requires KeywordArg(s, keyword)
    ensures InText(|text|, q, |keyword|) && |q| <= |ScanHits(s, CString(text), keyword)|
  {
    BoundedStarts(text, ScanHits(s, CString(text), keyword), |keyword|)
  }

  /** The count `search_one` returns for one text. */
  ghost function TextCount(s: Searcher, text: seq<Byte>, keyword: seq<Byte>): nat
    requires KeywordArg(s, keyword)
  {
    |Kept(s, text, keyword)|
  }

  /** For a file and a keyword without NUL bytes, the scan covers the
      whole file. */
  lemma NulFreeKept(s: Searcher, text: seq<Byte>, keyword: seq<Byte>)
    requires NulFree(text) && KeywordArg(s, keyword)
    ensures ScanHits(s, CString(text), keyword) == ScanHits(s, text, keyword)
    ensures Kept(s, text, keyword) == BoundedStarts(text, ScanHits(s, text, keyword), |keyword|)
  {
    CStringOfNulFree(text);
  }

  /** A NUL byte hides the rest of the file from every search: in the
      file `a\0cat` the keyword `cat` occurs, with no letter next to it,
      yet `search_one` counts nothing. */
  lemma NulHidesRest(s: Searcher)
    ensures OccursAt([0x61, 0, 0x63, 0x61, 0x74], [0x63, 0x61, 0x74], 2)
    ensures WordBounded([0x61, 0, 0x63, 0x61, 0x74], 2, 5)
    ensures TextCount(s, [0x61, 0, 0x63, 0x61, 0x74], [0x63, 0x61, 0x74]) == 0
  {
    var text: seq<Byte> := [0x61, 0, 0x63, 0x61, 0x74];
    var kw: seq<Byte> := [0x63, 0x61, 0x74];
    assert text[2..5] == kw;
    assert CString(text[1..]) == [];
    assert CString(text) == [0x61];
    StartsNeedRoom(1, ScanHits(s, [0x61], kw), 3);
  }

  /** The body of `search_one`'s loop after the search call, for the `i`-th
      hit: skip it when a letter precedes or follows it, otherwise print its
      excerpt (when printing) and count it. */
  method TallyHit(text: seq<Byte>, ghost hits: seq<nat>, k: nat, ghost i: nat, index: nat, printMatches: bool,
                  count: int, printed: seq<seq<Byte>>) returns (count': int, printed': seq<seq<Byte>>)
    requires InText(|text|, hits, k) && i < |hits| && index == hits[i]
    requires count == |KeptUpTo(text, hits, k, i)|
    requires printMatches ==> Prints(text, printed, KeptUpTo(text, hits, k, i), k)
    requires !printMatches ==> |printed| == 0
    ensures count' == |KeptUpTo(text, hits, k, i + 1)|
    ensures printMatches ==> Prints(text, printed', KeptUpTo(text, hits, k, i + 1), k)
    ensures !printMatches ==> |printed'| == 0
  {
    KeptUpToStep(text, hits, k, i);
    count', printed' := count, printed;
    if index > 0 && IsLetter(text[index - 1]) {
      return;
    }
    if index + k < |text| && IsLetter(text[index + k]) {
      return;
    }
    if printMatches {
      printed' := printed + [Excerpt(text, index, k)];
      assert forall j :: 0 <= j < |printed| ==> printed'[j] == printed[j];
    }
    count' := count + 1;
  }

  /** `search_one`: the number of word-bounded hits of the scan of the
      file's C string, which is never more than the number of hits; when
      printing, the excerpt of each of them, in order.  The letter test and
      the excerpt use the whole file. */
  method SearchOne(s: Searcher, text: seq<Byte>, keyword: seq<Byte>, printMatches: bool) returns (count: int, printed: seq<seq<Byte>>)
    requires KeywordArg(s, keyword)
    ensures count == TextCount(s, text, keyword) <= |ScanHits(s, CString(text), keyword)|
    ensures printMatches ==> Prints(text, printed, Kept(s, text, keyword), |keyword|)
    ensures !printMatches ==> |printed| == 0
  {
    var str := CString(text);
    ghost var hits := ScanHits(s, str, keyword);
    ghost var i: nat := 0;
    var k := |keyword|;
    var offset := 0;
    count, printed := 0, [];
    while true
      invariant i <= |hits| && offset == ScanResume(s, str, keyword, i)
      invariant count == |KeptUpTo(text, hits, k, i)|
      invariant printMatches ==> Prints(text, printed, KeptUpTo(text, hits, k, i), k)
      invariant !printMatches ==> |printed| == 0
      decreases |str| - offset
    {
      var index := NextHit(s, str, keyword, offset, i);
      if index == -1 {
        break;
      }
      offset := index + 1;
      count, printed := TallyHit(text, hits, k, i, index, printMatches, count, printed);
      i := i + 1;
    }
    KeptUpToAll(text, hits, k);
  }

  /** The counts of the texts `corpus[lo..hi]`, summed. */
  ghost function RangeCount(s: Searcher, corpus: seq<seq<Byte>>, kw: seq<Byte>, lo: nat, hi: nat): nat
    requires KeywordArg(s, kw)
    requires lo <= hi <= |corpus|
    decreases hi - lo
  {
    if lo == hi then 0 else RangeCount(s, corpus, kw, lo, hi - 1) + TextCount(s, corpus[hi - 1], kw)
  }

  /** `search_thread`: the sum of the counts of the texts in
      `[start, end)`, searched without printing. */
  method SearchThread(s: Searcher, corpus: seq<seq<Byte>>, kw: seq<Byte>, start: nat, end: nat) returns (count: int)
    requires KeywordArg(s, kw)
    requires start <= end <= |corpus|
    ensures count == RangeCount(s, corpus, kw, start, end)
  {
    count := 0;
    for i := start to end
      invariant count == RangeCount(s, corpus, kw, start, i)
    {
      var c, _ := SearchOne(s, corpus[i], kw, false);
      count := count + c;
    }
  }

  /** Summing over two adjacent ranges is summing over their union. */
  lemma {:induction false} RangeCountSplit(s: Searcher, corpus: seq<seq<Byte>>, kw: seq<Byte>, lo: nat, mid: nat, hi: nat)
    requires KeywordArg(s, kw)
    requires lo <= mid <= hi <= |corpus|
    ensures RangeCount(s, corpus, kw, lo, hi) == RangeCount(s, corpus, kw, lo, mid) + RangeCount(s, corpus, kw, mid, hi)
    decreases hi - mid
  {
    if mid < hi {
      RangeCountSplit(s, corpus, kw, lo, mid, hi - 1);
    }
  }

  /** The counting part of `main`: either two threads over `[0, n/2)` and
      `[n/2, n)`, which never print, or one loop over every text, which
      prints when asked.  Either way the total is the sum of the per-text
      counts.  `printed[i]` holds the excerpts printed for text `i`. */
  method CountCorpus(s: Searcher, corpus: seq<seq<Byte>>, kw: seq<Byte>, parallel: bool, printMatches: bool)
    returns (count: int, printed: seq<seq<seq<Byte>>>)
    requires KeywordArg(s, kw)
    ensures count == RangeCount(s, corpus, kw, 0, |corpus|)
    ensures |printed| == |corpus|
    ensures forall i :: 0 <= i < |corpus| ==>
              if !parallel && printMatches then Prints(corpus[i], printed[i], Kept(s, corpus[i], kw), |kw|)
              else |printed[i]| == 0
  {
    if parallel {
      var midpoint := |corpus| / 2;
      var count1 := SearchThread(s, corpus, kw, 0, midpoint);
      var count2 := SearchThread(s, corpus, kw, midpoint, |corpus|);
      count := count1 + count2;
      RangeCountSplit(s, corpus, kw, 0, midpoint, |corpus|);
      printed := seq(|corpus|, _ => []);
    } else {
      count, printed := 0, [];
      for i := 0 to |corpus|
        invariant count == RangeCount(s, corpus, kw, 0, i)
        invariant |printed| == i
        invariant forall j :: 0 <= j < i ==>
                    if printMatches then Prints(corpus[j], printed[j], Kept(s, corpus[j], kw), |kw|)
                    else |printed[j]| == 0
      {
        var c, p := SearchOne(s, corpus[i], kw, printMatches);
        count := count + c;
        printed := printed + [p];
      }
    }
  }

  /** The naive search keeps, counts and prints what `strstr` does, and
      so does the masked search when no occurrence in the file's C string
      starts in its last 31 bytes. */
  lemma KeptAgree(text: seq<Byte>, keyword: seq<Byte>)
    requires NulFree(keyword) && |keyword| > 0
    ensures Kept(Naive, text, keyword) == Kept(Strstr, text, keyword)
    ensures |keyword| <= Width
            && (forall p :: OccursAt(CString(text), keyword, p) ==> p + Width <= |CString(text)|) ==>
              Kept(Masked, text, keyword) == Kept(Strstr, text, keyword)
  {
    var str := CString(text);
    NaiveScanIsStrstrScan(str, keyword);
    if |keyword| <= Width && (forall p :: OccursAt(str, keyword, p) ==> p + Width <= |str|) {
      MaskedScanIsStrstrScan(str, keyword);
    }
  }
}
