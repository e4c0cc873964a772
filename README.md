# fast-concordance, modelled in Dafny

fast-concordance searches a corpus of books for a keyword. For every
occurrence with no ASCII letter touching it on either side, it returns the
occurrence with about 40 bytes of context on each side. The context is widened
so that no UTF-8 character is cut in half. This project models the parts of
the program that compute:

- **UTF-8 slicers** (`utf8.dfy`). These are `SliceLeftUtf8` / `SliceRightUtf8`
  and the byte classifiers. Three identical copies exist: in
  `internal/concordance/concordance.go`, `pkg/lib.go` and `main.go`. They are
  modelled as methods with loops. Each is proved against the functions
  `LeftCut` / `RightCut`, which say where a cut lands.
- **Literal matching** (`literal.dfy`). These are specifications of the two
  foreign searches the program relies on:
  - C's `strstr`;
  - Go's `FindAllStringSubmatchIndex` on a `regexp.QuoteMeta` pattern
    (leftmost, non-overlapping).
- **Concordance building** (`concordance.dfy`). This covers the ASCII
  word-boundary filter and the context window. It also covers the link
  between a finder's loop and the matches it must emit: one match per kept
  candidate, in order.
- **Generic finder** (`finder_generic.dfy`). This is `NewFinder` and `Find`
  of the regular-expression finder. Compiling the quoted keyword fails
  exactly when the keyword is not well-formed UTF-8 (`Utf8.ValidUtf8`). The
  same loop appears as `findConcordance` in `pkg/lib.go` and `main.go`.
- **SIMD finder** (`finder_simd.dfy`). This is `NewFinder` and `Find` of the
  SIMD finder, which resumes one byte after each hit.
- **Masked SIMD search** (`simdsearch.dfy`). This is the 32-byte masked
  search `simd_str_search`, in its Go wrapper and in `search.c`. The AVX2
  instructions are modelled by their lane-wise meaning.
- **Scan loop** (`scan.dfy`). This is the "resume one byte on" scan loop
  shared by `search_one` and the SIMD finder. It is generic over the three
  search functions of `search.c`.
- **C benchmark driver** (`csearch.dfy`). The search functions see the
  file's contents as a C string, up to the first NUL byte. This covers:
  - `search_one`, with its printed excerpt window;
  - `search_thread`;
  - `main`'s two counting modes.
- **Dispatch** (`dispatch.dfy`). This is how `StreamSearch` clamps its
  worker count and cuts the pages into contiguous ranges.
- **Rate limiter** (`ratelimiter.dfy`). This is the per-IP sliding-window rate
  limiter with a penalty box. Its classes update their records in place, as
  the Go code does. The behaviour is specified by the pure function `Admit`,
  and the package tests are replayed as lemmas.
- **Link header parser** (`linkheader.dfy`). This is the scraper's
  `parse_link_header`, including the case where it raises.
- **Keyword check** (`handler.dfy`). This is the keyword-length check at the
  top of the HTTP handler.

Bytes are the newtype `Utf8.Byte` (0..255). Go strings and C buffers are
`seq<Byte>`, and Python strings are `string`. Instants and durations are
integer nanoseconds.

### Notes on the code's behaviour

- **Building a generic finder can fail, and the callers disagree on what
  follows.** `regexp.QuoteMeta` escapes only ASCII metacharacters, so
  `regexp.Compile` fails exactly on a keyword that is not well-formed UTF-8.
  - `NewFinder` (`internal/concordance/finder_generic.go:9-18`) returns one
    value and panics on that error.
  - Its caller at `internal/concordance/concordance.go:107` expects
    `(Finder, error)`.
  - `StreamSearch` (`pkg/lib.go:130-133`) and `streamSearch`
    (`main.go:174-177`) return the error, and the handler answers 500
    (`main.go:234-238`).

  The handler's length check lets such a keyword through:
  `?w=%FF%FF%FF%FF` is 4 bytes (`FinderGeneric.InvalidKeywordPassesLengthCheck`).
  The model's `NewFinder` returns a finder or `CompileError`. The SIMD
  finder's `NewFinder` (`finder_simd.go:12-14`) cannot fail.
- **The SIMD finder reports overlapping occurrences.** It resumes at
  `start + 1` (`finder_simd.go:26`), while the regular-expression finder
  resumes at the end of each match. `FinderSimd.OverlapsSplitFinders`
  proves that the two finders differ on overlapping occurrences.
  `FinderSimd.GenericMatchIsSimdMatch` proves that every generic match is a
  SIMD match, provided the keyword fits a vector and no occurrence starts in
  the last 31 bytes.
- **An instant exactly `interval` old is dropped.** `removeStaleRequests`
  (`ratelimiter.go:64-80`) keeps only the instants strictly after
  `now - interval` (`RateLimiter.Trimmed`, `RateLimiter.TrimmedIsRecentSuffix`).
- **The C searches stop at the first NUL byte.** `read_all` ends each
  buffer with a NUL (`search.c:42-56`), while `text.length` is the file's
  size (`search.c:92-97`). The searches stop at the first NUL:
  - `strstr` (`search.c:169`);
  - the terminator tests of `stupid_str_search` (`search.c:178-180`);
  - `strlen` in `simd_str_search` (`search.c:192-193`).

  The letter test and the excerpt use `text.length` (`search.c:135, 143`). A
  file with a NUL byte before an occurrence never counts that occurrence
  (`CSearch.NulHidesRest`).
- **The rate-limiter tests.** `pkg/ratelimiter_test.go` calls a
  `NewRateLimiter` in `pkg`. The example lemmas replay its requests on the
  limiter of `internal/ratelimiter/ratelimiter.go`, because the copy in
  `pkg` is not part of this model.

## Model

| member | source | states |
|---|---|---|
| `Utf8.IsLetter` | internal/concordance/concordance.go:20-22 | `isLetter`, the two ASCII letter ranges; stated by `LetterIsAscii` |
| `Utf8.IsContinuationByte` | internal/concordance/concordance.go:24-26 | `isContinuationByte`; stated by `ContinuationIsBitTest` |
| `Utf8.IsSingleByteChar` | internal/concordance/concordance.go:28-30 | `isSingleByteChar`; stated by `SingleByteIsBitTest` |
| `Utf8.LetterIsAscii` | internal/concordance/concordance.go:20-22 | `isLetter` holds only for the 52 ASCII letters, and every letter is a whole one-byte character (same as pkg/lib.go:19-21, main.go:28-30) |
| `Utf8.ContinuationIsBitTest` | internal/concordance/concordance.go:24-26 | the range test 0x80..0xBF is exactly the source's bit test `b&0xC0 == 0x80` |
| `Utf8.SingleByteIsBitTest` | internal/concordance/concordance.go:28-30 | the test `b < 0x80` is exactly the source's bit test `b&0x80 == 0` |
| `Utf8.BitsRoundTrip` | internal/concordance/concordance.go:24-30 | reading a byte as an 8-bit vector loses nothing, so the bit tests talk about the same byte |
| `Utf8.BoundaryFromStart` | internal/concordance/concordance.go:32-37 | in a text that does not begin mid-character, the left slicer's walk always stops inside the text |
| `Utf8.LeftCut` | internal/concordance/concordance.go:33-35 | the left cut lies at or before `end` on a byte that is not a continuation byte |
| `Utf8.LeftCutIsGreatest` | internal/concordance/concordance.go:33-35 | every byte between the left cut and `end` is a continuation byte, so the cut is the nearest boundary |
| `Utf8.NextBoundary` | internal/concordance/concordance.go:43-45 | the forward walk stops at the end of the text or on a non-continuation byte, never before `p` |
| `Utf8.NextBoundaryIsFirst` | internal/concordance/concordance.go:43-45 | every byte the forward walk passes over is a continuation byte |
| `Utf8.RightCut` | internal/concordance/concordance.go:39-48 | the right cut stays at `end` exactly when `end` is the text's end or an ASCII byte, and otherwise moves to the next boundary |
| `Utf8.RightCutIsFirst` | internal/concordance/concordance.go:42-46 | when the right cut moves, it passes over continuation bytes only |
| `Utf8.SliceLeftWidens` | internal/concordance/concordance.go:32-37 | the left slice is the piece of text ending at `index`, contains `text[end..index]`, and starts on a character boundary |
| `Utf8.SliceRightWidens` | internal/concordance/concordance.go:39-48 | the right slice is the piece of text starting at `index`, contains `text[index..end]`, and ends on a character boundary |
| `Utf8.SliceLeftUtf8` | internal/concordance/concordance.go:32-37 | the loop returns `text[LeftCut(end)..index]` (identical copies at pkg/lib.go:31-36 and main.go:40-45) |
| `Utf8.SliceRightUtf8` | internal/concordance/concordance.go:39-48 | the loop returns `text[index..RightCut(end)]` (identical copies at pkg/lib.go:38-48 and main.go:47-57) |
| `Utf8.SequenceLength` | internal/concordance/finder_generic.go:13 | the length of the well-formed UTF-8 sequence at `i`, under the table of section 4 of RFC 3629, or 0: at most 4 bytes and inside the text, never a sequence that starts on a continuation byte, and 1 exactly for an ASCII byte |
| `Utf8.ValidUtf8` | internal/concordance/finder_generic.go:13-16 | the text splits into well-formed sequences, which is what `regexp.Compile` demands of a pattern; stated by `ValidStartsOnBoundary`, `AsciiIsValid` and `ValidUtf8Examples` |
| `Utf8.ValidStartsOnBoundary` | internal/concordance/finder_generic.go:13-16 | well-formed UTF-8 does not begin mid-character |
| `Utf8.AsciiValidFrom` | internal/concordance/finder_generic.go:13-16 | a run of ASCII bytes to the end of the text is well-formed from any of its positions |
| `Utf8.AsciiIsValid` | internal/concordance/finder_generic.go:13-16 | an ASCII text is well-formed UTF-8 |
| `Utf8.ValidUtf8Examples` | internal/concordance/finder_generic.go:13-16 | `FF FF FF FF`, the surrogate `ED A0 80` and the overlong `C0 AF` are ill-formed; the en dash `E2 80 93` is well-formed |
| `Utf8.DashSlices` | internal/concordance/concordance_test.go:5-31 | the test vectors: cuts at each byte of an en dash in "a–b–c" widen to the whole dash on both sides |
| `Literal.FirstOccurrence` | search.c:168-175 | `strstr` from `offset` returns -1 or a position at or after the offset where the keyword fits, both arguments being the bytes of C strings before their NUL |
| `Literal.FirstOccurrenceFound` | search.c:168-175 | a position `strstr` returns holds the keyword |
| `Literal.FirstOccurrenceIsLeftmost` | search.c:168-175 | any occurrence at or after the offset makes `strstr` succeed, at that occurrence or an earlier one |
| `Literal.LiteralMatches` | internal/concordance/finder_generic.go:13-22 | the literal pattern's matches lie in the text, at or after the search start, each one keyword length past the previous |
| `Literal.LiteralMatchesOccur` | internal/concordance/finder_generic.go:22 | every match the literal pattern reports is an occurrence of the keyword |
| `Literal.LiteralMatchesMaximal` | internal/concordance/finder_generic.go:22 | every occurrence is reported or overlaps a reported match: only overlapping occurrences are skipped |
| `Literal.SpacedApart` | internal/concordance/finder_generic.go:22 | matches spaced at least one keyword apart pairwise never overlap |
| `Literal.LiteralMatchesOrdered` | internal/concordance/finder_generic.go:22 | the pattern's matches come in increasing order and no two overlap |
| `Concordance.WordBounded` | internal/concordance/finder_generic.go:31-37 | no ASCII letter just before or just after the occurrence; stated by `WordBoundaryExamples`, `BoundedStartsKeeps` and `ReportSound` |
| `Concordance.LeftContext` | internal/concordance/finder_generic.go:27-41 | the left context of an occurrence; stated by `LeftContextWindow` |
| `Concordance.RightContext` | internal/concordance/finder_generic.go:28-42 | the right context of an occurrence; stated by `RightContextWindow` |
| `Concordance.LeftContextWindow` | internal/concordance/finder_generic.go:27-41 | the left context is the text just before the occurrence, at least 40 bytes of it (or all of it), starting on a character boundary |
| `Concordance.RightContextWindow` | internal/concordance/finder_generic.go:28-42 | the right context is the text just after the occurrence, at least 40 bytes (or all that is left), ending on a character boundary |
| `Concordance.ContextMatch` | internal/concordance/finder_generic.go:39-43 | a match carries the page's file name |
| `Concordance.BuildMatch` | internal/concordance/finder_generic.go:39-43 | clamping to `[max(0,start-40), min(end+40,len)]` and slicing builds the occurrence's context match |
| `Concordance.EmitIfBounded` | internal/concordance/finder_generic.go:31-44 | an occurrence touched by an ASCII letter on either side is skipped; otherwise its context match is appended |
| `Concordance.InTextPrefix` | internal/concordance/finder_generic.go:22-24 | a prefix of in-text candidate offsets is in the text |
| `Concordance.BoundedStarts` | internal/concordance/finder_generic.go:31-37 | the filter keeps no more candidates than it is given, all in the text and all word-bounded |
| `Concordance.BoundedStartsFrom` | internal/concordance/finder_generic.go:31-37 | each kept candidate is one of the input candidates |
| `Concordance.BoundedStartsKeeps` | internal/concordance/finder_generic.go:31-37 | every word-bounded candidate is kept |
| `Concordance.BoundedStartsIncreasing` | internal/concordance/finder_generic.go:24-37 | the filter keeps the candidates' increasing order |
| `Concordance.KeptUpTo` | internal/concordance/finder_generic.go:24-37 | the candidates kept so far lie in the text |
| `Concordance.KeptUpToAll` | internal/concordance/finder_generic.go:24-37 | after the last candidate, the kept candidates are the filter's whole result |
| `Concordance.KeptUpToStep` | internal/concordance/finder_generic.go:24-37 | one more candidate grows the kept list by that candidate exactly when it is word-bounded |
| `Concordance.ReportsSnoc` | internal/concordance/finder_generic.go:39-44 | appending a candidate's context match extends the report by that candidate |
| `Concordance.ReportsSkip` | internal/concordance/finder_generic.go:31-37 | a candidate that fails the filter adds nothing |
| `Concordance.ReportsKeep` | internal/concordance/finder_generic.go:39-44 | a candidate that passes the filter adds its context match |
| `Concordance.ReportsStep` | internal/concordance/finder_generic.go:31-44 | one turn of a finder loop keeps the emitted matches in step with the kept candidates |
| `Concordance.EmitCandidate` | internal/concordance/finder_generic.go:31-44 | the loop body turns a report of the first `i` candidates into a report of the first `i+1` |
| `Concordance.ReportsUnique` | internal/concordance/finder_generic.go:24-44 | the kept candidates determine the emitted matches completely |
| `Concordance.ReportsAgree` | internal/concordance/finder_generic.go:39-44 | two finders that keep the same occurrence emit the same match for it |
| `Concordance.ReportSound` | internal/concordance/finder_generic.go:24-44 | every emitted match is the context match of a word-bounded candidate |
| `Concordance.ReportComplete` | internal/concordance/finder_generic.go:24-44 | every word-bounded candidate's context match is emitted |
| `Concordance.WordBoundaryExamples` | internal/concordance/finder_generic.go:31-37 | "cat" is rejected inside "category" and "bobcat" and accepted in "the cat sat" |
| `FinderGeneric.NewFinder` | internal/concordance/finder_generic.go:9-18 | a finder is built exactly when the keyword is well-formed UTF-8, and otherwise compiling fails; a built finder matches exactly the keyword's bytes |
| `FinderGeneric.AsciiKeywordBuilds` | internal/concordance/finder_generic.go:13-17 | an ASCII keyword always gives a finder for that keyword |
| `FinderGeneric.InvalidKeywordPassesLengthCheck` | main.go:218-238 | the 4-byte keyword `FF FF FF FF` passes the handler's length check and then fails to compile |
| `FinderGeneric.Find` | internal/concordance/finder_generic.go:20-55 | for a finder that was built, emits exactly the context matches of the word-bounded literal matches, in order (same loop as pkg/lib.go:50-85 and main.go:60-99) |
| `FinderGeneric.GenericMatchesInOrder` | internal/concordance/finder_generic.go:22-44 | no more matches than pattern hits; their occurrences are increasing and each is the keyword |
| `FinderGeneric.KeptOccurs` | internal/concordance/finder_generic.go:22-37 | every kept match of the literal pattern is an occurrence of the keyword |
| `FinderSimd.NewFinder` | internal/concordance/finder_simd.go:12-14 | the finder keeps the keyword and its byte length |
| `FinderSimd.Find` | internal/concordance/finder_simd.go:16-56 | emits exactly the context matches of the word-bounded hits of the resume-one-byte-on masked scan, in order |
| `FinderSimd.ShortPageNoMatches` | internal/simdsearch/simdsearch.go:26-28 | a page shorter than 32 bytes gives no SIMD match, even when it contains the keyword |
| `FinderSimd.GenericKeptIsSimdKept` | internal/concordance/finder_simd.go:22-38 | when the keyword fits a vector and no occurrence starts in the last 31 bytes, every occurrence the generic finder keeps is kept by the SIMD finder |
| `FinderSimd.GenericMatchIsSimdMatch` | internal/concordance/finder_simd.go:22-45 | under the same conditions, every generic match is also a SIMD match |
| `FinderSimd.OverlapsSplitFinders` | internal/concordance/finder_simd.go:26 | two overlapping occurrences are both SIMD hits, in order, and never both generic matches |
| `SimdSearch.SimdSpec` | internal/simdsearch/simdsearch.go:23-56 | -1 for a text under 32 bytes or a keyword over 32; otherwise a result in `[offset, len-32]` |
| `SimdSearch.SimdSpecFound` | internal/simdsearch/simdsearch.go:42-53 | a returned position holds the keyword |
| `SimdSearch.SimdSpecIsLeftmost` | internal/simdsearch/simdsearch.go:42-53 | any occurrence with a whole vector after its start is found, at that occurrence or an earlier one |
| `SimdSearch.Padded` | internal/simdsearch/simdsearch.go:29-35 | the padded keyword vector is 32 bytes |
| `SimdSearch.Mask` | internal/simdsearch/simdsearch.go:29-35 | the mask vector is 32 bytes |
| `SimdSearch.MaskedLane` | internal/simdsearch/simdsearch.go:47-50 | one lane of `(text ^ keyword) & mask` is zero iff its mask is 0 or the bytes are equal |
| `SimdSearch.LaneBits` | internal/simdsearch/simdsearch.go:47-50 | the same fact on 8-bit vectors |
| `SimdSearch.MaskedCompareIsOccurrence` | internal/simdsearch/simdsearch.go:45-51 | the masked vector test holds iff the keyword occurs at that window |
| `SimdSearch.LanesImplyOccurrence` | internal/simdsearch/simdsearch.go:45-51 | a zero masked difference means the keyword occurs there |
| `SimdSearch.OccurrenceImpliesLanes` | internal/simdsearch/simdsearch.go:45-51 | an occurrence makes the masked difference zero |
| `SimdSearch.Search` | search.c:191-224 | the padding loop and the window loop return the leftmost occurrence in the full windows from `offset`, or -1; in `search.c` the text and keyword are the C strings `strlen` measures, in the Go wrapper (simdsearch.go:23-61) whole Go strings |
| `SimdSearch.OffsetPastLastWindow` | internal/simdsearch/simdsearch.go:42 | an offset past `len-32` finds nothing |
| `SimdSearch.AbsentKeywordNotFound` | internal/simdsearch/simdsearch_test.go:24-25 | a keyword that occurs nowhere is never found |
| `SimdSearch.SearchTestVectors` | internal/simdsearch/simdsearch_test.go:8-23 | "lasdh" is found at 13 from offsets 0, 1 and 10 and not found from 14 |
| `Scan.NaiveResult` | search.c:177-189 | the naive search returns -1 or a position at or after the offset, before the first NUL byte, where the keyword fits |
| `Scan.SearchResult` | search.c:275 | whichever search is plugged in returns -1 or a position where the keyword fits; the masked one only with a whole vector left |
| `Scan.StupidSearch` | search.c:177-189 | the double loop, stopping at the text's NUL, returns the first occurrence at or after the offset in the C string |
| `Scan.SearchWith` | search.c:275 | calling the chosen `search_f` on C strings gives that search's result |
| `Scan.SearchFound` | search.c:168-224 | every search function returns occurrences only |
| `Scan.SearchLeftmost` | search.c:168-224 | every search function finds the leftmost occurrence it can see |
| `Scan.SearchFn` | search.c:120-129 | the bound search function stays within the text |
| `Scan.Hits` | search.c:124-130 | the hits of the scan from `offset`: in the text, each at or after the offset |
| `Scan.HitsNext` | search.c:124-130 | searching from where the scan resumes gives its next hit |
| `Scan.HitsEnd` | search.c:124-128 | after the last hit the search returns -1 |
| `Scan.HitsResume` | search.c:124-130 | each search of the scan gives the next hit, or -1 once all are seen |
| `Scan.HitsIncreasing` | search.c:129 | resuming one byte past each hit makes the hits strictly increase |
| `Scan.HitsReach` | search.c:124-130 | a position every earlier search is forced to reach is a hit |
| `Scan.HitsAgree` | search.c:275 | two search functions that agree at every offset give the same scan |
| `Scan.ScanHits` | search.c:124-130 | a scan's hits lie in the text |
| `Scan.NextHit` | search.c:125-129 | one search call returns the next hit, or -1 exactly when all hits are seen, and the scan resumes one byte after it |
| `Scan.HitsOccur` | search.c:124-130 | every hit is an occurrence of the keyword |
| `Scan.HitsComplete` | search.c:124-130 | every occurrence the search can see is a hit, overlapping ones included |
| `Scan.ScanIncreasing` | search.c:129 | a scan's hits are strictly increasing |
| `Scan.ShortTextNoHits` | search.c:194-196 | a text under 32 bytes or a keyword over 32 gives the masked scan no hits |
| `Scan.NaiveScanIsStrstrScan` | search.c:177-189 | for a non-empty keyword the naive scan visits exactly the `strstr` scan's hits |
| `Scan.MaskedScanIsStrstrScan` | search.c:191-224 | when no occurrence starts in the last 31 bytes, the masked scan visits exactly the `strstr` scan's hits |
| `CSearch.PrintWindow` | search.c:139-146 | the excerpt starts up to 20 bytes before the hit, contains it, and runs `40 + keyword_len` bytes or to the end of the text |
| `CSearch.Excerpt` | search.c:139-146 | the bytes `fwrite` prints, the text in the window `PrintWindow` states |
| `CSearch.CString` | search.c:42-56 | a C string is never longer than its buffer; stated by `CStringIsPrefix` and `CStringOfNulFree` |
| `CSearch.CStringIsPrefix` | search.c:42-56 | the C string is the NUL-free prefix of the buffer that ends at its first NUL byte or at its end |
| `CSearch.CStringOfNulFree` | search.c:42-56 | a buffer without NUL bytes is its own C string |
| `CSearch.StartsNeedRoom` | search.c:124-130 | an in-text hit leaves room for the keyword, so a keyword longer than the text has no hit |
| `CSearch.Kept` | search.c:131-137 | no more hits are kept than the scan of the file's C string finds; all of them lie in the whole file |
| `CSearch.TextCount` | search.c:120-152 | the count of one file: the number of kept hits, stated by `SearchOne` |
| `CSearch.NulFreeKept` | search.c:120-152 | for a file without NUL bytes the scan covers the whole file |
| `CSearch.NulHidesRest` | search.c:120-152 | in the file `a\0cat`, `cat` occurs with no letter next to it, yet `search_one` counts 0 |
| `CSearch.TallyHit` | search.c:131-149 | a hit is counted and its excerpt printed exactly when no letter touches it |
| `CSearch.SearchOne` | search.c:120-152 | the count is the number of word-bounded hits of the scan of the file's C string, with the letter test over the whole file (never more than the hits); when printing, one excerpt per counted hit, in order |
| `CSearch.SearchThread` | search.c:154-166 | the thread's count is the sum of its texts' counts |
| `CSearch.RangeCountSplit` | search.c:281-283 | counting two adjacent halves is counting their union |
| `CSearch.CountCorpus` | search.c:279-301 | the two-thread and the sequential total are both the sum of all per-text counts; only the sequential mode prints |
| `CSearch.KeptAgree` | search.c:275 | the naive search counts what `strstr` counts, and so does the masked search when no occurrence starts in the last 31 bytes of the C string |
| `Dispatch.WorkerCount` | pkg/lib.go:145-148 | the worker count is never 0, never above the pages or the limit when both are positive, and a negative limit passes through (same clamp as internal/concordance/concordance.go:123-126) |
| `Dispatch.ShareBound` | pkg/lib.go:150-163 | `i * (n / w) <= w * (n / w) <= n`, so no range starts past the pages |
| `Dispatch.MulLeft` | pkg/lib.go:150-163 | fewer workers' shares cover no more pages |
| `Dispatch.WorkerRange` | pkg/lib.go:157-163 | each worker's range is a valid slice of the pages |
| `Dispatch.Partition` | pkg/lib.go:150-168 | there is one range per worker |
| `Dispatch.PartitionSizes` | pkg/lib.go:150-163 | every worker but the last gets `n / w` pages; the last also gets the `n % w` left over |
| `Dispatch.PartitionTiles` | pkg/lib.go:152-168 | the workers' ranges cut the pages into consecutive ranges from 0 to `n` |
| `Dispatch.TilesOrdered` | pkg/lib.go:152-168 | an earlier range ends no later than a later one starts |
| `Dispatch.TilesCover` | pkg/lib.go:152-168 | every page lies in some worker's range |
| `Dispatch.TilesDisjoint` | pkg/lib.go:152-168 | no page lies in two workers' ranges |
| `Dispatch.TilesWithin` | pkg/lib.go:152-168 | every range lies inside the pages |
| `Dispatch.TilesGather` | pkg/lib.go:152-168 | the ranges together select exactly the pages, each once, in order |
| `Dispatch.Schedule` | pkg/lib.go:136-169 | one single-page range per page with -1, one range per worker for a limit of 0 or more, none for a limit below -1 |
| `Dispatch.ScheduleCoversPages` | pkg/lib.go:136-168 | for a limit of -1 or more, every page is searched exactly once |
| `Dispatch.NegativeLimitSearchesNothing` | pkg/lib.go:145-152 | a limit below -1 searches no page at all |
| `Handler.CheckKeyword` | main.go:218-226 | a keyword is searched exactly when its byte length is in `[4, 30]`; shorter and longer give the two distinct errors |
| `Handler.AcceptedKeywordFits` | main.go:24-25 | an accepted keyword is non-empty and fits one 32-byte vector |
| `RateLimiter.FirstAfter` | internal/ratelimiter/ratelimiter.go:67-73 | the first index whose instant is after `now - interval`; everything before it is stale |
| `RateLimiter.Trimmed` | internal/ratelimiter/ratelimiter.go:64-80 | the window with its stale prefix cut; stated by `TrimmedIsRecentSuffix`, `TrimmedAllStale` and `TrimmedIsAfter` |
| `RateLimiter.TrimmedIsRecentSuffix` | internal/ratelimiter/ratelimiter.go:64-80 | trimming keeps a suffix of the window starting after `now - interval` and drops only stale instants |
| `RateLimiter.TrimmedAllStale` | internal/ratelimiter/ratelimiter.go:75-77 | a window of stale instants only is emptied |
| `RateLimiter.After` | internal/ratelimiter/ratelimiter.go:64-80 | the recent instants, all after `now - interval` |
| `RateLimiter.AfterKeepsAll` | internal/ratelimiter/ratelimiter.go:64-80 | a window of recent instants only is kept whole |
| `RateLimiter.TrimmedIsAfter` | internal/ratelimiter/ratelimiter.go:64-80 | on a window in time order, cutting at the first recent instant keeps exactly the recent instants |
| `RateLimiter.Admit` | internal/ratelimiter/ratelimiter.go:28-44 | one request against an IP's record; stated by `AdmitOutcome`, `AdmitCountsRecentRequests` and `IpRateLimiter.IsOk` |
| `RateLimiter.AdmitOutcome` | internal/ratelimiter/ratelimiter.go:28-44 | allowed iff not timed out and fewer than `maxRequests` recent instants; a timed-out IP's record is untouched; otherwise `now` joins the window; a refusal times out until `now + penalty` |
| `RateLimiter.AdmitInPenaltyBox` | internal/ratelimiter/ratelimiter.go:30-32 | a request while timed out is refused and changes nothing |
| `RateLimiter.AdmitWithinLimit` | internal/ratelimiter/ratelimiter.go:34-39 | under the limit, the request is allowed and joins the window |
| `RateLimiter.AdmitOverLimit` | internal/ratelimiter/ratelimiter.go:34-38 | at the limit, the request is refused, still joins the window, and the IP is timed out |
| `RateLimiter.AdmitAfterQuiet` | internal/ratelimiter/ratelimiter.go:64-80 | after a quiet interval, a request starts a fresh window |
| `RateLimiter.AdmitCountsRecentRequests` | internal/ratelimiter/ratelimiter.go:28-44 | for requests in time order: allowed iff not timed out and fewer than `maxRequests` earlier requests in the last interval |
| `RateLimiter.AdmitKeepsWindowSorted` | internal/ratelimiter/ratelimiter.go:59-62 | for requests in time order, the window stays in time order |
| `RateLimiter.TrimmedSortedAppend` | internal/ratelimiter/ratelimiter.go:59-62 | trimming a sorted window and appending a later instant keeps it sorted |
| `RateLimiter.IpRateLimiterRecord.constructor` | internal/ratelimiter/ratelimiter.go:51-53 | a new record has an empty window and the zero time-out |
| `RateLimiter.IpRateLimiterRecord.RemoveStaleRequests` | internal/ratelimiter/ratelimiter.go:64-80 | the window becomes its trimmed form; the time-out is unchanged |
| `RateLimiter.IpRateLimiterRecord.AppendRequest` | internal/ratelimiter/ratelimiter.go:59-62 | the window becomes its trimmed form plus `now`; the time-out is unchanged |
| `RateLimiter.IpRateLimiterRecord.InPenaltyBox` | internal/ratelimiter/ratelimiter.go:86-88 | `inPenaltyBox`: the time-out lies strictly after `now`; its use is stated by `IpRateLimiter.IsOk` and `AdmitInPenaltyBox` |
| `RateLimiter.IpRateLimiterRecord.TimeOut` | internal/ratelimiter/ratelimiter.go:82-84 | the time-out becomes `until`; the window is unchanged |
| `RateLimiter.IpRateLimiter.constructor` | internal/ratelimiter/ratelimiter.go:19-26 | stores the three settings and starts with no records |
| `RateLimiter.IpRateLimiter.ExceedsLimits` | internal/ratelimiter/ratelimiter.go:42-44 | `exceedsLimits`: more instants in the window than `maxRequests`; its use is stated by `IpRateLimiter.IsOk`, `AdmitOverLimit` and `AdmitCountsRecentRequests` |
| `RateLimiter.IpRateLimiter.GetOrCreateRecord` | internal/ratelimiter/ratelimiter.go:46-57 | returns the IP's record, or a fresh empty one now stored for it; no other entry changes |
| `RateLimiter.IpRateLimiter.IsOk` | internal/ratelimiter/ratelimiter.go:28-40 | the answer and the IP's new record are those of `Admit` on its old record; the IP is remembered; every other IP's record is untouched |
| `RateLimiter.Replay` | pkg/ratelimiter_test.go:76-88 | one answer per request |
| `RateLimiter.ReplayStep` | pkg/ratelimiter_test.go:76-88 | replaying a request is `Admit`, then replaying the rest from the new record |
| `RateLimiter.WindowExample` | pkg/ratelimiter_test.go:8-41 | with 3 requests per 2 s, two requests at T and one at T+1 are allowed and the next three at T+1 refused; another IP is allowed at T+1 and T+2 |
| `RateLimiter.WindowRefusals` | pkg/ratelimiter_test.go:27-34 | after three requests, the next three at T+1 are refused |
| `RateLimiter.WindowOtherIp` | pkg/ratelimiter_test.go:36-40 | another IP is allowed at T+1 and T+2 |
| `RateLimiter.PenaltyExample` | pkg/ratelimiter_test.go:43-72 | with 2 requests per second and a 5 s penalty: allowed, allowed, refused at T; refused at T+1, T+2 and T+4; allowed at T+5 |
| `RateLimiter.PenaltyServed` | pkg/ratelimiter_test.go:61-71 | a time-out until T+5 refuses at T+1, T+2 and T+4 and allows at T+5 |
| `LinkHeader.IsSpace` | scraping/scrape_repo_list.py:17 | the characters `str.isspace()` accepts, which `strip()` removes; stated by `StripKeepsMiddle` |
| `LinkHeader.LStrip` | scraping/scrape_repo_list.py:18 | `str.lstrip(chars)`; stated by `LStripDropsPrefix` |
| `LinkHeader.RStrip` | scraping/scrape_repo_list.py:18 | `str.rstrip(chars)`; stated by `RStripDropsSuffix` |
| `LinkHeader.LStripDropsPrefix` | scraping/scrape_repo_list.py:18 | `lstrip` removes exactly the longest prefix of stripped characters |
| `LinkHeader.RStripDropsSuffix` | scraping/scrape_repo_list.py:18 | `rstrip` removes exactly the longest suffix of stripped characters |
| `LinkHeader.Strip` | scraping/scrape_repo_list.py:17 | Python's `strip()`; stated by `StripKeepsMiddle` |
| `LinkHeader.StripKeepsMiddle` | scraping/scrape_repo_list.py:17 | `strip` keeps a middle piece and drops only white space on either side |
| `LinkHeader.Split` | scraping/scrape_repo_list.py:14 | `split(",")` gives at least one piece, and no piece holds a comma |
| `LinkHeader.SplitJoin` | scraping/scrape_repo_list.py:14 | joining the pieces with commas gives the header back |
| `LinkHeader.SplitOnce` | scraping/scrape_repo_list.py:16 | a part without a semicolon cannot be unpacked; otherwise it is split at its first semicolon |
| `LinkHeader.CleanUrl` | scraping/scrape_repo_list.py:18 | `url.strip().lstrip("<").rstrip(">")`; stated by `CleanUrlBrackets` |
| `LinkHeader.CleanUrlBrackets` | scraping/scrape_repo_list.py:18 | the cleaned URL comes from the stripped URL and neither starts with `<` nor ends with `>` |
| `LinkHeader.Decide` | scraping/scrape_repo_list.py:16-18 | a part raises exactly when it has no semicolon |
| `LinkHeader.Decisions` | scraping/scrape_repo_list.py:15-18 | one decision per part |
| `LinkHeader.First` | scraping/scrape_repo_list.py:15-20 | the first part that does not pass decides; stated by `FirstNoNextIff` and `FirstIsLeftmost` |
| `LinkHeader.FirstNoNextIff` | scraping/scrape_repo_list.py:15-20 | `None` results exactly when every part passes |
| `LinkHeader.FirstIsLeftmost` | scraping/scrape_repo_list.py:15-18 | any other result comes from the first part that does not pass |
| `LinkHeader.ParseLinkHeader` | scraping/scrape_repo_list.py:10-20 | `parse_link_header`; stated by `NoNextIff`, `NextIsFirstRelNext` and `RaisesOnMissingSemicolon` |
| `LinkHeader.NoNextIff` | scraping/scrape_repo_list.py:14-20 | `None` is returned exactly when every part has a semicolon and no parameter is `rel="next"` |
| `LinkHeader.DecidePasses` | scraping/scrape_repo_list.py:16-17 | a part passes exactly when it has a semicolon and a parameter other than `rel="next"` |
| `LinkHeader.NextIsFirstRelNext` | scraping/scrape_repo_list.py:14-18 | a returned URL is the cleaned text of the first `rel="next"` part, and all earlier parts pass |
| `LinkHeader.RaisesOnMissingSemicolon` | scraping/scrape_repo_list.py:16 | the parser raises only on a part without a semicolon that comes before any `next` part |
| `LinkHeader.SplitOnceAt` | scraping/scrape_repo_list.py:16 | a part splits at its first semicolon |
| `LinkHeader.FirstSeparator` | scraping/scrape_repo_list.py:16 | a separator-free prefix followed by the separator ends at the first separator |
| `LinkHeader.StripOneSpace` | scraping/scrape_repo_list.py:17 | stripping removes one leading space and nothing else from a clean text |
| `LinkHeader.OnePart` | scraping/scrape_repo_list.py:14-20 | a header without commas is decided by its only part |
| `LinkHeader.TwoParts` | scraping/scrape_repo_list.py:14-20 | in a two-part header, the second part decides only when the first passes |
| `LinkHeader.PrevPartSplits` | scraping/scrape_repo_list.py:16 | `<p>; rel="prev"` splits after the `>` |
| `LinkHeader.PrevIsNotRelNext` | scraping/scrape_repo_list.py:17 | a `prev` parameter is not `rel="next"` |
| `LinkHeader.PrevPartPasses` | scraping/scrape_repo_list.py:16-17 | a `prev` link passes |
| `LinkHeader.NextPartSplits` | scraping/scrape_repo_list.py:16 | ` <n>; rel="next"` splits after the `>` |
| `LinkHeader.BracketedCleans` | scraping/scrape_repo_list.py:18 | ` <n>` cleans to `n` |
| `LinkHeader.NextPartGives` | scraping/scrape_repo_list.py:16-18 | a `next` link gives its URL without brackets |
| `LinkHeader.NextAfterPrev` | scraping/scrape_repo_list.py:12-18 | for a GitHub-shaped header `<p>; rel="prev", <n>; rel="next"`, the parser returns `n` |
| `LinkHeader.SplitTwo` | scraping/scrape_repo_list.py:14 | two comma-free pieces joined by a comma split back into those two |
| `LinkHeader.SplitNone` | scraping/scrape_repo_list.py:14 | a comma-free header is one part |
| `LinkHeader.ExtraParameterSplits` | scraping/scrape_repo_list.py:16 | `<u>; rel="next"; x` splits only at its first semicolon |
| `LinkHeader.ExtraParameterIsNotRelNext` | scraping/scrape_repo_list.py:17 | `rel="next"; x`, stripped, is not `rel="next"` |
| `LinkHeader.ExtraParameterPasses` | scraping/scrape_repo_list.py:16-17 | a `next` link followed by a second parameter passes |
| `LinkHeader.ExtraParameterIsSkipped` | scraping/scrape_repo_list.py:14-20 | a header whose only `next` link carries a second parameter gives `None` |

## Left out

- Concurrency is not modelled:
  - the goroutines, the output and quit channels, and the `WaitGroup`;
  - the work channel of `internal/concordance/concordance.go:101-155`;
  - the two pthreads of `search.c`.

  A search is modelled by the matches each goroutine sends, in page order. The order in which the goroutines' matches interleave on the channel is not modelled. For the work-channel version, only the worker-count clamp is modelled (`Dispatch.WorkerCount`). Each page is sent once on that channel, but which worker takes it is a scheduling choice.
- The quit-channel `select` in both `Find`s and in `findConcordance` is not modelled. It only leaves the `select`, so it never ends the loop.
- `runtime.NumCPU()` is a parameter (`numCpu > 0`).
- File loading is left out: `LoadPages`, `loadPages`, `load_all_texts`, `read_all` and the manifest.
- The HTTP server is left out: routing, JSON encoding, `writeError`'s response, time-outs, and the logs. Only the keyword-length verdict is modelled.
- Also left out: `cmd/*`, `public/fast.js`, `baseline.py`, `internal/simdtest`, `scrape_standard_ebooks.py`, the network and file I/O of `scrape_repo_list.py`, and `search.c`'s argument parsing and timing.
- `print_avx_vector` and the AVX2 intrinsics are not modelled as instructions. They are modelled by their lane-wise meaning (`SimdSearch.LanesEqual`).
- `Scan.SearchWith`: `strstr` is foreign code. It is stated by its specification, `Literal.FirstOccurrence`.
- `Literal.LiteralMatches` matches bytes, while Go's `regexp` matches runes and reads each ill-formed text byte as U+FFFD. The two agree when the keyword is well-formed UTF-8 without U+FFFD (`EF BF BD`). For a keyword holding U+FFFD, Go also matches it against ill-formed text bytes, which the model does not.
- `FinderGeneric.NewFinder` decides failure by well-formedness alone. It does not model Go's limits on a pattern's size, which the 30-byte cap of the handler keeps far away. A built finder inherits the U+FFFD caveat of `Literal.LiteralMatches`.
- `FinderGeneric.Find` requires a non-empty keyword. Go's `regexp` semantics for an empty pattern are not modelled. The handler never searches for a keyword shorter than 4 bytes.
- `Utf8.SliceLeftUtf8` requires a character boundary at or before `end`. The Go loop would index `text[-1]` and panic otherwise. The finders and `Concordance` state this once as `StartsOnBoundary`, which holds for every valid UTF-8 text.
- `Scan.StupidSearch` requires `offset <= len(text)`. Otherwise the C loop reads past the terminator.
- `Scan.StupidSearch`, `Scan.NaiveResult` and `Scan.SearchWith` take each C string as its bytes before the terminator. The C test `text[i] != '\0'` is then `i < |text|`. A NUL byte inside these bytes is not modelled, because `CSearch` passes the file's contents only up to the first NUL (`CSearch.CString`) and a keyword without one.
- `SimdSearch.Search` takes a non-negative offset. The wrap-around of a negative Go `int` converted to `size_t` is not modelled.
- `CSearch.SearchOne` keeps its count in an unbounded integer. The overflow of the C `int` count is not modelled.
- `CSearch.SearchOne` takes the keyword as the bytes of a command-line argument, which hold no NUL byte (`CSearch.KeywordArg`). With `strstr` it also requires a non-empty keyword. For an empty keyword, `strstr` finds it at the terminator, the scan resumes past the terminator, and C reads past the buffer (`search.c:129, 169`), which has no model.
- `CSearch.PrintWindow` models only the excerpt bytes. The printed `"filename: "` prefix and the newline are not modelled.
- `CSearch.CountCorpus` takes `parallel` as a parameter. In `search.c` it is uninitialised unless `-parallel` is given.
- Time is not fully modelled:
  - `RateLimiter.IsOk` models instants as integer nanoseconds.
  - The monotonic clock reading of Go's `time.Time` and overflow in `time.Add` are not modelled.
  - The zero time is the constant `RateLimiter.ZeroTime`.
- `LinkHeader.IsSpace` is a fixed list of the code points Python's `str.isspace()` accepts.
- `LinkHeader.ParseLinkHeader` computes each part's decision, even for parts after the one that decides. Python stops splitting at the deciding part. The result is the same, but the laziness is not modelled.
