/** The `next` link of an HTTP `Link` header, as the repository scraper
    reads it.

    This is a small subset of the `Link` header grammar of section 3 of
    RFC 8288: the header is split at every comma, each part at its first
    semicolon into a URL and a parameter, and the first part whose
    parameter is exactly `rel="next"` (after trimming white space) gives the
    URL, trimmed of white space and of its angle brackets.  Quoted commas,
    several parameters and parameter order are not understood.  A part with
    no semicolon makes the scraper fail (the tuple unpacking raises), unless
    an earlier part already matched.  Strings are sequences of Unicode code
    points, as in Python.
 */
module LinkHeader {

  /** What `parse_link_header` does: return a URL, return `None`, or raise
      `ValueError` on a part without a semicolon. */
  datatype Outcome = Next(url: string) | NoNext | Unpacking

  /** The characters Python's `str.strip()` removes: those for which
      `str.isspace()` holds. */
  predicate IsSpace(x: char)
  {
    || ('\U{0009}' <= x <= '\U{000D}') || ('\U{001C}' <= x <= ' ')
    || x == '\U{0085}' || x == '\U{00A0}' || x == '\U{1680}'
    || ('\U{2000}' <= x <= '\U{200A}') || x == '\U{2028}' || x == '\U{2029}'
    || x == '\U{202F}' || x == '\U{205F}' || x == '\U{3000}'
  }

  /** The set of characters a strip removes: white space, or one given
      character (`"<"` and `">"` are the only sets the scraper passes). */
  datatype Chars = Space | Just(c: char)

  predicate In(x: char, chars: Chars)
  {
    match chars
    case Space => IsSpace(x)
    case Just(c) => x == c
  }

  /** The parameter that marks the link to the next page. */
  const RelNext: string := "rel=\"next\""

  /** `s.lstrip(chars)`. */
  function LStrip(s: string, chars: Chars): string
  {
    if |s| > 0 && In(s[0], chars) then LStrip(s[1..], chars) else s
  }

  /** `s.rstrip(chars)`. */
  function RStrip(s: string, chars: Chars): string
  {
    if |s| > 0 && In(s[|s| - 1], chars) then RStrip(s[..|s| - 1], chars) else s
  }

  /** `lstrip` removes the longest prefix made of `chars`: what is left is
      a suffix of `s` that does not start with one of them. */
  lemma {:induction false} LStripDropsPrefix(s: string, chars: Chars)
    ensures var r := LStrip(s, chars);
      && |r| <= |s| && r == s[|s| - |r|..]
      && (forall i :: 0 <= i < |s| - |r| ==> In(s[i], chars))
      && (|r| > 0 ==> !In(r[0], chars))
  {
    if |s| > 0 && In(s[0], chars) {
      LStripDropsPrefix(s[1..], chars);
      var r := LStrip(s, chars);
      forall i | 1 <= i < |s| - |r| ensures In(s[i], chars) {
        assert s[i] == s[1..][i - 1];
      }
    }
  }

  /** `rstrip` removes the longest suffix made of `chars`: what is left is
      a prefix of `s` that does not end with one of them. */
  lemma {:induction false} RStripDropsSuffix(s: string, chars: Chars)
    ensures var r := RStrip(s, chars);
      && |r| <= |s| && r == s[..|r|]
      && (forall i :: |r| <= i < |s| ==> In(s[i], chars))
      && (|r| > 0 ==> !In(r[|r| - 1], chars))
  {
    if |s| > 0 && In(s[|s| - 1], chars) {
      RStripDropsSuffix(s[..|s| - 1], chars);
      var r := RStrip(s, chars);
      forall i | |r| <= i < |s| - 1 ensures In(s[i], chars) {
        assert s[i] == s[..|s| - 1][i];
      }
    }
  }

  /** `s.strip()`. */
  function Strip(s: string): string
  {
    RStrip(LStrip(s, Space), Space)
  }

  /** `Strip` keeps a middle piece of `s`: what it drops on either side is
      white space, and the piece neither starts nor ends with white space. */
  lemma StripKeepsMiddle(s: string) returns (lo: nat)
    ensures var r := Strip(s);
      && lo + |r| <= |s| && r == s[lo..lo + |r|]
      && (forall i :: 0 <= i < lo ==> IsSpace(s[i]))
      && (forall i :: lo + |r| <= i < |s| ==> IsSpace(s[i]))
      && (|r| > 0 ==> !IsSpace(r[0]) && !IsSpace(r[|r| - 1]))
  {
    var l := LStrip(s, Space);
    var r := Strip(s);
    LStripDropsPrefix(s, Space);
    RStripDropsSuffix(l, Space);
    lo := |s| - |l|;
    assert r == l[..|r|];
    forall i | lo + |r| <= i < |s| ensures IsSpace(s[i]) {
      assert s[i] == l[i - lo];
    }
    if |r| > 0 {
      assert r[0] == l[0];
    }
  }

  /** `s.split(sep)`: the pieces between the separators, in order; one
      more piece than there are separators. */
  function Split(s: string, sep: char): (pieces: seq<string>)
    ensures |pieces| >= 1
    ensures forall k :: 0 <= k < |pieces| ==> sep !in pieces[k]
  {
    if s == [] then [[]]
    else
      var rest := Split(s[1..], sep);
      if s[0] == sep then [[]] + rest
      else [[s[0]] + rest[0]] + rest[1..]
  }

  /** Pieces put back together with `sep` between them. */
  function Join(pieces: seq<string>, sep: char): string
    requires |pieces| >= 1
  {
    if |pieces| == 1 then pieces[0] else pieces[0] + [sep] + Join(pieces[1..], sep)
  }

  /** Splitting loses nothing: joining the pieces gives the header back. */
  lemma {:induction false} SplitJoin(s: string, sep: char)
    ensures Join(Split(s, sep), sep) == s
  {
    if s != [] {
      var rest := Split(s[1..], sep);
      SplitJoin(s[1..], sep);
      if s[0] == sep {
        assert ([[]] + rest)[1..] == rest;
      } else {
        var pieces := [[s[0]] + rest[0]] + rest[1..];
        if |rest| == 1 {
          assert pieces == [[s[0]] + rest[0]];
        } else {
          assert pieces[1..] == rest[1..];
          assert Join(rest, sep) == rest[0] + [sep] + Join(rest[1..], sep);
        }
      }
    }
  }

  /** `part.split(";", maxsplit=1)` unpacked into two names: the text before
      the first semicolon and the text after it, or nothing when the part
      has no semicolon (the unpacking then raises). */
  function SplitOnce(s: string, sep: char): (r: Option2)
    ensures r.None2? <==> sep !in s
    ensures r.Some2? ==> s == r.before + [sep] + r.after && sep !in r.before
  {
    if s == [] then None2
    else if s[0] == sep then Some2([], s[1..])
    else
      var t := SplitOnce(s[1..], sep);
      if t.None2? then None2 else Some2([s[0]] + t.before, t.after)
  }

  /** The two halves of a split part, if there is a semicolon. */
  datatype Option2 = None2 | Some2(before: string, after: string)

  /** `url.strip().lstrip("<").rstrip(">")`. */
  function CleanUrl(url: string): (r: string)
  {
    RStrip(LStrip(Strip(url), Just('<')), Just('>'))
  }

  /** The cleaned URL is a piece of the stripped URL that starts with no
      `<` and ends with no `>`. */
  lemma CleanUrlBrackets(url: string)
    ensures var r := CleanUrl(url);
      && |r| <= |Strip(url)|
      && (|r| > 0 ==> r[0] != '<' && r[|r| - 1] != '>')
  {
    var l := LStrip(Strip(url), Just('<'));
    var r := CleanUrl(url);
    LStripDropsPrefix(Strip(url), Just('<'));
    RStripDropsSuffix(l, Just('>'));
    if |r| > 0 {
      assert r[0] == l[0];
    }
  }

  /** What one part decides: raise, give its URL, or pass to the next. */
  function Decide(part: string): (o: Outcome)
    ensures o.Unpacking? <==> ';' !in part
  {
    match SplitOnce(part, ';')
    case None2 => Unpacking
    case Some2(url, rel) => if Strip(rel) == RelNext then Next(CleanUrl(url)) else NoNext
  }

  /** What each part, on its own, decides. */
  function Decisions(parts: seq<string>): (ds: seq<Outcome>)
    ensures |ds| == |parts|
    ensures forall k :: 0 <= k < |parts| ==> ds[k] == Decide(parts[k])
  {
    seq(|parts|, k requires 0 <= k < |parts| => Decide(parts[k]))
  }

  /** The loop over the parts' decisions, from the first: the first one
      other than "pass" decides the call; when every part passes, the
      result is `None`.  Python stops at that part, so later parts are
      never split; their decisions here are computed but never used. */
  function First(ds: seq<Outcome>): Outcome
  {
    if ds == [] then NoNext
    else if ds[0].NoNext? then First(ds[1..])
    else ds[0]
  }

  /** `parse_link_header`. */
  function ParseLinkHeader(header: string): Outcome
  {
    First(Decisions(Split(header, ',')))
  }

  /** `None` results exactly when every decision passes. */
  lemma {:induction false} FirstNoNextIff(ds: seq<Outcome>)
    ensures First(ds).NoNext? <==> forall k :: 0 <= k < |ds| ==> ds[k].NoNext?
  {
    if ds != [] && ds[0].NoNext? {
      FirstNoNextIff(ds[1..]);
      assert forall k :: 1 <= k < |ds| ==> ds[k] == ds[1..][k - 1];
    }
  }

  /** Any other result is the first decision other than "pass". */
  lemma {:induction false} FirstIsLeftmost(ds: seq<Outcome>) returns (k: nat)
    requires !First(ds).NoNext?
    ensures k < |ds| && First(ds) == ds[k]
    ensures forall j :: 0 <= j < k ==> ds[j].NoNext?
  {
    if ds[0].NoNext? {
      var k' := FirstIsLeftmost(ds[1..]);
      k := k' + 1;
      assert forall j :: 1 <= j < k ==> ds[j] == ds[1..][j - 1];
    } else {
      k := 0;
    }
  }

  /** `None` is returned exactly when every comma-separated part has a
      semicolon and no part's parameter, trimmed, is `rel="next"`. */
  lemma NoNextIff(header: string)
    ensures ParseLinkHeader(header) == NoNext <==> AllPass(Split(header, ','))
  {
    var parts := Split(header, ',');
    var ds := Decisions(parts);
    FirstNoNextIff(ds);
    assert ParseLinkHeader(header) == First(ds);
    forall k | 0 <= k < |parts|
      ensures ds[k].NoNext? <==> Passes(parts[k])
    {
      DecidePasses(parts[k]);
    }
    if AllPass(parts) {
      assert forall k :: 0 <= k < |ds| ==> ds[k].NoNext?;
    } else {
      var k :| 0 <= k < |parts| && !Passes(parts[k]);
      assert !ds[k].NoNext?;
    }
  }

  /** Every part passes. */
  predicate AllPass(parts: seq<string>)
  {
    forall k :: 0 <= k < |parts| ==> Passes(parts[k])
  }

  /** A part has a semicolon and a parameter other than `rel="next"`. */
  predicate Passes(part: string)
  {
    ';' in part && Strip(SplitOnce(part, ';').after) != RelNext
  }

  /** A part passes exactly when it has a semicolon and its parameter,
      trimmed, is not `rel="next"`. */
  lemma DecidePasses(part: string)
    ensures Decide(part).NoNext? <==> Passes(part)
  {
  }

  /** A returned URL is the cleaned text before the first semicolon of the
      first part whose parameter, trimmed, is `rel="next"`; every earlier
      part of the header has a semicolon and another parameter. */
  lemma NextIsFirstRelNext(header: string, url: string) returns (k: nat, before: string, rel: string)
    requires ParseLinkHeader(header) == Next(url)
    ensures var parts := Split(header, ',');
      && k < |parts|
      && parts[k] == before + ";" + rel && ';' !in before
      && Strip(rel) == RelNext && url == CleanUrl(before)
      && forall j :: 0 <= j < k ==> Decide(parts[j]) == NoNext
  {
    var parts := Split(header, ',');
    k := FirstIsLeftmost(Decisions(parts));
    var t := SplitOnce(parts[k], ';');
    before, rel := t.before, t.after;
  }

  /** The scraper raises only when, before any part gives a `next` link,
      some part has no semicolon. */
  lemma RaisesOnMissingSemicolon(header: string) returns (k: nat)
    requires ParseLinkHeader(header) == Unpacking
    ensures var parts := Split(header, ',');
      && k < |parts| && ';' !in parts[k]
      && forall j :: 0 <= j < k ==> Decide(parts[j]) == NoNext
  {
    k := FirstIsLeftmost(Decisions(Split(header, ',')));
  }

  /** A part splits at its first semicolon. */
  lemma SplitOnceAt(a: string, b: string, sep: char)
    requires sep !in a
    ensures SplitOnce(a + [sep] + b, sep) == Some2(a, b)
  {
    var s := a + [sep] + b;
    var r := SplitOnce(s, sep);
    FirstSeparator(s, sep, a);
    FirstSeparator(s, sep, r.before);
    assert r.before == s[..|a|] == a;
    assert r.after == s[|a| + 1..] == b;
  }

  /** A separator-free prefix of `s` followed by the separator ends where
      the first separator of `s` is. */
  lemma FirstSeparator(s: string, sep: char, p: string)
    requires |p| < |s| && s[..|p|] == p && s[|p|] == sep && sep !in p
    ensures forall k :: 0 <= k < |s| && s[k] == sep ==> |p| <= k
  {
    forall k | 0 <= k < |s| && s[k] == sep ensures |p| <= k {
      if k < |p| {
        assert false;
      }
    }
  }

  /** One leading space in front of a text that neither starts nor ends
      with white space is all `Strip` removes. */
  lemma StripOneSpace(x: string)
    requires |x| > 0 && !IsSpace(x[0]) && !IsSpace(x[|x| - 1])
    ensures Strip(" " + x) == x
  {
    assert (" " + x)[1..] == x;
    assert LStrip(" " + x, Space) == LStrip(x, Space) == x;
    assert RStrip(x, Space) == x;
  }

  /** A URL as GitHub writes it between angle brackets: no comma, no
      semicolon, and it neither starts nor ends with white space or a
      bracket. */
  predicate PlainUrl(u: string)
  {
    && |u| > 0 && ',' !in u && ';' !in u
    && !IsSpace(u[0]) && u[0] != '<' && !IsSpace(u[|u| - 1]) && u[|u| - 1] != '>'
  }

  /** A header without commas is one part, and that part decides. */
  lemma OnePart(h: string)
    requires ',' !in h
    ensures ParseLinkHeader(h) == Decide(h)
  {
    SplitNone(h, ',');
    var ds := Decisions([h]);
    assert ds == [Decide(h)];
    assert ds[1..] == [];
    assert First([]) == NoNext;
    assert ParseLinkHeader(h) == First(ds);
  }

  /** A header with one comma is two parts; the second decides only when
      the first passes. */
  lemma TwoParts(p1: string, p2: string)
    requires ',' !in p1 && ',' !in p2
    ensures ParseLinkHeader(p1 + "," + p2) == if Decide(p1).NoNext? then Decide(p2) else Decide(p1)
  {
    assert p1 + "," + p2 == p1 + [','] + p2;
    SplitTwo(p1, p2, ',');
    var ds := Decisions([p1, p2]);
    assert ds == [Decide(p1), Decide(p2)];
    assert ds[1..] == [Decide(p2)];
    assert ds[1..][1..] == [];
    assert First([]) == NoNext;
    assert ParseLinkHeader(p1 + "," + p2) == First(ds);
  }

  /** A part `<p>; rel="prev"` splits at the semicolon after `>`. */
  lemma PrevPartSplits(p: string)
    requires PlainUrl(p)
    ensures SplitOnce("<" + p + ">; rel=\"prev\"", ';') == Some2("<" + p + ">", " rel=\"prev\"")
  {
    var u, prev := "<" + p + ">", " rel=\"prev\"";
    assert "<" + p + ">; rel=\"prev\"" == u + ";" + prev;
    assert ';' !in u;
    SplitOnceAt(u, prev, ';');
  }

  /** A part `<p>; rel="prev"` passes. */
  lemma PrevPartPasses(p: string)
    requires PlainUrl(p)
    ensures Decide("<" + p + ">; rel=\"prev\"") == NoNext
  {
    PrevPartSplits(p);
    PrevIsNotRelNext();
  }

  /** ` rel="prev"`, stripped, is not `rel="next"`. */
  lemma PrevIsNotRelNext()
    ensures Strip(" rel=\"prev\"") != RelNext
  {
    var prev := "rel=\"prev\"";
    assert " rel=\"prev\"" == " " + prev;
    StripOneSpace(prev);
    assert prev[5] != RelNext[5];
  }

  /** A part ` <n>; rel="next"` splits at the semicolon after `>`. */
  lemma NextPartSplits(n: string)
    requires PlainUrl(n)
    ensures SplitOnce(" <" + n + ">; rel=\"next\"", ';') == Some2(" <" + n + ">", " rel=\"next\"")
  {
    var u, next := " <" + n + ">", " rel=\"next\"";
    assert " <" + n + ">; rel=\"next\"" == u + ";" + next;
    assert ';' !in u;
    SplitOnceAt(u, next, ';');
  }

  /** ` <n>` cleans to `n`. */
  lemma BracketedCleans(n: string)
    requires PlainUrl(n)
    ensures CleanUrl(" <" + n + ">") == n
  {
    var u := "<" + n + ">";
    assert " <" + n + ">" == " " + u;
    StripOneSpace(u);
    assert LStrip(u, Just('<')) == n + ">" by {
      assert u[1..] == n + ">";
    }
    assert RStrip(n + ">", Just('>')) == n by {
      assert (n + ">")[..|n|] == n;
    }
  }

  /** A part ` <n>; rel="next"` gives `n`. */
  lemma NextPartGives(n: string)
    requires PlainUrl(n)
    ensures Decide(" <" + n + ">; rel=\"next\"") == Next(n)
  {
    NextPartSplits(n);
    StripOneSpace(RelNext);
    BracketedCleans(n);
  }

  /** A header of GitHub's shape, `<p>; rel="prev", <n>; rel="next"`: the
      `next` URL is returned without its angle brackets. */
  lemma NextAfterPrev(p: string, n: string)
    requires PlainUrl(p) && PlainUrl(n)
    ensures ParseLinkHeader("<" + p + ">; rel=\"prev\", <" + n + ">; rel=\"next\"") == Next(n)
  {
    var p1, p2 := "<" + p + ">; rel=\"prev\"", " <" + n + ">; rel=\"next\"";
    assert "<" + p + ">; rel=\"prev\", <" + n + ">; rel=\"next\"" == p1 + "," + p2;
    assert ',' !in p1 && ',' !in p2;
    TwoParts(p1, p2);
    PrevPartPasses(p);
    NextPartGives(n);
  }

  /** A header made of two separator-free pieces splits into those two. */
  lemma {:induction false} SplitTwo(a: string, b: string, sep: char)
    requires sep !in a && sep !in b
    ensures Split(a + [sep] + b, sep) == [a, b]
  {
    if a == [] {
      assert ([sep] + b)[1..] == b;
      SplitNone(b, sep);
    } else {
      SplitTwo(a[1..], b, sep);
      assert (a + [sep] + b)[1..] == a[1..] + [sep] + b;
      assert [a[0]] + a[1..] == a;
    }
  }

  /** A piece with no separator is not split. */
  lemma {:induction false} SplitNone(s: string, sep: char)
    requires sep !in s
    ensures Split(s, sep) == [s]
  {
    if s != [] {
      SplitNone(s[1..], sep);
      assert [s[0]] + s[1..] == s;
    }
  }

  /** A part `<u>; rel="next"; param` splits at its first semicolon. */
  lemma ExtraParameterSplits(u: string, param: string)
    requires PlainUrl(u)
    ensures SplitOnce("<" + u + ">; rel=\"next\"; " + param, ';') == Some2("<" + u + ">", " rel=\"next\"; " + param)
  {
    var v, rel := "<" + u + ">", " rel=\"next\"; " + param;
    assert "<" + u + ">; rel=\"next\"; " + param == v + ";" + rel;
    assert ';' !in v;
    SplitOnceAt(v, rel, ';');
  }

  /** `rel="next"; param`, stripped, still holds its semicolon, so it is
      not `rel="next"`. */
  lemma ExtraParameterIsNotRelNext(param: string)
    ensures Strip(" rel=\"next\"; " + param) != RelNext
  {
    var rel := "rel=\"next\"; " + param;
    assert " rel=\"next\"; " + param == " " + rel;
    assert rel[0] == 'r';
    assert (" " + rel)[1..] == rel;
    assert LStrip(" " + rel, Space) == rel;
    RStripDropsSuffix(rel, Space);
    assert rel[|RelNext|] == ';' && !IsSpace(';');
  }

  /** Only the first semicolon splits: the parameter of a `next` link
      followed by a second parameter is `rel="next"; ...`, which is not
      `rel="next"`, so the part passes. */
  lemma ExtraParameterPasses(u: string, param: string)
    requires PlainUrl(u)
    ensures Decide("<" + u + ">; rel=\"next\"; " + param) == NoNext
  {
    ExtraParameterSplits(u, param);
    ExtraParameterIsNotRelNext(param);
  }

  /** So a header whose only link carries a second parameter has no
      `next` link. */
  lemma ExtraParameterIsSkipped(u: string, param: string)
    requires PlainUrl(u) && ',' !in param
    ensures ParseLinkHeader("<" + u + ">; rel=\"next\"; " + param) == NoNext
  {
    var h := "<" + u + ">; rel=\"next\"; " + param;
    assert ',' !in h;
    OnePart(h);
    ExtraParameterPasses(u, param);
  }
}
