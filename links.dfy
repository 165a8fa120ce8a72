/**
  The link rewriter: `HtmlPage.autoLink` replaces every leftmost,
  non-overlapping match of `\[([a-zA-Z0-9]+)\]` in the rendered page by an
  anchor to the view page of the bracketed token. `ReplaceLinks` is that
  replacement as one left-to-right scan; `Leftmost` says, independently of the
  scan, which ways of cutting a text into plain runs and `[token]` segments are
  the ones a leftmost non-overlapping search produces, and
  `ReplaceLinksMeetsSpec` ties the two together.
 */
module Links {
  import opened Wrappers
  import Route

  /** A page after markup rendering: its title and its HTML body. */
  datatype HtmlPage = HtmlPage(title: string, body: string)

  /** The length of the longest prefix of `s` made of `[a-zA-Z0-9]`. */
  function AlnumRun(s: string): (n: nat)
    ensures n <= |s|
    ensures n < |s| ==> !Route.IsAlnum(s[n])
  {
    if s == [] || !Route.IsAlnum(s[0]) then 0 else 1 + AlnumRun(s[1..])
  }

  /** Every character of the run is a letter or a digit. */
  lemma {:induction false} AlnumRunAllAlnum(s: string)
    ensures forall i :: 0 <= i < AlnumRun(s) ==> Route.IsAlnum(s[i])
  {
    if s != [] && Route.IsAlnum(s[0]) {
      AlnumRunAllAlnum(s[1..]);
      assert forall i :: 1 <= i < AlnumRun(s) ==> s[i] == s[1..][i - 1];
    }
  }

  /** The pattern `\[([a-zA-Z0-9]+)\]` tried at the first character of `s`:
      the captured token, or None when no match starts there. */
  function MatchAt(s: string): (r: Option<string>)
    ensures r.Some? ==> |r.value| + 2 <= |s| && s[0] == '[' && s[|r.value| + 1] == ']'
  {
    if s == [] || s[0] != '[' then None
    else
      var n := AlnumRun(s[1..]);
      if n > 0 && n + 1 < |s| && s[n + 1] == ']' then Some(s[1..n + 1])
      else None
  }

  /** What a match consists of: `[`, a non-empty alphanumeric token, `]`. */
  lemma MatchAtSound(s: string)
    requires MatchAt(s).Some?
    ensures Route.IsTitle(MatchAt(s).value)
    ensures s == "[" + MatchAt(s).value + "]" + s[|MatchAt(s).value| + 2..]
  {
    var n := AlnumRun(s[1..]);
    AlnumRunAllAlnum(s[1..]);
    assert s == "[" + s[1..n + 1] + "]" + s[n + 2..];
  }

  /** A match of the link pattern starts at position `i` of `s`. */
  predicate LinkAt(s: string, i: int) {
    0 <= i < |s| && MatchAt(s[i..]).Some?
  }

  /** No match of the link pattern starts anywhere in `s`. */
  predicate NoMatch(s: string) {
    forall i :: 0 <= i < |s| ==> !LinkAt(s, i)
  }

  /** Any `[token]` at the front of a text is matched there, with exactly that token. */
  lemma MatchAtComplete(token: string, rest: string)
    requires Route.IsTitle(token)
    ensures MatchAt("[" + token + "]" + rest) == Some(token)
  {
    var s := "[" + token + "]" + rest;
    assert s[1..][..|token|] == token;
    AlnumRunOf(s[1..], |token|);
    assert s[1..|token| + 1] == token;
  }

  /** The run of alphanumerics is exactly `n` long when `s` has `n` of them
      followed by something else or nothing. */
  lemma {:induction false} AlnumRunOf(s: string, n: nat)
    requires n <= |s|
    requires forall i :: 0 <= i < n ==> Route.IsAlnum(s[i])
    requires n < |s| ==> !Route.IsAlnum(s[n])
    ensures AlnumRun(s) == n
  {
    if n > 0 {
      AlnumRunOf(s[1..], n - 1);
    }
  }

  /** The replacement text `<a href="/view/$1">$1</a>` for one token. */
  function Anchor(token: string): (r: string)
    ensures |r| == 2 * |token| + 21
    ensures r[0] == '<' && r[|r| - 1] == '>'
  {
    "<a href=\"/view/" + token + "\">" + token + "</a>"
  }

  /** `innerLink.ReplaceAllString(body, ...)`: scan left to right; where a match
      starts, emit its anchor and resume after the closing bracket, otherwise
      copy one character. */
  function ReplaceLinks(s: string): (r: string)
    ensures |s| <= |r|
    decreases |s|
  {
    if s == [] then []
    else
      match MatchAt(s)
      case Some(token) => Anchor(token) + ReplaceLinks(s[|token| + 2..])
      case None => [s[0]] + ReplaceLinks(s[1..])
  }

  /** `HtmlPage.autoLink`: a new page with the same title and rewritten body. */
  function AutoLink(p: HtmlPage): (r: HtmlPage)
    ensures r.title == p.title
    ensures r.body == ReplaceLinks(p.body)
  {
    HtmlPage(p.title, ReplaceLinks(p.body))
  }

  // ---------------------------------------------------------------------------
  // The specification: a text cut into plain runs and bracketed tokens.

  datatype Segment = Text(text: string) | Link(token: string)

  /** The text a list of segments was cut from. */
  function Source(segs: seq<Segment>): string
    decreases |segs|
  {
    if segs == [] then []
    else
      match segs[0]
      case Text(t) => t + Source(segs[1..])
      case Link(token) => "[" + token + "]" + Source(segs[1..])
  }

  /** The text with every token segment replaced by its anchor. */
  function Rendered(segs: seq<Segment>): string
    decreases |segs|
  {
    if segs == [] then []
    else
      match segs[0]
      case Text(t) => t + Rendered(segs[1..])
      case Link(token) => Anchor(token) + Rendered(segs[1..])
  }

  /** No match of the link pattern starts inside `t`, when `t` is followed by `rest`
      (a match may still start in `rest`). */
  predicate Plain(t: string, rest: string) {
    forall i :: 0 <= i < |t| ==> !LinkAt(t + rest, i)
  }

  /** The cut a leftmost, non-overlapping search makes: no match starts inside
      a plain run (given what follows it), and every token is a non-empty
      alphanumeric word. */
  predicate Leftmost(segs: seq<Segment>)
    decreases |segs|
  {
    segs == [] ||
    ((match segs[0]
      case Text(t) => Plain(t, Source(segs[1..]))
      case Link(token) => Route.IsTitle(token))
     && Leftmost(segs[1..]))
  }

  /** A plain run is copied through unchanged. */
  lemma {:induction false} PlainCopied(t: string, rest: string)
    requires Plain(t, rest)
    ensures ReplaceLinks(t + rest) == t + ReplaceLinks(rest)
  {
    if t == [] {
      assert t + rest == rest;
    } else {
      PlainStep(t, rest);
      PlainCopied(t[1..], rest);
      ConsConcat(t, ReplaceLinks(rest));
    }
  }

  /** Sequence algebra for the step above, kept apart from the scan. */
  lemma ConsConcat(t: string, c: string)
    requires t != []
    ensures [t[0]] + (t[1..] + c) == t + c
  {
    assert t == [t[0]] + t[1..];
  }

  /** One step of `PlainCopied`: the first character of a plain run is copied
      and the rest of the run is still plain. */
  lemma PlainStep(t: string, rest: string)
    requires t != [] && Plain(t, rest)
    ensures ReplaceLinks(t + rest) == [t[0]] + ReplaceLinks(t[1..] + rest)
    ensures Plain(t[1..], rest)
  {
    var s := t + rest;
    assert !LinkAt(s, 0) && s[0..] == s;
    assert s[1..] == t[1..] + rest;
    forall i | 0 <= i < |t| - 1
      ensures !LinkAt(t[1..] + rest, i)
    {
      assert (t[1..] + rest)[i..] == s[i + 1..];
      assert !LinkAt(s, i + 1);
    }
  }

  /** A bracketed token is replaced by its anchor and the scan resumes after it. */
  lemma LinkReplaced(token: string, rest: string)
    requires Route.IsTitle(token)
    ensures ReplaceLinks("[" + token + "]" + rest) == Anchor(token) + ReplaceLinks(rest)
  {
    var s := "[" + token + "]" + rest;
    MatchAtComplete(token, rest);
    assert s[|token| + 2..] == rest;
  }

  /** The scan produces exactly the rendering of any leftmost cut of its input. */
  lemma {:induction false} ReplaceLinksMeetsSpec(segs: seq<Segment>)
    requires Leftmost(segs)
    ensures ReplaceLinks(Source(segs)) == Rendered(segs)
  {
    if segs != [] {
      ReplaceLinksMeetsSpec(segs[1..]);
      match segs[0]
      case Text(t) =>
        PlainCopied(t, Source(segs[1..]));
      case Link(token) =>
        LinkReplaced(token, Source(segs[1..]));
        assert Source(segs) == "[" + token + "]" + Source(segs[1..]);
    }
  }

  /** A leftmost cut of `s`, found by the same left-to-right search. */
  function Split(s: string): (segs: seq<Segment>)
    ensures Source(segs) == s
    ensures Leftmost(segs)
    decreases |s|
  {
    if s == [] then []
    else
      match MatchAt(s)
      case Some(token) =>
        var rest := s[|token| + 2..];
        MatchAtSound(s);
        [Link(token)] + Split(rest)
      case None =>
        var segs := [Text([s[0]])] + Split(s[1..]);
        assert segs[1..] == Split(s[1..]);
        assert [s[0]] + s[1..] == s;
        assert Plain([s[0]], Source(segs[1..])) by {
          assert [s[0]] + Source(segs[1..]) == s && s[0..] == s;
        }
        segs
  }

  /** Every text has a leftmost cut, so the specification pins the scan down
      on every input. */
  lemma ReplaceLinksRendersSplit(s: string)
    ensures ReplaceLinks(s) == Rendered(Split(s))
  {
    ReplaceLinksMeetsSpec(Split(s));
  }

  /** A text in which no match starts anywhere (say `[]`, or brackets around
      something other than letters and digits) is left as it is. */
  lemma NoMatchUnchanged(s: string)
    requires NoMatch(s)
    ensures ReplaceLinks(s) == s
  {
    assert s + [] == s;
    assert Plain(s, []);
    PlainCopied(s, []);
  }

  /** Two tokens separated by plain text, such as `[Foo] and [Bar2]`, become
      two independent anchors. */
  lemma TwoIndependentLinks(first: string, second: string)
    requires Route.IsTitle(first) && Route.IsTitle(second)
    ensures ReplaceLinks("[" + first + "] and [" + second + "]")
            == Anchor(first) + " and " + Anchor(second)
  {
    var tail := "[" + second + "]";
    LinkReplaced(second, []);
    forall i | 0 <= i < |" and "|
      ensures !LinkAt(" and " + tail, i)
    {
      assert (" and " + tail)[i..][0] == " and "[i];
    }
    PlainCopied(" and ", tail);
    LinkReplaced(first, " and " + tail);
    TwoLinksAlgebra(first, second, Anchor(first), Anchor(second));
  }

  /** Sequence algebra for `TwoIndependentLinks`, kept apart from the scan. */
  lemma TwoLinksAlgebra(first: string, second: string, a: string, b: string)
    ensures "[" + first + "] and [" + second + "]" == "[" + first + "]" + (" and " + ("[" + second + "]"))
    ensures "[" + second + "]" == "[" + second + "]" + []
    ensures a + (" and " + (b + [])) == a + " and " + b
  {
  }

  /** Empty brackets are not a link. */
  lemma EmptyBracketsKept()
    ensures ReplaceLinks("[]") == "[]"
  {
    var s := "[]";
    assert s[0..] == s && s[1..] == "]";
    assert !LinkAt(s, 0) && !LinkAt(s, 1);
    NoMatchUnchanged(s);
  }

  // ---------------------------------------------------------------------------
  // The rewritten text holds no further link, so rewriting twice is rewriting once.

  /** An anchor contains no opening bracket. */
  lemma AnchorHasNoBracket(token: string)
    requires Route.IsTitle(token)
    ensures forall i :: 0 <= i < |Anchor(token)| ==> Anchor(token)[i] != '['
  {
  }

  /** The rewritten text starts with the same run of letters and digits as
      the original, and a `]` right after that run was already there. */
  lemma {:induction false} ScanKeepsFront(s: string)
    ensures AlnumRun(ReplaceLinks(s)) == AlnumRun(s)
    ensures AlnumRun(s) < |ReplaceLinks(s)| && ReplaceLinks(s)[AlnumRun(s)] == ']'
            ==> AlnumRun(s) < |s| && s[AlnumRun(s)] == ']'
  {
    if s != [] {
      var out := ReplaceLinks(s);
      if Route.IsAlnum(s[0]) {
        assert MatchAt(s).None?;
        assert out == [s[0]] + ReplaceLinks(s[1..]);
        assert out[1..] == ReplaceLinks(s[1..]);
        ScanKeepsFront(s[1..]);
      } else {
        assert AlnumRun(s) == 0;
        match MatchAt(s)
        case Some(token) =>
          assert out[0] == '<';
        case None =>
          assert out[0] == s[0];
      }
    }
  }

  /** No match of the link pattern starts anywhere in a rewritten text. */
  lemma {:induction false} ReplaceLinksLeavesNoMatch(s: string)
    ensures NoMatch(ReplaceLinks(s))
    decreases |s|
  {
    if s != [] {
      var out := ReplaceLinks(s);
      match MatchAt(s)
      case Some(token) =>
        var a := Anchor(token);
        var r := ReplaceLinks(s[|token| + 2..]);
        assert out == a + r;
        ReplaceLinksLeavesNoMatch(s[|token| + 2..]);
        MatchAtSound(s);
        AnchorHasNoBracket(token);
        forall i | 0 <= i < |out|
          ensures !LinkAt(out, i)
        {
          if i < |a| {
            assert out[i..][0] == a[i];
          } else {
            assert out[i..] == r[i - |a|..];
            assert !LinkAt(r, i - |a|);
          }
        }
      case None =>
        var r := ReplaceLinks(s[1..]);
        assert out == [s[0]] + r;
        ReplaceLinksLeavesNoMatch(s[1..]);
        forall i | 0 <= i < |out|
          ensures !LinkAt(out, i)
        {
          if i > 0 {
            assert out[i..] == r[i - 1..];
            assert !LinkAt(r, i - 1);
          } else if s[0] == '[' {
            assert out[0..] == out;
            assert out[1..] == r;
            ScanKeepsFront(s[1..]);
          } else {
            assert out[0..][0] == s[0];
          }
        }
    }
  }

  /** Rewriting an already rewritten page changes nothing. */
  lemma ReplaceLinksIdempotent(s: string)
    ensures ReplaceLinks(ReplaceLinks(s)) == ReplaceLinks(s)
  {
    ReplaceLinksLeavesNoMatch(s);
    NoMatchUnchanged(ReplaceLinks(s));
  }
}
