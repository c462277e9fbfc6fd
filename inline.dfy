/** applyInlineFormatting of markdown/markdown.go: six substitutions run in
    order, each replacing every leftmost, non-overlapping match of its
    pattern by styled text. The patterns are written out as scanners:
      links    \[([^\]]+)\]\(([^)]+)\)
      **  __   \*\*(.*?)\*\*  and  __(.*?)__
      *   _    \*(.*?)\*      and  _(.*?)_
      code     `([^`]+)`
    where '.' is any character but '\n' and '*?' takes the shortest inner
    text, i.e. the span closes at the first closing delimiter. */
module Inline {
  import opened Wrappers
  import opened Strings
  import opened Styles

  /** One substitution: the link pattern, or a span between two copies of
      `delim`. A `code` span needs a non-empty inner text that may hold
      '\n'; the other spans may be empty but may not hold '\n'. */
  datatype Pass = Links | Span(delim: string, code: bool, style: Style)

  /** The input, cut into pattern matches and the characters between them. */
  datatype Token = Lit(c: char) | Delim(inner: string) | LinkTok(text: string, url: string)

  const BoldStars: Pass := Span("**", false, Bold(Text))
  const BoldUnderscores: Pass := Span("__", false, Bold(Text))
  const ItalicStar: Pass := Span("*", false, Italic(Text))
  const ItalicUnderscore: Pass := Span("_", false, Italic(Text))
  const CodeTicks: Pass := Span("`", true, Plain(Accent))

  /** The passes in the order the source applies them. */
  const Passes: seq<Pass> := [Links, BoldStars, BoldUnderscores, ItalicStar, ItalicUnderscore, CodeTicks]

  predicate WellFormed(p: Pass) {
    p.Span? ==> p.delim != [] && p.delim[0] != '\n'
  }

  predicate OccursAt(s: string, m: nat, d: string) {
    m + |d| <= |s| && s[m..m + |d|] == d
  }

  /** The first occurrence of `d` at or after `k`; with `stopAtNewline`, none
      when a '\n' comes first. */
  function FindClose(s: string, k: nat, d: string, stopAtNewline: bool): (r: Option<nat>)
    requires d != [] && d[0] != '\n'
    ensures r.Some? ==> k <= r.value && OccursAt(s, r.value, d)
    ensures r.Some? ==> forall m :: k <= m < r.value ==> !OccursAt(s, m, d)
    ensures r.Some? && stopAtNewline ==> forall m :: k <= m < r.value ==> s[m] != '\n'
    decreases |s| - k
  {
    if k + |d| > |s| then None
    else if s[k..k + |d|] == d then Some(k)
    else if stopAtNewline && s[k] == '\n' then None
    else FindClose(s, k + 1, d, stopAtNewline)
  }

  /** The text a token was cut from. */
  function Source(t: Token, p: Pass): string {
    match t
    case Lit(c) => [c]
    case Delim(inner) => (if p.Span? then p.delim else "") + inner + (if p.Span? then p.delim else "")
    case LinkTok(text, url) => "[" + text + "](" + url + ")"
  }

  function Sources(ts: seq<Token>, p: Pass): string
    decreases |ts|
  {
    if ts == [] then "" else Source(ts[0], p) + Sources(ts[1..], p)
  }

  /** Before the first occurrence of `d`, no occurrence lies wholly inside. */
  lemma InnerHasNoDelimiter(s: string, k: nat, j: nat, d: string)
    requires k <= j <= |s| && forall m :: k <= m < j ==> !OccursAt(s, m, d)
    ensures forall m :: 0 <= m < |s[k..j]| ==> !OccursAt(s[k..j], m, d)
  {
    var inner := s[k..j];
    forall m | 0 <= m < |inner| ensures !OccursAt(inner, m, d) {
      if m + |d| <= |inner| {
        SliceOfSlice(s, k, j, m, m + |d|);
      }
      assert !OccursAt(s, k + m, d);
    }
  }

  lemma SliceOfSlice(s: string, k: nat, j: nat, a: nat, b: nat)
    requires k <= j <= |s| && a <= b <= j - k
    ensures s[k..j][a..b] == s[k + a..k + b]
  {
    var x := s[k..j][a..b];
    var y := s[k + a..k + b];
    forall t | 0 <= t < b - a ensures x[t] == y[t] {
      assert x[t] == s[k + a + t];
    }
  }

  /** `d` does not start anywhere in `t`. */
  predicate NoOccurrence(t: string, d: string) {
    forall m :: 0 <= m < |t| ==> !OccursAt(t, m, d)
  }

  /** The text between an opening delimiter at `i` and the first closing
      one at `j`. */
  lemma SpanShape(s: string, i: nat, d: string, j: nat)
    requires OccursAt(s, i, d) && i + |d| <= j && OccursAt(s, j, d)
    requires forall m :: i + |d| <= m < j ==> !OccursAt(s, m, d)
    ensures s[i..j + |d|] == d + s[i + |d|..j] + d
    ensures NoOccurrence(s[i + |d|..j], d)
  {
    var k := i + |d|;
    assert s[i..j + |d|] == s[i..k] + s[k..j] + s[j..j + |d|];
    InnerHasNoDelimiter(s, k, j, d);
  }

  lemma NoNewlineBetween(s: string, k: nat, j: nat)
    requires k <= j <= |s| && forall m :: k <= m < j ==> s[m] != '\n'
    ensures '\n' !in s[k..j]
  {
    assert forall m :: 0 <= m < j - k ==> s[k..j][m] == s[k + m];
  }

  /** A span pattern at `i`: the delimiter, the shortest admissible inner
      text, the delimiter again. */
  function SpanAt(s: string, i: nat, d: string, code: bool): (r: Option<(string, nat)>)
    requires i < |s| && d != [] && d[0] != '\n'
    ensures r.Some? ==> var (inner, e) := r.value;
      && i < e <= |s|
      && s[i..e] == d + inner + d
      && OccursAt(s, i, d)
      && (forall m :: 0 <= m < |inner| ==> !OccursAt(inner, m, d))
      && (code ==> inner != [])
      && (!code ==> '\n' !in inner)
  {
    if !OccursAt(s, i, d) then None
    else
      var k := i + |d|;
      var close := FindClose(s, k, d, !code);
      if close.None? || (code && close.value == k) then None
      else
        var j := close.value;
        SpanShape(s, i, d, j);
        if !code then NoNewlineBetween(s, k, j); Some((s[k..j], j + |d|))
        else Some((s[k..j], j + |d|))
  }

  /** The link's text and url lie between first closers. */
  lemma LinkShape(s: string, i: nat, j: nat, e: nat)
    requires i < j < e < |s| && s[i] == '[' && s[j] == ']' && s[j + 1] == '(' && s[e] == ')'
    requires forall m :: i + 1 <= m < j ==> !OccursAt(s, m, "]")
    requires forall m :: j + 2 <= m < e ==> !OccursAt(s, m, ")")
    ensures s[i..e + 1] == "[" + s[i + 1..j] + "](" + s[j + 2..e] + ")"
    ensures ']' !in s[i + 1..j] && ')' !in s[j + 2..e]
  {
    var text := s[i + 1..j];
    var url := s[j + 2..e];
    forall m | 0 <= m < |text| ensures text[m] != ']' {
      assert !OccursAt(s, i + 1 + m, "]");
    }
    forall m | 0 <= m < |url| ensures url[m] != ')' {
      assert !OccursAt(s, j + 2 + m, ")");
    }
    assert s[i..e + 1] == [s[i]] + text + [s[j], s[j + 1]] + url + [s[e]];
  }

  /** The link pattern at `i`: '[', a non-empty text up to the first ']',
      then "(", a non-empty url up to the first ')', then ")". */
  function LinkAt(s: string, i: nat): (r: Option<(string, string, nat)>)
    requires i < |s|
    ensures r.Some? ==> var (text, url, e) := r.value;
      && i < e <= |s|
      && s[i..e] == "[" + text + "](" + url + ")"
      && text != [] && ']' !in text
      && url != [] && ')' !in url
  {
    if s[i] != '[' then None
    else
      var close := FindClose(s, i + 1, "]", false);
      if close.None? || close.value == i + 1 || close.value + 1 >= |s| || s[close.value + 1] != '(' then None
      else
        var j := close.value;
        var paren := FindClose(s, j + 2, ")", false);
        if paren.None? || paren.value == j + 2 then None
        else
          var e := paren.value;
          assert s[j] == ']' && s[e] == ')' by {
            assert s[j..j + 1] == "]" && s[e..e + 1] == ")";
          }
          LinkShape(s, i, j, e);
          Some((s[i + 1..j], s[j + 2..e], e + 1))
  }

  /** The match of `p` that starts at `i`, if any, and where it ends. */
  function MatchAt(s: string, i: nat, p: Pass): (r: Option<(Token, nat)>)
    requires i < |s| && WellFormed(p)
    ensures r.Some? ==> i < r.value.1 <= |s| && Source(r.value.0, p) == s[i..r.value.1] && !r.value.0.Lit?
    ensures r.Some? && p.Span? ==> OccursAt(s, i, p.delim)
    ensures r.Some? && p.Links? ==> s[i] == '['
  {
    match p
    case Span(d, code, _) =>
      var m := SpanAt(s, i, d, code);
      if m.None? then None else Some((Delim(m.value.0), m.value.1))
    case Links =>
      var m := LinkAt(s, i);
      if m.None? then None else Some((LinkTok(m.value.0, m.value.1), m.value.2))
  }

  /** ReplaceAllStringFunc's scan: leftmost match first, the next search
      starting where it ended. Cutting loses nothing: the tokens' sources
      put together are the input. */
  function Tokenize(s: string, i: nat, p: Pass): (ts: seq<Token>)
    requires i <= |s| && WellFormed(p)
    ensures Sources(ts, p) == s[i..]
    decreases |s| - i
  {
    if i == |s| then []
    else
      match MatchAt(s, i, p)
      case Some((t, e)) =>
        var rest := Tokenize(s, e, p);
        assert s[i..] == s[i..e] + s[e..];
        assert ([t] + rest)[1..] == rest;
        [t] + rest
      case None =>
        var rest := Tokenize(s, i + 1, p);
        assert s[i..] == [s[i]] + s[i + 1..];
        assert ([Lit(s[i])] + rest)[1..] == rest;
        [Lit(s[i])] + rest
  }

  /** The replacement text of one token. */
  function Styled(t: Token, p: Pass): string {
    match t
    case Lit(c) => [c]
    case Delim(inner) => Render(if p.Span? then p.style else Plain(Text), inner)
    case LinkTok(text, url) => Render(Bold(Info), text) + " " + Render(Plain(Info), "(" + url + ")")
  }

  function Emit(ts: seq<Token>, p: Pass): string
    decreases |ts|
  {
    if ts == [] then "" else Styled(ts[0], p) + Emit(ts[1..], p)
  }

  /** One ReplaceAllStringFunc call. */
  function ApplyPass(s: string, p: Pass): string
    requires WellFormed(p)
  {
    Emit(Tokenize(s, 0, p), p)
  }

  /** applyInlineFormatting: the passes in order. */
  function ApplyPasses(s: string, ps: seq<Pass>): string
    requires forall k :: 0 <= k < |ps| ==> WellFormed(ps[k])
    decreases |ps|
  {
    if ps == [] then s else ApplyPasses(ApplyPass(s, ps[0]), ps[1..])
  }

  function ApplyInline(s: string): string {
    ApplyPasses(s, Passes)
  }

  /** The character a pass looks for first. */
  function Opener(p: Pass): char
    requires WellFormed(p)
  {
    if p.Links? then '[' else p.delim[0]
  }

  lemma {:induction false} TokenizeLiteral(s: string, i: nat, p: Pass)
    requires i <= |s| && WellFormed(p) && Opener(p) !in s
    ensures Emit(Tokenize(s, i, p), p) == s[i..]
    decreases |s| - i
  {
    if i < |s| {
      assert s[i] in s;
      assert p.Span? ==> !OccursAt(s, i, p.delim) by {
        assert p.Span? && i + |p.delim| <= |s| ==> s[i..i + |p.delim|][0] == s[i];
      }
      TokenizeLiteral(s, i + 1, p);
      var ts := Tokenize(s, i, p);
      assert ts[1..] == Tokenize(s, i + 1, p);
      assert s[i..] == [s[i]] + s[i + 1..];
    }
  }

  /** A pass leaves text without its opening character unchanged. */
  lemma PassWithoutOpener(s: string, p: Pass)
    requires WellFormed(p) && Opener(p) !in s
    ensures ApplyPass(s, p) == s
  {
    TokenizeLiteral(s, 0, p);
  }

  lemma {:induction false} PassesWithoutOpeners(s: string, ps: seq<Pass>)
    requires forall k :: 0 <= k < |ps| ==> WellFormed(ps[k]) && Opener(ps[k]) !in s
    ensures ApplyPasses(s, ps) == s
    decreases |ps|
  {
    if ps != [] {
      PassWithoutOpener(s, ps[0]);
      PassesWithoutOpeners(s, ps[1..]);
    }
  }

  /** Text holding none of '[', '*', '_' and '`' is left unchanged. */
  lemma InlineWithoutDelimiters(s: string)
    requires '[' !in s && '*' !in s && '_' !in s && '`' !in s
    ensures ApplyInline(s) == s
  {
    PassesWithoutOpeners(s, Passes);
  }

  predicate Blank(s: string) {
    forall i :: 0 <= i < |s| ==> s[i] == ' '
  }

  lemma BlankConcat(a: string, b: string)
    ensures Blank(a + b) <==> Blank(a) && Blank(b)
  {
    if Blank(a + b) {
      forall i | 0 <= i < |b| ensures b[i] == ' ' {
        assert (a + b)[|a| + i] == b[i];
      }
      forall i | 0 <= i < |a| ensures a[i] == ' ' {
        assert (a + b)[i] == a[i];
      }
    }
    if Blank(a) && Blank(b) {
      forall i | 0 <= i < |a + b| ensures (a + b)[i] == ' ' {
        if i >= |a| { assert (a + b)[i] == b[i - |a|]; }
      }
    }
  }

  lemma {:induction false} BlankEmit(ts: seq<Token>, p: Pass)
    ensures Blank(Emit(ts, p)) ==> Blank(Sources(ts, p))
    decreases |ts|
  {
    if ts != [] {
      BlankEmit(ts[1..], p);
      BlankConcat(Styled(ts[0], p), Emit(ts[1..], p));
      if ts[0].Lit? {
        BlankConcat(Source(ts[0], p), Sources(ts[1..], p));
      } else {
        assert Styled(ts[0], p)[0] == Esc;
      }
    }
  }

  /** A pass never turns text with a non-space character into blank text:
      kept characters stay and every replacement starts with ESC. */
  lemma PassKeepsNonBlank(s: string, p: Pass)
    requires WellFormed(p) && !Blank(s)
    ensures !Blank(ApplyPass(s, p))
  {
    BlankEmit(Tokenize(s, 0, p), p);
    assert s[0..] == s;
  }

  lemma {:induction false} PassesKeepNonBlank(s: string, ps: seq<Pass>)
    requires forall k :: 0 <= k < |ps| ==> WellFormed(ps[k])
    requires !Blank(s)
    ensures !Blank(ApplyPasses(s, ps))
    decreases |ps|
  {
    if ps != [] {
      PassKeepsNonBlank(s, ps[0]);
      PassesKeepNonBlank(ApplyPass(s, ps[0]), ps[1..]);
    }
  }

  /** Inline formatting of text with a non-space character keeps one. */
  lemma InlineKeepsNonBlank(s: string)
    requires !Blank(s)
    ensures !Blank(ApplyInline(s))
  {
    PassesKeepNonBlank(s, Passes);
  }
}
