/** Visible width of styled text and the greedy word wrapper
    (estimateVisibleLength and wrapLine of markdown/markdown.go). An escape
    run starts at ESC and ends at the next 'm' inclusive; it has no width.
    That covers every SGR sequence of ECMA-48 section 8.3.117, but any
    ESC-to-'m' run counts the same. */
module VisibleWidth {
  import opened Strings
  import opened Styles

  /** Visible characters of `s` when the scan starts inside (`esc`) or
      outside an escape run. */
  function VisFrom(s: string, esc: bool): nat
    decreases |s|
  {
    if s == [] then 0
    else if esc then VisFrom(s[1..], s[0] != 'm')
    else if s[0] == Esc then VisFrom(s[1..], true)
    else 1 + VisFrom(s[1..], false)
  }

  /** Whether the scan is inside an escape run after reading `s`. */
  function EndState(s: string, esc: bool): bool
    decreases |s|
  {
    if s == [] then esc
    else if esc then EndState(s[1..], s[0] != 'm')
    else EndState(s[1..], s[0] == Esc)
  }

  function Visible(s: string): nat {
    VisFrom(s, false)
  }

  lemma {:induction false} VisConcat(a: string, b: string, esc: bool)
    ensures VisFrom(a + b, esc) == VisFrom(a, esc) + VisFrom(b, EndState(a, esc))
    decreases |a|
  {
    if a != [] {
      assert (a + b)[1..] == a[1..] + b;
      VisConcat(a[1..], b, if esc then a[0] != 'm' else a[0] == Esc);
    } else {
      assert a + b == b;
    }
  }

  /** Starting inside an escape run never shows more than starting outside. */
  lemma {:induction false} VisEscBound(s: string)
    ensures VisFrom(s, true) <= VisFrom(s, false)
    decreases |s|
  {
    if s != [] {
      VisEscBound(s[1..]);
    }
  }

  /** Gluing two pieces never shows more than the pieces apart: the first
      may leave an escape run open that swallows part of the second. */
  lemma VisSubadditive(a: string, b: string)
    ensures Visible(a + b) <= Visible(a) + Visible(b)
  {
    VisConcat(a, b, false);
    VisEscBound(b);
  }

  lemma {:induction false} VisBoundedBy(s: string, esc: bool)
    ensures VisFrom(s, esc) <= |s|
    decreases |s|
  {
    if s != [] {
      VisBoundedBy(s[1..], if esc then s[0] != 'm' else s[0] == Esc);
    }
  }

  /** The visible width never exceeds the rune count. */
  lemma VisibleAtMostLength(s: string)
    ensures Visible(s) <= |s|
  {
    VisBoundedBy(s, false);
  }

  /** Without ESC the visible width is the rune count. */
  lemma {:induction false} VisibleWithoutEsc(s: string)
    requires Esc !in s
    ensures Visible(s) == |s|
    decreases |s|
  {
    if s != [] {
      assert s[0] in s;
      assert forall x :: x in s[1..] ==> x in s;
      VisibleWithoutEsc(s[1..]);
    }
  }

  lemma {:induction false} NoCloseStaysHidden(b: string)
    requires 'm' !in b
    ensures VisFrom(b, true) == 0 && EndState(b, true)
    decreases |b|
  {
    if b != [] {
      assert b[0] in b;
      assert forall x :: x in b[1..] ==> x in b;
      NoCloseStaysHidden(b[1..]);
    }
  }

  /** An ESC never followed by 'm' hides everything after it. */
  lemma UnterminatedEscHides(a: string, b: string)
    requires 'm' !in b
    ensures Visible(a + [Esc] + b) == Visible(a)
  {
    VisConcat(a, [Esc] + b, false);
    assert a + [Esc] + b == a + ([Esc] + b);
    assert ([Esc] + b)[1..] == b;
    NoCloseStaysHidden(b);
  }

  lemma {:induction false} InsideRunInvisible(r: string, k: nat)
    requires 1 <= k < |r| && r[|r| - 1] == 'm'
    requires forall i :: 1 <= i < |r| - 1 ==> r[i] != 'm'
    ensures VisFrom(r[k..], true) == 0 && EndState(r[k..], true) == false
    decreases |r| - k
  {
    assert r[k..][1..] == r[k + 1..];
    if k < |r| - 1 {
      InsideRunInvisible(r, k + 1);
    }
  }

  /** A complete escape run has no width and closes itself, whatever state
      the scan was in before it. */
  lemma EscapeRunInvisible(r: string, esc: bool)
    requires |r| >= 2 && r[0] == Esc && r[|r| - 1] == 'm'
    requires forall i :: 1 <= i < |r| - 1 ==> r[i] != 'm'
    ensures VisFrom(r, esc) == 0 && EndState(r, esc) == false
  {
    InsideRunInvisible(r, 1);
  }

  /** Styling adds no visible width. */
  lemma RenderInvisible(st: Style, t: string)
    ensures Visible(Render(st, t)) == Visible(t)
  {
    var g := Sgr(st);
    EscapeRunInvisible(g, false);
    EscapeRunInvisible(Reset, EndState(t, false));
    VisConcat(g, t + Reset, false);
    VisConcat(t, Reset, false);
    assert Render(st, t) == g + (t + Reset);
  }

  lemma {:induction false} EndStateConcat(a: string, b: string, esc: bool)
    ensures EndState(a + b, esc) == EndState(b, EndState(a, esc))
    decreases |a|
  {
    if a != [] {
      assert (a + b)[1..] == a[1..] + b;
      EndStateConcat(a[1..], b, if esc then a[0] != 'm' else a[0] == Esc);
    } else {
      assert a + b == b;
    }
  }

  /** Styled text ends outside any escape run, so what follows it is
      counted in full. */
  lemma RenderThenText(st: Style, t: string, rest: string)
    ensures Visible(Render(st, t) + rest) == Visible(t) + Visible(rest)
  {
    RenderInvisible(st, t);
    EscapeRunInvisible(Reset, EndState(Sgr(st) + t, false));
    EndStateConcat(Sgr(st) + t, Reset, false);
    VisConcat(Render(st, t), rest, false);
  }

  // ---------------------------------------------------------------------
  // Greedy word wrapping

  /** The greedy packing loop of wrapLine over the remaining `words`:
      `acc` holds the finished lines, `cur` the line being filled and
      `curLen` the visible length the loop believes `cur` has. */
  function WrapWords(words: seq<string>, width: int, acc: seq<string>, cur: string, curLen: nat): seq<string>
    decreases |words|
  {
    if words == [] then
      if cur != "" then acc + [cur] else acc
    else
      var w := words[0];
      var wl := Visible(w);
      if curLen > 0 && curLen + 1 + wl > width then
        WrapWords(words[1..], width, acc + [cur], w, wl)
      else if curLen > 0 then
        WrapWords(words[1..], width, acc, cur + " " + w, curLen + 1 + wl)
      else
        WrapWords(words[1..], width, acc, cur + w, curLen + wl)
  }

  /** wrapLine: a line that fits is returned alone; otherwise its
      space-separated words are packed greedily. */
  function Wrap(line: string, width: int): seq<string> {
    if Visible(line) <= width then [line]
    else WrapWords(Split(line, ' '), width, [], "", 0)
  }

  /** A wrapped line either fits or has no space at which it could be broken. */
  predicate Fits(r: string, width: int) {
    Visible(r) <= width || ' ' !in r
  }

  lemma VisibleSpace()
    ensures Visible(" ") == 1
  {
    assert " "[1..] == [];
  }

  lemma {:induction false} WrapWordsFit(words: seq<string>, width: int, acc: seq<string>, cur: string, curLen: nat)
    requires forall k :: 0 <= k < |words| ==> ' ' !in words[k]
    requires forall r :: r in acc ==> Fits(r, width)
    requires Visible(cur) <= curLen
    requires ' ' in cur ==> 0 < curLen <= width
    ensures forall r :: r in WrapWords(words, width, acc, cur, curLen) ==> Fits(r, width)
    decreases |words|
  {
    if words != [] {
      var w := words[0];
      var wl := Visible(w);
      assert ' ' !in w;
      if curLen > 0 && curLen + 1 + wl > width {
        WrapWordsFit(words[1..], width, acc + [cur], w, wl);
      } else if curLen > 0 {
        VisSubadditive(cur, " ");
        VisSubadditive(cur + " ", w);
        VisibleSpace();
        WrapWordsFit(words[1..], width, acc, cur + " " + w, curLen + 1 + wl);
      } else {
        VisSubadditive(cur, w);
        assert ' ' !in cur + w;
        WrapWordsFit(words[1..], width, acc, cur + w, curLen + wl);
      }
    }
  }

  /** Every wrapped line fits the width, except a line that holds no space
      (a word wider than the width, possibly after zero-width words). */
  lemma WrapFits(line: string, width: int)
    ensures forall r :: r in Wrap(line, width) ==> Fits(r, width)
  {
    if Visible(line) > width {
      WrapWordsFit(Split(line, ' '), width, [], "", 0);
    }
  }

  predicate PositiveWords(words: seq<string>) {
    forall k :: 0 <= k < |words| ==> Visible(words[k]) > 0
  }

  lemma {:induction false} WrapWordsOversized(all: seq<string>, words: seq<string>, width: int, acc: seq<string>, cur: string, curLen: nat)
    requires PositiveWords(words)
    requires forall k :: 0 <= k < |words| ==> words[k] in all
    requires forall r :: r in acc ==> Visible(r) <= width || r in all
    requires curLen == 0 ==> cur == ""
    requires Visible(cur) <= curLen
    requires curLen > 0 ==> cur in all || curLen <= width
    ensures forall r :: r in WrapWords(words, width, acc, cur, curLen) ==> Visible(r) <= width || r in all
    decreases |words|
  {
    if words != [] {
      var w := words[0];
      var wl := Visible(w);
      assert w in all;
      if curLen > 0 && curLen + 1 + wl > width {
        WrapWordsOversized(all, words[1..], width, acc + [cur], w, wl);
      } else if curLen > 0 {
        VisSubadditive(cur, " ");
        VisSubadditive(cur + " ", w);
        VisibleSpace();
        WrapWordsOversized(all, words[1..], width, acc, cur + " " + w, curLen + 1 + wl);
      } else {
        assert cur + w == w;
        WrapWordsOversized(all, words[1..], width, acc, cur + w, curLen + wl);
      }
    }
  }

  /** When every word has visible width, a wrapped line wider than the
      width is one of the line's words, alone. */
  lemma WrapOversizedIsWord(line: string, width: int)
    requires PositiveWords(Split(line, ' '))
    ensures forall r :: r in Wrap(line, width) ==> Visible(r) <= width || r in Split(line, ' ')
  {
    if Visible(line) > width {
      var words := Split(line, ' ');
      WrapWordsOversized(words, words, width, [], "", 0);
    }
  }

  lemma JoinCons(x: string, l: seq<string>, sep: string)
    requires |l| >= 1
    ensures Join([x] + l, sep) == x + sep + Join(l, sep)
  {
    assert ([x] + l)[1..] == l;
  }

  lemma {:induction false} JoinMerge(xs: seq<string>, a: string, b: string, ys: seq<string>, sep: string)
    ensures Join(xs + [a + sep + b] + ys, sep) == Join(xs + [a, b] + ys, sep)
    decreases |xs|
  {
    if xs == [] {
      assert xs + [a + sep + b] + ys == [a + sep + b] + ys;
      assert xs + [a, b] + ys == [a] + ([b] + ys);
      JoinCons(a, [b] + ys, sep);
      if ys != [] {
        JoinCons(a + sep + b, ys, sep);
        JoinCons(b, ys, sep);
      }
    } else {
      JoinMerge(xs[1..], a, b, ys, sep);
      assert xs + [a + sep + b] + ys == [xs[0]] + (xs[1..] + [a + sep + b] + ys);
      assert xs + [a, b] + ys == [xs[0]] + (xs[1..] + [a, b] + ys);
      JoinCons(xs[0], xs[1..] + [a + sep + b] + ys, sep);
      JoinCons(xs[0], xs[1..] + [a, b] + ys, sep);
    }
  }

  lemma {:induction false} WrapWordsJoin(words: seq<string>, width: int, acc: seq<string>, cur: string, curLen: nat)
    requires PositiveWords(words)
    requires cur != "" && curLen > 0
    ensures Join(WrapWords(words, width, acc, cur, curLen), " ") == Join(acc + [cur] + words, " ")
    decreases |words|
  {
    if words == [] {
      assert acc + [cur] + words == acc + [cur];
    } else {
      var w := words[0];
      var wl := Visible(w);
      if curLen + 1 + wl > width {
        WrapWordsJoin(words[1..], width, acc + [cur], w, wl);
        assert acc + [cur] + [w] + words[1..] == acc + [cur] + words;
      } else {
        WrapWordsJoin(words[1..], width, acc, cur + " " + w, curLen + 1 + wl);
        JoinMerge(acc, cur, w, words[1..], " ");
        assert acc + [cur, w] + words[1..] == acc + [cur] + words;
      }
    }
  }

  /** wrapLine breaks only at single spaces: when every space-separated
      word has visible width, joining the lines with " " gives the input
      back, so no escape run without spaces is ever split. */
  lemma WrapJoin(line: string, width: int)
    requires PositiveWords(Split(line, ' '))
    ensures Join(Wrap(line, width), " ") == line
  {
    JoinSplit(line, ' ');
    if Visible(line) > width {
      var words := Split(line, ' ');
      var w := words[0];
      assert Visible(w) > 0;
      assert w != "";
      assert "" + w == w;
      assert Wrap(line, width) == WrapWords(words[1..], width, [], w, Visible(w));
      WrapWordsJoin(words[1..], width, [], w, Visible(w));
      assert [] + [w] + words[1..] == words;
    }
  }

  lemma {:induction false} WrapWordsNonEmpty(words: seq<string>, width: int, acc: seq<string>, cur: string, curLen: nat)
    requires acc != [] || cur != "" || exists k :: 0 <= k < |words| && words[k] != ""
    ensures WrapWords(words, width, acc, cur, curLen) != []
    decreases |words|
  {
    if words != [] {
      var w := words[0];
      var wl := Visible(w);
      if !(acc != [] || cur != "" || w != "") {
        var k :| 0 <= k < |words| && words[k] != "";
        assert words[1..][k - 1] == words[k];
      }
      if curLen > 0 && curLen + 1 + wl > width {
        WrapWordsNonEmpty(words[1..], width, acc + [cur], w, wl);
      } else if curLen > 0 {
        assert cur + " " + w != "";
        WrapWordsNonEmpty(words[1..], width, acc, cur + " " + w, curLen + 1 + wl);
      } else {
        assert cur != "" || w != "" ==> cur + w != "";
        WrapWordsNonEmpty(words[1..], width, acc, cur + w, curLen + wl);
      }
    }
  }

  lemma {:induction false} JoinMembers(parts: seq<string>, sep: string, x: char)
    requires x in Join(parts, sep)
    ensures x in sep || exists k :: 0 <= k < |parts| && x in parts[k]
    decreases |parts|
  {
    if |parts| > 1 {
      if x !in parts[0] && x !in sep {
        JoinMembers(parts[1..], sep, x);
        var k :| 0 <= k < |parts| - 1 && x in parts[1..][k];
        assert parts[k + 1] == parts[1..][k];
      }
    }
  }

  /** A line holding a character other than ' ' wraps to at least one line,
      so the renderers' `wrappedLines[0]` is defined for it. */
  lemma WrapNonEmpty(line: string, width: int, i: nat)
    requires i < |line| && line[i] != ' '
    ensures Wrap(line, width) != []
  {
    if Visible(line) > width {
      var words := Split(line, ' ');
      JoinSplit(line, ' ');
      assert line[i] in Join(words, [' ']);
      JoinMembers(words, [' '], line[i]);
      WrapWordsNonEmpty(words, width, [], "", 0);
    }
  }
}
