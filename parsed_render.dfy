/** The renderers over lines that ParseLines produced: the two loops keep
    the same fence state as the classifier, so every line they show
    outside a block was typed outside a fence, and such a line never
    wraps to nothing (the renderers read `wrappedLines[0]` unguarded). */
module ParsedRender {
  import opened Strings
  import opened Styles
  import opened MarkdownLines
  import opened VisibleWidth
  import opened Inline
  import opened Render

  /** What the classifier guarantees of a line it types outside a fence:
      no code, no fence, a Normal line holds a non-space character and a
      header's text starts with one (or is empty). */
  predicate OutsideShape(line: Line) {
    && line.kind != Code && line.kind != CodeFence
    && (line.kind == Normal ==> !AllSpace(line.content))
    && (line.kind == Header ==> line.content == [] || !IsSpace(line.content[0]))
  }

  lemma ClassifiedOutsideShape(p: string, st: FenceState)
    requires !st.inCode && !HasPrefix(p, Fence)
    ensures OutsideShape(ClassifyLine(p, st).0)
  {
    ClassifyOutside(p, st);
    ClassifyKeepsText(p, st);
  }

  /** The pieces shown outside a block all have the classifier's shape. */
  predicate ShownOutside(ps: seq<Piece>) {
    forall k :: 0 <= k < |ps| && ps[k].Shown? ==> OutsideShape(ps[k].line)
  }

  lemma ShownOutsideSnoc(ps: seq<Piece>, more: seq<Piece>)
    requires ShownOutside(ps) && ShownOutside(more)
    ensures ShownOutside(ps + more)
  {
    forall k | 0 <= k < |ps + more| && (ps + more)[k].Shown?
      ensures OutsideShape((ps + more)[k].line)
    {
      if k < |ps| {
        assert (ps + more)[k] == ps[k];
      } else {
        assert (ps + more)[k] == more[k - |ps|];
      }
    }
  }

  /** The classifier's view of one piece: fences are exactly the pieces
      starting with ```, only they toggle the state. */
  lemma ClassifyToggles(p: string, st: FenceState)
    ensures ClassifyLine(p, st).0.kind == CodeFence <==> HasPrefix(p, Fence)
    ensures ClassifyLine(p, st).1.inCode == (st.inCode != HasPrefix(p, Fence))
  {
  }

  /** One line of the renderers' loop over a line of that kind. */
  lemma StepTracks(st: RenderState, i: int, line: Line)
    requires ShownOutside(st.pieces)
    requires !st.inCode && line.kind != CodeFence ==> OutsideShape(line)
    ensures line.kind == CodeFence ==> Step(st, i, line).inCode == !st.inCode
    ensures line.kind != CodeFence ==> Step(st, i, line).inCode == st.inCode
    ensures ShownOutside(Step(st, i, line).pieces)
  {
    var r := Step(st, i, line);
    if line.kind == CodeFence {
      var more := r.pieces[|st.pieces|..];
      assert r.pieces == st.pieces + more;
      assert forall k :: 0 <= k < |more| ==> !more[k].Shown?;
      ShownOutsideSnoc(st.pieces, more);
    } else if !st.inCode {
      ShownOutsideSnoc(st.pieces, [Shown(i, line)]);
    }
  }

  /** Whether line n lies inside a fence, judged from the line types alone. */
  function InFence(lines: seq<Line>, n: nat): bool
    requires n <= |lines|
  {
    if n == 0 then false
    else if lines[n - 1].kind == CodeFence then !InFence(lines, n - 1)
    else InFence(lines, n - 1)
  }

  /** The lines typed outside a fence, other than fences, have the outside shape. */
  predicate Classified(lines: seq<Line>) {
    forall i :: 0 <= i < |lines| && !InFence(lines, i) && lines[i].kind != CodeFence ==> OutsideShape(lines[i])
  }

  /** What one classified line says about the fence state around it. */
  predicate StepFacts(line: Line, before: bool, after: bool) {
    && (line.kind == CodeFence ==> after == !before)
    && (line.kind != CodeFence ==> after == before)
    && (!before && line.kind != CodeFence ==> OutsideShape(line))
  }

  /** `lines` agrees, line by line, with a run of fence states that starts
      outside a fence. */
  predicate ClassifiedFrom(lines: seq<Line>, states: seq<bool>) {
    |states| == |lines| + 1 && !states[0]
    && forall k :: 0 <= k < |lines| ==> StepFacts(lines[k], states[k], states[k + 1])
  }

  lemma ClassifyStep(p: string, before: FenceState, line: Line, after: FenceState)
    requires (line, after) == ClassifyLine(p, before)
    ensures StepFacts(line, before.inCode, after.inCode)
  {
    ClassifyToggles(p, before);
    if !before.inCode && !HasPrefix(p, Fence) {
      ClassifiedOutsideShape(p, before);
    }
  }

  lemma ParsedStepFacts(pieces: seq<string>, k: nat)
    requires 0 < k <= |pieces|
    ensures StepFacts(ParsePieces(pieces)[k - 1], StateBefore(pieces, k - 1).inCode, StateBefore(pieces, k).inCode)
  {
    var before := StateBefore(pieces, k - 1);
    var c := ClassifyLine(pieces[k - 1], before);
    assert ParsePieces(pieces)[k - 1] == c.0;
    assert StateBefore(pieces, k) == c.1;
    ClassifyStep(pieces[k - 1], before, c.0, c.1);
  }

  lemma {:induction false} InFenceParsed(lines: seq<Line>, states: seq<bool>, n: nat)
    requires ClassifiedFrom(lines, states) && n <= |lines|
    ensures InFence(lines, n) == states[n]
  {
    if n == 0 {
      assert !InFence(lines, n);
    } else {
      InFenceParsed(lines, states, n - 1);
      var k := n - 1;
      assert StepFacts(lines[k], states[k], states[k + 1]);
      InFenceNext(lines, n, states[k], states[k + 1]);
    }
  }

  lemma InFenceNext(lines: seq<Line>, n: nat, before: bool, after: bool)
    requires 0 < n <= |lines|
    requires InFence(lines, n - 1) == before && StepFacts(lines[n - 1], before, after)
    ensures InFence(lines, n) == after
  {
  }

  /** ParseLines' output is classified. */
  lemma ParseClassified(pieces: seq<string>)
    ensures Classified(ParsePieces(pieces))
  {
    var lines := ParsePieces(pieces);
    var states := seq(|pieces| + 1, k requires 0 <= k <= |pieces| => StateBefore(pieces, k).inCode);
    forall k | 0 <= k < |lines|
      ensures StepFacts(lines[k], states[k], states[k + 1])
    {
      ParsedStepFacts(pieces, k + 1);
    }
    assert ClassifiedFrom(lines, states);
    forall i | 0 <= i < |lines| && !InFence(lines, i) && lines[i].kind != CodeFence
      ensures OutsideShape(lines[i])
    {
      InFenceParsed(lines, states, i);
      assert StepFacts(lines[i], states[i], states[i + 1]);
    }
  }

  /** The renderers' fence state after n classified lines is InFence, and
      every line they have shown so far has the outside shape. */
  lemma {:induction false} FoldTracksParse(lines: seq<Line>, n: nat)
    requires n <= |lines| && Classified(lines)
    ensures Fold(lines, n).inCode == InFence(lines, n)
    ensures ShownOutside(Fold(lines, n).pieces)
  {
    if n > 0 {
      FoldTracksParse(lines, n - 1);
      StepTracks(Fold(lines, n - 1), n - 1, lines[n - 1]);
    }
  }

  lemma NonBlankContent(s: string, i: nat)
    requires i < |s| && !IsSpace(s[i])
    ensures !Blank(s)
  {
    assert s[i] != ' ';
  }

  /** A line of the outside shape is never wrapped to an empty slice. */
  lemma OutsideNeverEmptyWrap(cfg: Config, view: View, line: Line)
    requires OutsideShape(line)
    ensures !EmptyWrap(cfg, view, line)
  {
    var f := FormatLine(line);
    if Wrapped(cfg, view, line) {
      if line.kind == Header && 1 <= line.headerLevel <= 6 {
        assert f[0] == Esc;
        WrapNonEmpty(f, Avail(view), 0);
      } else {
        assert line.kind == Normal || line.kind == Header;
        assert f == ApplyInline(line.content);
        if line.content == [] {
          InlineWithoutDelimiters(line.content);
          assert false;
        }
        if line.kind == Normal {
          var i :| 0 <= i < |line.content| && !IsSpace(line.content[i]);
          NonBlankContent(line.content, i);
        } else {
          NonBlankContent(line.content, 0);
        }
        InlineKeepsNonBlank(line.content);
        var j :| 0 <= j < |f| && f[j] != ' ';
        WrapNonEmpty(f, Avail(view), j);
      }
    }
  }

  /** For a parsed note, no line either renderer shows outside a block
      wraps to nothing, so the first wrapped line always exists. */
  lemma ParsedNeverEmptyWrap(cfg: Config, view: View, content: string)
    ensures var lines := Parse(content);
      var ps := Fold(lines, |lines|).pieces;
      forall k :: 0 <= k < |ps| && ps[k].Shown? ==> !EmptyWrap(cfg, view, ps[k].line)
  {
    var lines := Parse(content);
    ParseClassified(Split(content, '\n'));
    FoldTracksParse(lines, |lines|);
    var ps := Fold(lines, |lines|).pieces;
    forall k | 0 <= k < |ps| && ps[k].Shown?
      ensures !EmptyWrap(cfg, view, ps[k].line)
    {
      OutsideNeverEmptyWrap(cfg, view, ps[k].line);
    }
  }
}
