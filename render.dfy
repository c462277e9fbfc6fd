/** The two renderers of markdown/markdown.go, Render and
    RenderPreservingAll, as one fold over the classified lines. The fold
    collects fenced lines into a block, flushes the block through the
    highlighter at the closing fence, and formats, numbers and wraps every
    other line. What tells the renderers apart is a Config. */
module Render {
  import opened Strings
  import opened Styles
  import opened MarkdownLines
  import opened VisibleWidth
  import opened Inline
  import opened Highlight

  /** The model fields the renderers read. */
  datatype View = View(width: int, lineNumbers: bool)

  /** keepFences: fence lines are shown; codeShift: added to i - k + j to
      number code line j of a k-line block closed at index i; wrapCode:
      Code-typed lines met outside a block are wrapped too. */
  datatype Config = Config(keepFences: bool, codeShift: int, wrapCode: bool)

  /** Render. */
  const Compact: Config := Config(false, 1, false)
  /** RenderPreservingAll as written: code lines numbered i - k + j. */
  const PreservingAsWritten: Config := Config(true, 0, true)
  /** RenderPreservingAll numbering code lines by position, as Render does. */
  const Preserving: Config := Config(true, 1, true)

  /** One output line before styling of the gutter: a numbered line, or a
      continuation of a wrapped line. */
  datatype Row = Numbered(num: int, text: string) | Continuation(text: string)

  /** What the loop decides to write, in order: a line shown outside a
      block, a fence line, or the flush of a k-line block at the closing
      fence. How each is written is up to the renderer (PieceRows). */
  datatype Piece = Shown(i: int, line: Line) | FenceMark(i: int, line: Line) | Flush(i: int, block: seq<Line>)

  /** The loop's variables: inCodeBlock, codeBlock and what was written. */
  datatype RenderState = RenderState(inCode: bool, block: seq<Line>, pieces: seq<Piece>)

  /** The width left for text once the line-number gutter is taken off. */
  function Avail(view: View): int {
    if view.lineNumbers then view.width - 5 else view.width
  }

  /** fmt.Sprintf("%3d ", n) */
  function NumberLabel(n: int): string {
    PadLeft(IntToString(n), 3) + " "
  }

  /** addLineNumber */
  function AddLineNumber(view: View, n: int, line: string): string {
    if !view.lineNumbers then line
    else Render(Plain(Subtext0), NumberLabel(n)) + line
  }

  /** formatHeaderLine: inline formatting, then a style chosen by level;
      levels beyond 6 (and 0) stay unstyled. */
  function FormatHeader(line: Line): string {
    var content := ApplyInline(line.content);
    if line.headerLevel == 1 then Render(Bold(Primary), content)
    else if line.headerLevel == 2 then Render(Plain(Info), content)
    else if 3 <= line.headerLevel <= 6 then Render(Italic(Accent), content)
    else content
  }

  /** The text of a line shown outside a code block. */
  function FormatLine(line: Line): string {
    match line.kind
    case Header => FormatHeader(line)
    case Empty => ""
    case Comment => Render(Faint(Subtext0), line.content)
    case _ => ApplyInline(line.content)
  }

  /** Whether the renderer may wrap a line of this type. */
  predicate WrapsKind(cfg: Config, line: Line) {
    line.kind != Comment && (cfg.wrapCode || line.kind != Code)
  }

  /** The condition under which a line is wrapped. */
  predicate Wrapped(cfg: Config, view: View, line: Line) {
    var f := FormatLine(line);
    WrapsKind(cfg, line) && f != "" && Visible(f) > Avail(view)
  }

  /** A wrapped line whose wrap is empty: the source would index
      `wrappedLines[0]` of an empty slice here. */
  predicate EmptyWrap(cfg: Config, view: View, line: Line) {
    Wrapped(cfg, view, line) && Wrap(FormatLine(line), Avail(view)) == []
  }

  function Continuations(ws: seq<string>): (r: seq<Row>)
    ensures |r| == |ws|
    ensures forall j :: 0 <= j < |ws| ==> r[j] == Continuation(ws[j])
  {
    seq(|ws|, j requires 0 <= j < |ws| => Continuation(ws[j]))
  }

  /** The texts line `i` is shown as outside a code block: the numbered
      row's text, then the continuations. A wrapped line whose wrap is
      empty shows as one empty row. */
  function LineTexts(cfg: Config, view: View, line: Line): (r: seq<string>)
    ensures |r| >= 1
  {
    var f := FormatLine(line);
    if Wrapped(cfg, view, line) then
      var w := Wrap(f, Avail(view));
      if w == [] then [""] else w
    else [f]
  }

  /** The rows of line `i` shown outside a code block. */
  function LineRows(cfg: Config, view: View, line: Line, i: int): seq<Row> {
    var t := LineTexts(cfg, view, line);
    [Numbered(i + 1, t[0])] + Continuations(t[1..])
  }

  /** A wrapped line shows as its first wrapped line, numbered, and the
      rest as continuations. */
  lemma WrappedRows(cfg: Config, view: View, hl: Highlighter, i: int, line: Line)
    requires Wrapped(cfg, view, line)
    ensures var w := Wrap(FormatLine(line), Avail(view));
      PieceRows(cfg, view, hl, Shown(i, line))
      == [Numbered(i + 1, if w == [] then "" else w[0])] + Continuations(if |w| > 1 then w[1..] else [])
  {
    var w := Wrap(FormatLine(line), Avail(view));
    assert LineTexts(cfg, view, line) == if w == [] then [""] else w;
  }

  /** A line that is not wrapped shows as one numbered row. */
  lemma UnwrappedRows(cfg: Config, view: View, hl: Highlighter, i: int, line: Line)
    requires !Wrapped(cfg, view, line)
    ensures PieceRows(cfg, view, hl, Shown(i, line)) == [Numbered(i + 1, FormatLine(line))]
  {
    assert LineTexts(cfg, view, line) == [FormatLine(line)];
  }

  /** The fence line itself, when the renderer keeps fences. */
  function FenceRows(cfg: Config, line: Line, i: int): seq<Row> {
    if cfg.keepFences then [Numbered(i + 1, Render(Plain(Subtext1), line.content))] else []
  }

  /** A flushed block of k lines closed at index i: the first k of the
      highlighted lines h, indented. */
  function CodeRows(cfg: Config, h: seq<string>, k: nat, i: int): (r: seq<Row>)
    requires k <= |h|
    ensures |r| == k
  {
    seq(k, j requires 0 <= j < k => Numbered(i - k + j + cfg.codeShift, "  " + h[j]))
  }

  /** One iteration of the renderers' loop, for line `i`. Both renderers
      make the same decisions; they differ only in how pieces are written. */
  function Step(st: RenderState, i: int, line: Line): (r: RenderState)
    ensures |r.block| <= |st.block| + 1
    ensures !r.inCode ==> r.block == []
  {
    if line.kind == CodeFence then
      if !st.inCode then RenderState(true, [], st.pieces + [FenceMark(i, line)])
      else RenderState(false, [], st.pieces + [Flush(i, st.block)] + [FenceMark(i, line)])
    else if st.inCode then RenderState(true, st.block + [line], st.pieces)
    else RenderState(false, [], st.pieces + [Shown(i, line)])
  }

  /** The loop's state after the first `n` lines. */
  function Fold(lines: seq<Line>, n: nat): (r: RenderState)
    requires n <= |lines|
    ensures |r.block| <= n
  {
    if n == 0 then RenderState(false, [], [])
    else Step(Fold(lines, n - 1), n - 1, lines[n - 1])
  }

  /** The rows one piece is written as. */
  function PieceRows(cfg: Config, view: View, hl: Highlighter, p: Piece): seq<Row> {
    match p
    case Shown(i, line) => LineRows(cfg, view, line, i)
    case FenceMark(i, line) => FenceRows(cfg, line, i)
    case Flush(i, block) => CodeRows(cfg, HighlightBlock(hl, block), |block|, i)
  }

  function Rows(cfg: Config, view: View, hl: Highlighter, ps: seq<Piece>): seq<Row> {
    if ps == [] then []
    else Rows(cfg, view, hl, ps[..|ps| - 1]) + PieceRows(cfg, view, hl, ps[|ps| - 1])
  }

  function RenderRows(cfg: Config, view: View, hl: Highlighter, lines: seq<Line>): seq<Row> {
    Rows(cfg, view, hl, Fold(lines, |lines|).pieces)
  }

  /** The text written for one row. */
  function Show(row: Row, view: View): string {
    match row
    case Numbered(n, t) => AddLineNumber(view, n, t)
    case Continuation(t) => if view.lineNumbers then Render(Plain(Subtext0), "    ") + t else t
  }

  /** The builder's contents: every row followed by "\n". */
  function Assemble(rows: seq<Row>, view: View): string {
    if rows == [] then "" else Assemble(rows[..|rows| - 1], view) + Show(rows[|rows| - 1], view) + "\n"
  }

  /** The builder's contents grow by appending: writing `a` then `b` is
      writing `a + b`. */
  lemma {:induction false} AssembleConcat(a: seq<Row>, b: seq<Row>, view: View)
    ensures Assemble(a + b, view) == Assemble(a, view) + Assemble(b, view)
    decreases |b|
  {
    if b == [] {
      assert a + b == a;
    } else {
      var b' := b[..|b| - 1];
      AssembleConcat(a, b', view);
      assert (a + b)[..|a + b| - 1] == a + b';
      assert (a + b)[|a + b| - 1] == b[|b| - 1];
    }
  }

  lemma RowsSnoc(cfg: Config, view: View, hl: Highlighter, ps: seq<Piece>, p: Piece)
    ensures Rows(cfg, view, hl, ps + [p]) == Rows(cfg, view, hl, ps) + PieceRows(cfg, view, hl, p)
  {
    assert (ps + [p])[..|ps|] == ps;
  }

  lemma AssembleOne(row: Row, view: View)
    ensures Assemble([row], view) == Show(row, view) + "\n"
  {
    assert [row][..0] == [];
  }

  /** Writing one more row appends its text and a newline. */
  lemma AssemblePrefix(rows: seq<Row>, j: nat, view: View)
    requires j < |rows|
    ensures Assemble(rows[..j + 1], view) == Assemble(rows[..j], view) + Show(rows[j], view) + "\n"
  {
    assert rows[..j + 1][..j] == rows[..j];
  }

  /** The same step seen from a builder that already held `prefix`. */
  lemma AppendRow(prefix: string, rows: seq<Row>, j: nat, view: View)
    requires j < |rows|
    ensures prefix + Assemble(rows[..j], view) + Show(rows[j], view) + "\n" == prefix + Assemble(rows[..j + 1], view)
  {
    AssemblePrefix(rows, j, view);
  }

  /** Writing one more piece appends its rows' text. */
  lemma AssembleSnoc(cfg: Config, view: View, hl: Highlighter, ps: seq<Piece>, p: Piece)
    ensures Assemble(Rows(cfg, view, hl, ps + [p]), view)
            == Assemble(Rows(cfg, view, hl, ps), view) + Assemble(PieceRows(cfg, view, hl, p), view)
  {
    RowsSnoc(cfg, view, hl, ps, p);
    AssembleConcat(Rows(cfg, view, hl, ps), PieceRows(cfg, view, hl, p), view);
  }

  function RenderText(cfg: Config, view: View, hl: Highlighter, lines: seq<Line>): string {
    Assemble(RenderRows(cfg, view, hl, lines), view)
  }

  // ---------------------------------------------------------------------
  // Numbering

  /** The numbers of the numbered rows, in order. */
  function Nums(rows: seq<Row>): seq<int> {
    if rows == [] then []
    else Nums(rows[..|rows| - 1]) + (if rows[|rows| - 1].Numbered? then [rows[|rows| - 1].num] else [])
  }

  lemma {:induction false} NumsConcat(a: seq<Row>, b: seq<Row>)
    ensures Nums(a + b) == Nums(a) + Nums(b)
    decreases |b|
  {
    if b == [] {
      assert a + b == a;
    } else {
      NumsConcat(a, b[..|b| - 1]);
      assert (a + b)[..|a + b| - 1] == a + b[..|b| - 1];
    }
  }

  lemma {:induction false} NumsContinuations(ws: seq<string>)
    ensures Nums(Continuations(ws)) == []
    decreases |ws|
  {
    if ws != [] {
      NumsContinuations(ws[..|ws| - 1]);
      assert Continuations(ws)[..|ws| - 1] == Continuations(ws[..|ws| - 1]);
    }
  }

  /** Every line shown outside a block gets exactly one number, its own. */
  lemma LineRowsNumbered(cfg: Config, view: View, line: Line, i: int)
    ensures Nums(LineRows(cfg, view, line, i)) == [i + 1]
  {
    var t := LineTexts(cfg, view, line);
    NumsConcat([Numbered(i + 1, t[0])], Continuations(t[1..]));
    NumsContinuations(t[1..]);
  }

  function Range(lo: int, hi: int): (r: seq<int>)
    requires lo <= hi
    ensures |r| == hi - lo
    ensures forall j :: 0 <= j < hi - lo ==> r[j] == lo + j
  {
    seq(hi - lo, j requires 0 <= j < hi - lo => lo + j)
  }

  /** A flushed block of k lines closed at index i is numbered
      i - k + codeShift up to i - 1 + codeShift, in order. */
  lemma NumsCodeRows(cfg: Config, h: seq<string>, k: nat, i: int)
    requires k <= |h|
    ensures Nums(CodeRows(cfg, h, k, i)) == Range(i - k + cfg.codeShift, i + cfg.codeShift)
  {
    NumsOfNumbered(CodeRows(cfg, h, k, i), i - k + cfg.codeShift);
  }

  lemma {:induction false} NumsOfNumbered(r: seq<Row>, lo: int)
    requires forall j :: 0 <= j < |r| ==> r[j].Numbered? && r[j].num == lo + j
    ensures Nums(r) == Range(lo, lo + |r|)
    decreases |r|
  {
    if r != [] {
      NumsOfNumbered(r[..|r| - 1], lo);
      assert Range(lo, lo + |r|) == Range(lo, lo + |r| - 1) + [lo + |r| - 1];
    }
  }

  /** The numbers of the non-fence lines among the first `m`, 1-based. */
  function NonFenceNums(lines: seq<Line>, m: nat): seq<int>
    requires m <= |lines|
  {
    if m == 0 then []
    else NonFenceNums(lines, m - 1) + (if lines[m - 1].kind != CodeFence then [m] else [])
  }

  lemma {:induction false} NonFenceNumsRun(lines: seq<Line>, a: nat, b: nat)
    requires a <= b <= |lines|
    requires forall j :: a <= j < b ==> lines[j].kind != CodeFence
    ensures NonFenceNums(lines, b) == NonFenceNums(lines, a) + Range(a + 1, b + 1)
    decreases b - a
  {
    if a < b {
      NonFenceNumsRun(lines, a, b - 1);
      assert Range(a + 1, b + 1) == Range(a + 1, b) + [b];
    }
  }

  /** The numbers the fold has produced after `n` lines, when code lines
      are numbered by position (codeShift 1). */
  function ExpectedNums(cfg: Config, lines: seq<Line>, m: nat): seq<int>
    requires m <= |lines|
  {
    if cfg.keepFences then Range(1, m + 1) else NonFenceNums(lines, m)
  }

  /** The numbers a piece is written with. */
  function PieceNums(cfg: Config, p: Piece): seq<int> {
    match p
    case Shown(i, _) => [i + 1]
    case FenceMark(i, _) => if cfg.keepFences then [i + 1] else []
    case Flush(i, block) => Range(i - |block| + cfg.codeShift, i + cfg.codeShift)
  }

  function AllNums(cfg: Config, ps: seq<Piece>): seq<int> {
    if ps == [] then [] else AllNums(cfg, ps[..|ps| - 1]) + PieceNums(cfg, ps[|ps| - 1])
  }

  lemma NumsFence(cfg: Config, line: Line, i: int)
    ensures Nums(FenceRows(cfg, line, i)) == if cfg.keepFences then [i + 1] else []
  {
    if cfg.keepFences {
      assert FenceRows(cfg, line, i)[..0] == [];
    }
  }

  /** Each piece is written with exactly the numbers PieceNums gives it. */
  lemma NumsPieceRows(cfg: Config, view: View, hl: Highlighter, p: Piece)
    ensures Nums(PieceRows(cfg, view, hl, p)) == PieceNums(cfg, p)
  {
    if p.Shown? {
      NumsShown(cfg, view, hl, p);
    } else if p.FenceMark? {
      NumsFenceMark(cfg, view, hl, p);
    } else {
      NumsFlush(cfg, view, hl, p);
    }
  }

  lemma NumsShown(cfg: Config, view: View, hl: Highlighter, p: Piece)
    requires p.Shown?
    ensures Nums(PieceRows(cfg, view, hl, p)) == PieceNums(cfg, p)
  {
    assert PieceRows(cfg, view, hl, p) == LineRows(cfg, view, p.line, p.i);
    LineRowsNumbered(cfg, view, p.line, p.i);
  }

  lemma NumsFenceMark(cfg: Config, view: View, hl: Highlighter, p: Piece)
    requires p.FenceMark?
    ensures Nums(PieceRows(cfg, view, hl, p)) == PieceNums(cfg, p)
  {
    assert PieceRows(cfg, view, hl, p) == FenceRows(cfg, p.line, p.i);
    NumsFence(cfg, p.line, p.i);
  }

  lemma NumsFlush(cfg: Config, view: View, hl: Highlighter, p: Piece)
    requires p.Flush?
    ensures Nums(PieceRows(cfg, view, hl, p)) == PieceNums(cfg, p)
  {
    FlushRows(cfg, view, hl, p);
    NumsCodeRows(cfg, HighlightBlock(hl, p.block), |p.block|, p.i);
  }

  lemma FlushRows(cfg: Config, view: View, hl: Highlighter, p: Piece)
    requires p.Flush?
    ensures |HighlightBlock(hl, p.block)| >= |p.block|
    ensures PieceRows(cfg, view, hl, p) == CodeRows(cfg, HighlightBlock(hl, p.block), |p.block|, p.i)
    ensures PieceNums(cfg, p) == Range(p.i - |p.block| + cfg.codeShift, p.i + cfg.codeShift)
  {
  }

  lemma {:induction false} NumsRows(cfg: Config, view: View, hl: Highlighter, ps: seq<Piece>)
    ensures Nums(Rows(cfg, view, hl, ps)) == AllNums(cfg, ps)
    decreases |ps|
  {
    if ps != [] {
      var init := ps[..|ps| - 1];
      NumsRows(cfg, view, hl, init);
      NumsConcat(Rows(cfg, view, hl, init), PieceRows(cfg, view, hl, ps[|ps| - 1]));
      NumsPieceRows(cfg, view, hl, ps[|ps| - 1]);
    }
  }

  lemma AllNumsSnoc(cfg: Config, ps: seq<Piece>, p: Piece)
    ensures AllNums(cfg, ps + [p]) == AllNums(cfg, ps) + PieceNums(cfg, p)
  {
    assert (ps + [p])[..|ps|] == ps;
  }

  /** The pending block is the run of non-fence lines since the opening
      fence, and it is empty outside a block. */
  predicate BlockInv(lines: seq<Line>, n: nat, st: RenderState)
    requires n <= |lines|
  {
    && |st.block| <= n
    && st.block == lines[n - |st.block|..n]
    && (forall j :: n - |st.block| <= j < n ==> lines[j].kind != CodeFence)
    && (!st.inCode ==> st.block == [])
  }

  /** The loop invariant of both renderers with positional code numbers:
      besides BlockInv, every line before the pending block has been
      numbered exactly once, in order. */
  predicate FoldInv(cfg: Config, lines: seq<Line>, n: nat, st: RenderState)
    requires n <= |lines|
  {
    BlockInv(lines, n, st) && AllNums(cfg, st.pieces) == ExpectedNums(cfg, lines, n - |st.block|)
  }

  lemma OpenKeepsInv(cfg: Config, lines: seq<Line>, n: nat, st: RenderState)
    requires 0 < n <= |lines| && lines[n - 1].kind == CodeFence && !st.inCode
    requires FoldInv(cfg, lines, n - 1, st)
    ensures FoldInv(cfg, lines, n, Step(st, n - 1, lines[n - 1]))
  {
    var m := n - 1;
    var fence := FenceMark(m, lines[m]);
    var before := AllNums(cfg, st.pieces);
    assert st.block == [] && before == ExpectedNums(cfg, lines, m);
    AllNumsSnoc(cfg, st.pieces, fence);
    var mark := if cfg.keepFences then [n] else [];
    assert AllNums(cfg, st.pieces + [fence]) == before + mark;
    ExpectedNumsNext(cfg, lines, m);
    assert Step(st, m, lines[m]) == RenderState(true, [], st.pieces + [fence]);
  }

  /** Moving past one more line adds its number, unless it is a fence
      that Render does not show. */
  lemma ExpectedNumsNext(cfg: Config, lines: seq<Line>, m: nat)
    requires m < |lines|
    ensures ExpectedNums(cfg, lines, m + 1)
            == ExpectedNums(cfg, lines, m) + (if cfg.keepFences || lines[m].kind != CodeFence then [m + 1] else [])
  {
    if cfg.keepFences {
      assert Range(1, m + 2) == Range(1, m + 1) + [m + 1];
    }
  }

  lemma CloseKeepsInv(cfg: Config, lines: seq<Line>, n: nat, st: RenderState)
    requires cfg.codeShift == 1
    requires 0 < n <= |lines| && lines[n - 1].kind == CodeFence && st.inCode
    requires FoldInv(cfg, lines, n - 1, st)
    ensures FoldInv(cfg, lines, n, Step(st, n - 1, lines[n - 1]))
  {
    var ps := st.pieces + [Flush(n - 1, st.block)] + [FenceMark(n - 1, lines[n - 1])];
    assert Step(st, n - 1, lines[n - 1]) == RenderState(false, [], ps);
    CloseNums(cfg, lines, n, st.pieces, st.block);
  }

  /** Flushing the block and passing the closing fence at n - 1 numbers
      everything up to and including line n. */
  lemma CloseNums(cfg: Config, lines: seq<Line>, n: nat, pieces: seq<Piece>, block: seq<Line>)
    requires cfg.codeShift == 1
    requires |block| < n <= |lines| && lines[n - 1].kind == CodeFence
    requires forall j :: n - 1 - |block| <= j < n - 1 ==> lines[j].kind != CodeFence
    requires AllNums(cfg, pieces) == ExpectedNums(cfg, lines, n - 1 - |block|)
    ensures AllNums(cfg, pieces + [Flush(n - 1, block)] + [FenceMark(n - 1, lines[n - 1])]) == ExpectedNums(cfg, lines, n)
  {
    ClosedPieceNums(cfg, lines, n, block);
    AllNumsSnoc2(cfg, pieces, Flush(n - 1, block), FenceMark(n - 1, lines[n - 1]));
  }

  lemma ClosedPieceNums(cfg: Config, lines: seq<Line>, n: nat, block: seq<Line>)
    requires cfg.codeShift == 1
    requires |block| < n <= |lines| && lines[n - 1].kind == CodeFence
    requires forall j :: n - 1 - |block| <= j < n - 1 ==> lines[j].kind != CodeFence
    ensures ExpectedNums(cfg, lines, n - 1 - |block|) + PieceNums(cfg, Flush(n - 1, block))
            + PieceNums(cfg, FenceMark(n - 1, lines[n - 1])) == ExpectedNums(cfg, lines, n)
  {
    ClosedNums(cfg, lines, n, |block|);
    FlushNums(cfg, n, block);
    var mark := if cfg.keepFences then [n] else [];
    assert PieceNums(cfg, FenceMark(n - 1, lines[n - 1])) == mark by {
      assert n - 1 + 1 == n;
    }
  }

  lemma AllNumsSnoc2(cfg: Config, ps: seq<Piece>, p: Piece, q: Piece)
    ensures AllNums(cfg, ps + [p] + [q]) == AllNums(cfg, ps) + PieceNums(cfg, p) + PieceNums(cfg, q)
  {
    AllNumsSnoc(cfg, ps, p);
    AllNumsSnoc(cfg, ps + [p], q);
  }

  lemma FlushNums(cfg: Config, n: int, block: seq<Line>)
    requires cfg.codeShift == 1
    ensures PieceNums(cfg, Flush(n - 1, block)) == Range(n - |block|, n)
  {
    assert n - 1 - |block| + cfg.codeShift == n - |block|;
    assert n - 1 + cfg.codeShift == n;
  }

  /** The numbers expected once the k-line block before fence n - 1 is
      flushed and the fence passed. */
  lemma ClosedNums(cfg: Config, lines: seq<Line>, n: nat, k: nat)
    requires k < n <= |lines| && lines[n - 1].kind == CodeFence
    requires forall j :: n - 1 - k <= j < n - 1 ==> lines[j].kind != CodeFence
    ensures ExpectedNums(cfg, lines, n - 1 - k) + Range(n - k, n) + (if cfg.keepFences then [n] else [])
            == ExpectedNums(cfg, lines, n)
  {
    if cfg.keepFences {
      assert Range(1, n - k) + Range(n - k, n) == Range(1, n);
      assert Range(1, n + 1) == Range(1, n) + [n];
    } else {
      NonFenceNumsRun(lines, n - 1 - k, n - 1);
      assert NonFenceNums(lines, n) == NonFenceNums(lines, n - 1);
    }
  }

  lemma CollectKeepsInv(cfg: Config, lines: seq<Line>, n: nat, st: RenderState)
    requires 0 < n <= |lines| && lines[n - 1].kind != CodeFence && st.inCode
    requires FoldInv(cfg, lines, n - 1, st)
    ensures FoldInv(cfg, lines, n, Step(st, n - 1, lines[n - 1]))
  {
    var b := st.block + [lines[n - 1]];
    assert Step(st, n - 1, lines[n - 1]) == RenderState(true, b, st.pieces);
    CollectBlock(lines, n, st);
    assert ExpectedNums(cfg, lines, n - |b|) == ExpectedNums(cfg, lines, n - 1 - |st.block|);
  }

  /** A non-fence line joins the pending block, which starts where it did. */
  lemma CollectBlock(lines: seq<Line>, n: nat, st: RenderState)
    requires 0 < n <= |lines| && lines[n - 1].kind != CodeFence && st.inCode
    requires BlockInv(lines, n - 1, st)
    ensures n - |st.block + [lines[n - 1]]| == n - 1 - |st.block|
    ensures BlockInv(lines, n, RenderState(true, st.block + [lines[n - 1]], st.pieces))
  {
    assert lines[n - 1 - |st.block|..n] == lines[n - 1 - |st.block|..n - 1] + [lines[n - 1]];
  }

  lemma ShowKeepsInv(cfg: Config, lines: seq<Line>, n: nat, st: RenderState)
    requires 0 < n <= |lines| && lines[n - 1].kind != CodeFence && !st.inCode
    requires FoldInv(cfg, lines, n - 1, st)
    ensures FoldInv(cfg, lines, n, Step(st, n - 1, lines[n - 1]))
  {
    var m := n - 1;
    var shown := Shown(m, lines[m]);
    var before := AllNums(cfg, st.pieces);
    assert st.block == [] && before == ExpectedNums(cfg, lines, m);
    AllNumsSnoc(cfg, st.pieces, shown);
    assert AllNums(cfg, st.pieces + [shown]) == before + [n];
    ExpectedNumsNext(cfg, lines, m);
    assert Step(st, m, lines[m]) == RenderState(false, [], st.pieces + [shown]);
  }

  lemma {:induction false} FoldInvariant(cfg: Config, lines: seq<Line>, n: nat)
    requires cfg.codeShift == 1 && n <= |lines|
    ensures FoldInv(cfg, lines, n, Fold(lines, n))
  {
    if n > 0 {
      FoldInvariant(cfg, lines, n - 1);
      var st := Fold(lines, n - 1);
      var line := lines[n - 1];
      if line.kind == CodeFence {
        if st.inCode {
          CloseKeepsInv(cfg, lines, n, st);
        } else {
          OpenKeepsInv(cfg, lines, n, st);
        }
      } else if st.inCode {
        CollectKeepsInv(cfg, lines, n, st);
      } else {
        ShowKeepsInv(cfg, lines, n, st);
      }
    }
  }

  /** Render numbers exactly the non-fence lines, each with its position,
      in order, and shows no fence line; the lines of a fence left open at
      the end are never flushed and vanish from the output. */
  lemma CompactNumbering(view: View, hl: Highlighter, lines: seq<Line>)
    ensures var st := Fold(lines, |lines|);
      && Nums(RenderRows(Compact, view, hl, lines)) == NonFenceNums(lines, |lines| - |st.block|)
      && (!st.inCode ==> Nums(RenderRows(Compact, view, hl, lines)) == NonFenceNums(lines, |lines|))
  {
    FoldInvariant(Compact, lines, |lines|);
    NumsRows(Compact, view, hl, Fold(lines, |lines|).pieces);
  }

  /** RenderPreservingAll with positional code numbers shows every line
      once, numbered 1, 2, ..., n in order; an unclosed fence keeps its
      opening line and loses the lines after it. */
  lemma PreservingNumbering(view: View, hl: Highlighter, lines: seq<Line>)
    ensures var st := Fold(lines, |lines|);
      && Nums(RenderRows(Preserving, view, hl, lines)) == Range(1, |lines| - |st.block| + 1)
      && (!st.inCode ==> Nums(RenderRows(Preserving, view, hl, lines)) == Range(1, |lines| + 1))
  {
    FoldInvariant(Preserving, lines, |lines|);
    NumsRows(Preserving, view, hl, Fold(lines, |lines|).pieces);
  }

  /** As written, RenderPreservingAll gives the first code line of a block
      the number of its opening fence: for a block of k >= 1 lines opened
      at index o and closed at index i = o + k + 1, the opener is written
      as o + 1 and so is the first code line, while positional numbering
      gives the code lines o + 2 .. i. */
  lemma AsWrittenRepeatsFenceNumber(view: View, hl: Highlighter, opener: Line, o: int, block: seq<Line>, i: int)
    requires |block| >= 1 && i == o + |block| + 1
    ensures Nums(PieceRows(PreservingAsWritten, view, hl, FenceMark(o, opener))) == [o + 1]
    ensures Nums(PieceRows(PreservingAsWritten, view, hl, Flush(i, block))) == Range(o + 1, i)
    ensures Nums(PieceRows(Preserving, view, hl, Flush(i, block))) == Range(o + 2, i + 1)
  {
    NumsPieceRows(PreservingAsWritten, view, hl, FenceMark(o, opener));
    NumsPieceRows(PreservingAsWritten, view, hl, Flush(i, block));
    NumsPieceRows(Preserving, view, hl, Flush(i, block));
    assert i - |block| == o + 1;
  }

  /** The smallest instance: the lines "```", "x", "```" are numbered
      1, 1, 3 as written and 1, 2, 3 by position. */
  lemma AsWrittenExample(view: View, hl: Highlighter)
    ensures var lines := [Line("```", CodeFence, 0, ""), Line("x", Code, 0, ""), Line("```", CodeFence, 0, "")];
      && Nums(RenderRows(PreservingAsWritten, view, hl, lines)) == [1, 1, 3]
      && Nums(RenderRows(Preserving, view, hl, lines)) == [1, 2, 3]
  {
    var lines := [Line("```", CodeFence, 0, ""), Line("x", Code, 0, ""), Line("```", CodeFence, 0, "")];
    var ps := ExamplePieces(lines);
    NumsRows(PreservingAsWritten, view, hl, ps);
    NumsRows(Preserving, view, hl, ps);
    ExampleNums(ps);
  }

  lemma ExamplePieces(lines: seq<Line>) returns (ps: seq<Piece>)
    requires lines == [Line("```", CodeFence, 0, ""), Line("x", Code, 0, ""), Line("```", CodeFence, 0, "")]
    ensures ps == Fold(lines, |lines|).pieces
    ensures ps == [FenceMark(0, lines[0]), Flush(2, [lines[1]]), FenceMark(2, lines[2])]
  {
    ps := [FenceMark(0, lines[0]), Flush(2, [lines[1]]), FenceMark(2, lines[2])];
    assert Fold(lines, 1) == RenderState(true, [], ps[..1]);
    assert Fold(lines, 2) == RenderState(true, [lines[1]], ps[..1]);
  }

  lemma ExampleNums(ps: seq<Piece>)
    requires |ps| == 3 && ps[0].FenceMark? && ps[0].i == 0 && ps[2].FenceMark? && ps[2].i == 2
    requires ps[1].Flush? && ps[1].i == 2 && |ps[1].block| == 1
    ensures AllNums(PreservingAsWritten, ps) == [1, 1, 3]
    ensures AllNums(Preserving, ps) == [1, 2, 3]
  {
    assert [] + [ps[0]] == ps[..1] && ps[..1] + [ps[1]] == ps[..2] && ps[..2] + [ps[2]] == ps;
    assert AllNums(Preserving, []) == [] && AllNums(PreservingAsWritten, []) == [];
    assert Range(1, 2) == [1] && Range(2, 3) == [2];
    AllNumsSnoc(PreservingAsWritten, [], ps[0]);
    AllNumsSnoc(PreservingAsWritten, ps[..1], ps[1]);
    AllNumsSnoc(PreservingAsWritten, ps[..2], ps[2]);
    AllNumsSnoc(Preserving, [], ps[0]);
    AllNumsSnoc(Preserving, ps[..1], ps[1]);
    AllNumsSnoc(Preserving, ps[..2], ps[2]);
  }
}
