/** The markdown Model of markdown/markdown.go and the theme setters of
    markdown/theme.go, as a class whose methods run the source's loops.
    Each method is proved to compute what the functions of MarkdownLines,
    VisibleWidth, Highlight and Render specify. */
module Markdown {
  import opened Wrappers
  import opened Strings
  import opened Styles
  import opened MarkdownLines
  import opened VisibleWidth
  import opened Highlight
  import opened Render
  import opened Theme

  const ZeroLine: Line := Line("", Normal, 0, "")

  class Model {
    var content: string
    var width: int
    var lines: seq<Line>
    var lineNumbers: bool
    var style: string
    var chromaStyle: Option<ChromaStyle>
    var defaultLexer: string
    var terminalTheme: string

    /** New: registers the Catppuccin styles, selects Mocha (Monokai if
        Mocha could not be found) in dark mode, and parses the content. */
    constructor (reg: Registry, content: string, width: int)
      modifies reg
      ensures reg.styles == old(reg.styles)[Mocha := ChromaStyle(Mocha)][Latte := ChromaStyle(Latte)]
      ensures this.content == content && this.width == width && !lineNumbers
      ensures style == Mocha && chromaStyle == Some(ChromaStyle(Mocha))
      ensures defaultLexer == "text" && terminalTheme == "dark"
      ensures lines == Parse(content)
    {
      reg.RegisterCatppuccin();
      var name := Mocha;
      var found := reg.Get(Mocha);
      var fallback := reg.Get(Monokai);
      if found.None? {
        name := Monokai;
        found := fallback;
      }
      this.content := content;
      this.width := width;
      lineNumbers := false;
      style := name;
      chromaStyle := found;
      defaultLexer := "text";
      terminalTheme := "dark";
      lines := [];
      new;
      ParseLines();
    }

    method SetLineNumbers(show: bool)
      modifies this
      ensures lineNumbers == show
      ensures content == old(content) && width == old(width) && lines == old(lines)
      ensures style == old(style) && chromaStyle == old(chromaStyle)
      ensures defaultLexer == old(defaultLexer) && terminalTheme == old(terminalTheme)
    {
      lineNumbers := show;
    }

    /** SetTerminalTheme: only "dark" and "light" are accepted; any other
        theme leaves the model as it was. */
    method SetTerminalTheme(theme: string)
      modifies this
      ensures theme == "dark" || theme == "light" ==> terminalTheme == theme
      ensures theme != "dark" && theme != "light" ==> terminalTheme == old(terminalTheme)
      ensures content == old(content) && width == old(width) && lines == old(lines) && lineNumbers == old(lineNumbers)
      ensures style == old(style) && chromaStyle == old(chromaStyle) && defaultLexer == old(defaultLexer)
    {
      if theme == "dark" || theme == "light" {
        terminalTheme := theme;
      }
    }

    /** SetStyle: a registered name selects that style; an unknown name
        leaves both the name and the style as they were. */
    method SetStyle(reg: Registry, styleName: string)
      modifies this
      ensures styleName in reg.styles ==> style == styleName && chromaStyle == Some(reg.styles[styleName])
      ensures styleName !in reg.styles ==> style == old(style) && chromaStyle == old(chromaStyle)
      ensures content == old(content) && width == old(width) && lines == old(lines) && lineNumbers == old(lineNumbers)
      ensures defaultLexer == old(defaultLexer) && terminalTheme == old(terminalTheme)
    {
      var found := reg.Get(styleName);
      if found.Some? {
        style := styleName;
        chromaStyle := found;
      }
    }

    /** SetCatppuccinTheme: registers the Catppuccin styles unless Mocha is
        already known, then "dark" selects Mocha and the dark terminal
        theme, "light" selects Latte (if registered) and the light
        terminal theme, and any other mode changes nothing. */
    method SetCatppuccinTheme(reg: Registry, mode: string)
      modifies this, reg
      ensures Mocha in old(reg.styles) ==> reg.styles == old(reg.styles)
      ensures Mocha !in old(reg.styles) ==> reg.styles == old(reg.styles)[Mocha := ChromaStyle(Mocha)][Latte := ChromaStyle(Latte)]
      ensures Mocha in reg.styles
      ensures old(reg.PairRegistered()) ==> Latte in reg.styles
      ensures mode == "dark" ==> style == Mocha && chromaStyle == Some(reg.styles[Mocha]) && terminalTheme == "dark"
      ensures mode == "light" ==> terminalTheme == "light"
      ensures mode == "light" && Latte in reg.styles ==> style == Latte && chromaStyle == Some(reg.styles[Latte])
      ensures mode == "light" && Latte !in reg.styles ==> style == old(style) && chromaStyle == old(chromaStyle)
      ensures mode != "dark" && mode != "light" ==>
                style == old(style) && chromaStyle == old(chromaStyle) && terminalTheme == old(terminalTheme)
      ensures content == old(content) && width == old(width) && lines == old(lines) && lineNumbers == old(lineNumbers)
      ensures defaultLexer == old(defaultLexer)
    {
      var mocha := reg.Get(Mocha);
      if mocha.None? {
        reg.RegisterCatppuccin();
      }
      if mode == "dark" {
        SetStyle(reg, Mocha);
        SetTerminalTheme("dark");
      } else if mode == "light" {
        SetStyle(reg, Latte);
        SetTerminalTheme("light");
      }
    }

    /** ParseLines: one classified line per '\n'-separated piece, the fence
        state carried from one line to the next. */
    method ParseLines()
      modifies this
      ensures lines == Parse(content)
      ensures content == old(content) && width == old(width) && lineNumbers == old(lineNumbers)
      ensures style == old(style) && chromaStyle == old(chromaStyle)
      ensures defaultLexer == old(defaultLexer) && terminalTheme == old(terminalTheme)
    {
      lines := ClassifyPieces(Split(content, '\n'));
    }

    /** The loop of ParseLines over the pieces of the content. */
    static method ClassifyPieces(pieces: seq<string>) returns (parsed: seq<Line>)
      ensures parsed == ParsePieces(pieces)
    {
      parsed := seq(|pieces|, _ => ZeroLine);
      var inCode := false;
      var codeLang := "";
      for i := 0 to |pieces|
        invariant |parsed| == |pieces|
        invariant FenceState(inCode, codeLang) == StateBefore(pieces, i)
        invariant forall j :: 0 <= j < i ==> parsed[j] == ClassifyLine(pieces[j], StateBefore(pieces, j)).0
      {
        var line;
        line, inCode, codeLang := ClassifyPiece(pieces[i], inCode, codeLang);
        parsed := parsed[i := line];
      }
    }

    /** The body of ParseLines' loop for one piece `c`. */
    static method ClassifyPiece(c: string, inCode: bool, codeLang: string) returns (line: Line, inCode': bool, codeLang': string)
      ensures (line, FenceState(inCode', codeLang')) == ClassifyLine(c, FenceState(inCode, codeLang))
    {
      line := Line(c, Normal, 0, "");
      inCode', codeLang' := inCode, codeLang;
      if HasPrefix(c, Fence) {
        line := line.(kind := CodeFence);
        if !inCode {
          inCode' := true;
          codeLang' := TrimPrefix(c, Fence);
          line := line.(codeLang := codeLang');
        } else {
          inCode' := false;
          codeLang' := "";
        }
      } else if inCode {
        line := line.(kind := Code, codeLang := codeLang);
      } else if HasPrefix(c, "#") {
        line := ClassifyHeading(c);
      } else if TrimSpace(c) == [] {
        line := line.(kind := Empty);
      }
    }

    /** The heading scan of ParseLines over a '#'-line: count the hashes;
        a space right after them makes a header, any other character a
        comment; a line of hashes only keeps the zero type. */
    static method ClassifyHeading(c: string) returns (line: Line)
      ensures line == HeadingLine(c)
    {
      line := Line(c, Normal, 0, "");
      var level := 0;
      var j := 0;
      while j < |c|
        invariant 0 <= j <= |c| && level == j
        invariant forall t :: 0 <= t < j ==> c[t] == '#'
        invariant LeadingHashes(c) >= j
      {
        if c[j] == '#' {
          level := level + 1;
        } else if c[j] == ' ' && j == level {
          line := Line(TrimSpace(c[j..]), Header, level, "");
          return;
        } else {
          line := Line(c, Comment, 0, "");
          return;
        }
        j := j + 1;
      }
    }

    /** estimateVisibleLength: counts characters outside ESC ... 'm' runs. */
    static method EstimateVisibleLength(text: string) returns (visible: int)
      ensures visible == Visible(text)
    {
      visible := 0;
      var inEscapeSeq := false;
      for i := 0 to |text|
        invariant visible + VisFrom(text[i..], inEscapeSeq) == Visible(text)
      {
        assert text[i..][1..] == text[i + 1..];
        var r := text[i];
        if inEscapeSeq {
          if r == 'm' {
            inEscapeSeq := false;
          }
          continue;
        }
        if r == Esc {
          inEscapeSeq := true;
          continue;
        }
        visible := visible + 1;
      }
    }

    /** wrapLine: a line that fits comes back alone; otherwise its words
        are packed greedily, a new line starting where the next word
        would pass the width. */
    static method WrapLine(line: string, width: int) returns (wrapped: seq<string>)
      ensures wrapped == Wrap(line, width)
    {
      var total := EstimateVisibleLength(line);
      if total <= width {
        return [line];
      }
      wrapped := [];
      var words := Split(line, ' ');
      var currentLine := "";
      var currentLen: nat := 0;
      for k := 0 to |words|
        invariant WrapWords(words[k..], width, wrapped, currentLine, currentLen) == WrapWords(words, width, [], "", 0)
      {
        assert words[k..][1..] == words[k + 1..];
        var word := words[k];
        var wordLen := EstimateVisibleLength(word);
        if currentLen > 0 && currentLen + 1 + wordLen > width {
          wrapped := wrapped + [currentLine];
          currentLine := word;
          currentLen := wordLen;
        } else {
          if currentLen > 0 {
            currentLine := currentLine + " ";
            currentLen := currentLen + 1;
          }
          currentLine := currentLine + word;
          currentLen := currentLen + wordLen;
        }
      }
      if currentLine != "" {
        wrapped := wrapped + [currentLine];
      }
    }

    /** highlightCodeBlock: join the block's lines, each followed by "\n",
        highlight in the first line's language, split at "\n" and pad with
        "" to one entry per line. */
    static method HighlightCodeBlock(hl: Highlighter, block: seq<Line>) returns (highlighted: seq<string>)
      ensures highlighted == HighlightBlock(hl, block)
    {
      if |block| == 0 {
        return [];
      }
      var language := block[0].codeLang;
      var code := JoinCode(block);
      var split := Split(SyntaxHighlight(hl, code, language), '\n');
      highlighted := PadLines(split, |block|);
    }

    /** The code builder of highlightCodeBlock. */
    static method JoinCode(block: seq<Line>) returns (code: string)
      ensures code == CodeText(block)
    {
      code := "";
      for k := 0 to |block|
        invariant code + CodeText(block[k..]) == CodeText(block)
      {
        assert block[k..][1..] == block[k + 1..];
        code := code + block[k].content + "\n";
      }
      assert block[|block|..] == [];
    }

    /** The padding loop of highlightCodeBlock. */
    static method PadLines(split: seq<string>, n: nat) returns (padded: seq<string>)
      ensures padded == PadTo(split, n)
    {
      padded := split;
      if |padded| < n {
        for i := |split| to n
          invariant padded == split + seq(i - |split|, _ => "")
        {
          padded := padded + [""];
        }
      }
    }

    /** Render: fence lines are not shown; code lines are numbered by
        position. */
    method Render(hl: Highlighter) returns (out: string)
      ensures out == RenderText(Compact, View(width, lineNumbers), hl, lines)
    {
      out := RenderLoop(Compact, hl);
    }

    /** RenderPreservingAll, numbering code lines by position (see
        Render.AsWrittenRepeatsFenceNumber for the numbering as written). */
    method RenderPreservingAll(hl: Highlighter) returns (out: string)
      ensures out == RenderText(Preserving, View(width, lineNumbers), hl, lines)
    {
      out := RenderLoop(Preserving, hl);
    }

    /** The loop both renderers run over the classified lines: fenced
        lines are collected and flushed through the highlighter at the
        closing fence, every other line is formatted, wrapped and
        numbered. */
    method RenderLoop(cfg: Config, hl: Highlighter) returns (out: string)
      ensures out == RenderText(cfg, View(width, lineNumbers), hl, lines)
    {
      var view := View(width, lineNumbers);
      var ls := lines;
      out := "";
      var codeBlock: seq<Line> := [];
      var inCode := false;
      ghost var st := Fold(ls, 0);
      for i := 0 to |ls|
        invariant st == Fold(ls, i)
        invariant inCode == st.inCode && codeBlock == st.block
        invariant out == Assemble(Rows(cfg, view, hl, st.pieces), view)
      {
        var line := ls[i];
        ghost var ps := st.pieces;
        if line.kind == CodeFence {
          if !inCode {
            inCode := true;
            codeBlock := [];
            out := WriteFence(out, cfg, view, hl, line, i);
            AssembleSnoc(cfg, view, hl, ps, FenceMark(i, line));
          } else {
            out := FlushBlock(out, cfg, view, hl, codeBlock, i);
            AssembleSnoc(cfg, view, hl, ps, Flush(i, codeBlock));
            out := WriteFence(out, cfg, view, hl, line, i);
            AssembleSnoc(cfg, view, hl, ps + [Flush(i, codeBlock)], FenceMark(i, line));
            inCode := false;
            codeBlock := [];
          }
        } else if inCode {
          codeBlock := codeBlock + [line];
        } else {
          out := WriteLine(out, cfg, view, hl, line, i);
          AssembleSnoc(cfg, view, hl, ps, Shown(i, line));
        }
        st := Step(st, i, line);
      }
    }

    /** A fence line, shown (numbered, in Subtext1) only by
        RenderPreservingAll. */
    static method WriteFence(out: string, cfg: Config, view: View, hl: Highlighter, line: Line, i: int) returns (out': string)
      ensures out' == out + Assemble(PieceRows(cfg, view, hl, FenceMark(i, line)), view)
    {
      ghost var rows := FenceRows(cfg, line, i);
      assert PieceRows(cfg, view, hl, FenceMark(i, line)) == rows;
      if cfg.keepFences {
        var row := Numbered(i + 1, Styles.Render(Plain(Subtext1), line.content));
        var text := AddLineNumber(view, i + 1, Styles.Render(Plain(Subtext1), line.content));
        assert rows == [row] && text == Show(row, view);
        AssembleOne(row, view);
        out' := out + text + "\n";
      } else {
        assert rows == [];
        out' := out;
      }
    }

    /** The flush at a closing fence: the block is highlighted and its
        first k highlighted lines written, indented and numbered. */
    static method FlushBlock(out: string, cfg: Config, view: View, hl: Highlighter, block: seq<Line>, i: int) returns (out': string)
      ensures out' == out + Assemble(PieceRows(cfg, view, hl, Flush(i, block)), view)
    {
      var h := HighlightCodeBlock(hl, block);
      out' := WriteCodeRows(out, cfg, view, h, |block|, i);
    }

    /** The flush's loop over the highlighted lines: only the first k,
        one per line of the block, are written. */
    static method WriteCodeRows(out: string, cfg: Config, view: View, h: seq<string>, k: nat, i: int) returns (out': string)
      requires k <= |h|
      ensures out' == out + Assemble(CodeRows(cfg, h, k, i), view)
    {
      ghost var rows := CodeRows(cfg, h, k, i);
      out' := out;
      assert rows[..0] == [];
      for j := 0 to |h|
        invariant out' == out + Assemble(rows[..if j < k then j else k], view)
      {
        if j < k {
          var codeLineNum := i - k + j + cfg.codeShift;
          assert rows[j] == Numbered(codeLineNum, "  " + h[j]);
          AppendRow(out, rows, j, view);
          out' := WriteNumbered(out', view, codeLineNum, "  " + h[j]);
        }
      }
      assert rows[..k] == rows;
    }

    /** A line outside a block: formatted, and wrapped when the renderer
        wraps its type, it is not empty and it is wider than the width
        left by the gutter; continuation rows carry no number. */
    static method WriteLine(out: string, cfg: Config, view: View, hl: Highlighter, line: Line, i: int) returns (out': string)
      ensures out' == out + Assemble(PieceRows(cfg, view, hl, Shown(i, line)), view)
    {
      var formatted := FormatLine(line);
      if WrapsKind(cfg, line) && |formatted| > 0 {
        var available := view.width;
        if view.lineNumbers {
          available := available - 5;
        }
        var visibleLength := EstimateVisibleLength(formatted);
        if visibleLength > available {
          out' := WriteWrappedLine(out, cfg, view, hl, line, i, formatted, available);
          return;
        }
      }
      assert !Wrapped(cfg, view, line);
      UnwrappedRows(cfg, view, hl, i, line);
      var row := Numbered(i + 1, formatted);
      AssembleOne(row, view);
      out' := out + AddLineNumber(view, i + 1, formatted) + "\n";
    }

    /** A line too wide for the width left by the gutter: its wrapped
        lines, the first numbered. */
    static method WriteWrappedLine(out: string, cfg: Config, view: View, hl: Highlighter, line: Line, i: int,
                                   formatted: string, available: int) returns (out': string)
      requires Wrapped(cfg, view, line) && formatted == FormatLine(line) && available == Avail(view)
      ensures out' == out + Assemble(PieceRows(cfg, view, hl, Shown(i, line)), view)
    {
      WrappedRows(cfg, view, hl, i, line);
      var wrapped := WrapLine(formatted, available);
      var first := if wrapped == [] then "" else wrapped[0];
      out' := WriteWrapped(out, view, i, first, wrapped, PieceRows(cfg, view, hl, Shown(i, line)));
    }

    /** One numbered row written to the builder. */
    static method WriteNumbered(out: string, view: View, n: int, t: string) returns (out': string)
      ensures out' == out + Show(Numbered(n, t), view) + "\n"
    {
      out' := out + AddLineNumber(view, n, t) + "\n";
    }

    /** One continuation row written to the builder, after the blank
        gutter when lines are numbered. */
    static method WriteContinuation(out: string, view: View, t: string) returns (out': string)
      ensures out' == out + Show(Continuation(t), view) + "\n"
    {
      var text := t;
      if view.lineNumbers {
        var continuationPrefix := Styles.Render(Plain(Subtext0), "    ");
        text := continuationPrefix + t;
      }
      out' := out + text + "\n";
    }

    /** The rows of a wrapped line: the first wrapped line numbered, the
        others after the continuation prefix. */
    static method WriteWrapped(out: string, view: View, i: int, first: string, wrapped: seq<string>, ghost rows: seq<Row>)
      returns (out': string)
      requires rows == [Numbered(i + 1, first)] + Continuations(if |wrapped| > 1 then wrapped[1..] else [])
      ensures out' == out + Assemble(rows, view)
    {
      AssembleOne(Numbered(i + 1, first), view);
      assert rows[..1] == [Numbered(i + 1, first)];
      out' := out + AddLineNumber(view, i + 1, first) + "\n";
      var j := 1;
      while j < |wrapped|
        invariant 1 <= j <= |rows|
        invariant out' == out + Assemble(rows[..j], view)
      {
        assert rows[j] == Continuation(wrapped[j]);
        AppendRow(out, rows, j, view);
        out' := WriteContinuation(out', view, wrapped[j]);
        j := j + 1;
      }
      assert rows[..j] == rows;
    }
  }
}
