/** The code-block adapter of markdown/markdown.go (syntaxHighlightWithChroma
    and highlightCodeBlock) around an abstract highlighter. Chroma's lexer
    lookup, formatter and style are folded into the highlighter; it answers
    None where tokenising or formatting fails. */
module Highlight {
  import opened Wrappers
  import opened Strings
  import opened MarkdownLines

  /** (normalised language, code) to highlighted text, or None on error. */
  type Highlighter = (string, string) -> Option<string>

  function NormalizeLang(language: string): string {
    Lower(TrimSpace(language))
  }

  /** syntaxHighlightWithChroma: blank code gives "" without calling the
      highlighter; a highlighter error gives the code back unchanged. */
  function SyntaxHighlight(hl: Highlighter, code: string, language: string): string {
    if TrimSpace(code) == [] then ""
    else
      match hl(NormalizeLang(language), code)
      case None => code
      case Some(h) => h
  }

  /** The code fed to the highlighter: every line followed by "\n". */
  function CodeText(block: seq<Line>): string
    decreases |block|
  {
    if block == [] then "" else block[0].content + "\n" + CodeText(block[1..])
  }

  function Contents(block: seq<Line>): (r: seq<string>)
    ensures |r| == |block|
    ensures forall i :: 0 <= i < |block| ==> r[i] == block[i].content
  {
    seq(|block|, i requires 0 <= i < |block| => block[i].content)
  }

  /** `ls` extended with "" up to `n` entries. */
  function PadTo(ls: seq<string>, n: nat): (r: seq<string>)
    ensures |r| == if |ls| >= n then |ls| else n
    ensures r[..|ls|] == ls
    ensures forall i :: |ls| <= i < |r| ==> r[i] == ""
  {
    if |ls| >= n then ls else ls + seq(n - |ls|, _ => "")
  }

  /** highlightCodeBlock: the language is the first line's; the highlighted
      text is split at '\n' and padded to at least one entry per line. */
  function HighlightBlock(hl: Highlighter, block: seq<Line>): (r: seq<string>)
    ensures block == [] ==> r == []
    ensures |r| >= |block|
  {
    if block == [] then []
    else PadTo(Split(SyntaxHighlight(hl, CodeText(block), block[0].codeLang), '\n'), |block|)
  }

  /** The code text is the lines joined with "\n", plus a final "\n". */
  lemma {:induction false} CodeTextJoin(block: seq<Line>)
    ensures CodeText(block) == Join(Contents(block) + [""], "\n")
    decreases |block|
  {
    if block != [] {
      CodeTextJoin(block[1..]);
      var rest := Contents(block[1..]) + [""];
      assert Contents(block) + [""] == [block[0].content] + rest;
      assert ([block[0].content] + rest)[1..] == rest;
    }
  }

  /** The code is blank exactly when every line is blank. */
  lemma {:induction false} CodeTextBlank(block: seq<Line>)
    ensures AllSpace(CodeText(block)) <==> forall i :: 0 <= i < |block| ==> AllSpace(block[i].content)
    decreases |block|
  {
    if block != [] {
      CodeTextBlank(block[1..]);
      var a := block[0].content;
      var rest := CodeText(block[1..]);
      assert CodeText(block) == a + ("\n" + rest);
      AllSpaceConcat(a, "\n" + rest);
      AllSpaceConcat("\n", rest);
      assert forall i :: 1 <= i < |block| ==> block[i] == block[1..][i - 1];
    }
  }

  lemma AllSpaceConcat(a: string, b: string)
    ensures AllSpace(a + b) <==> AllSpace(a) && AllSpace(b)
  {
    if AllSpace(a + b) {
      forall i | 0 <= i < |b| ensures IsSpace(b[i]) {
        assert (a + b)[|a| + i] == b[i];
      }
      forall i | 0 <= i < |a| ensures IsSpace(a[i]) {
        assert (a + b)[i] == a[i];
      }
    }
    if AllSpace(a) && AllSpace(b) {
      forall i | 0 <= i < |a + b| ensures IsSpace((a + b)[i]) {
        if i >= |a| { assert (a + b)[i] == b[i - |a|]; }
      }
    }
  }

  /** A block of blank lines highlights to one "" per line. */
  lemma BlankBlock(hl: Highlighter, block: seq<Line>)
    requires block != []
    requires forall i :: 0 <= i < |block| ==> AllSpace(block[i].content)
    ensures HighlightBlock(hl, block) == seq(|block|, _ => "")
  {
    CodeTextBlank(block);
    assert TrimSpace(CodeText(block)) == [];
    assert Split("", '\n') == [""];
  }

  /** Splitting the code text at '\n' gives the lines and a final "". */
  lemma SplitCodeText(block: seq<Line>)
    requires forall i :: 0 <= i < |block| ==> '\n' !in block[i].content
    ensures Split(CodeText(block), '\n') == Contents(block) + [""]
  {
    var parts := Contents(block) + [""];
    CodeTextJoin(block);
    forall i | 0 <= i < |parts| ensures '\n' !in parts[i] {
      if i < |block| { assert parts[i] == block[i].content; }
    }
    SplitJoin(parts, '\n');
  }

  /** When the block is not blank and the highlighter fails, the block
      comes back line for line, followed by the empty piece after the
      final "\n". */
  lemma FallbackBlock(hl: Highlighter, block: seq<Line>)
    requires block != []
    requires exists i :: 0 <= i < |block| && !AllSpace(block[i].content)
    requires forall i :: 0 <= i < |block| ==> '\n' !in block[i].content
    requires hl(NormalizeLang(block[0].codeLang), CodeText(block)).None?
    ensures HighlightBlock(hl, block) == Contents(block) + [""]
  {
    CodeTextBlank(block);
    var code := CodeText(block);
    assert TrimSpace(code) != [];
    assert SyntaxHighlight(hl, code, block[0].codeLang) == code;
    SplitCodeText(block);
  }
}
