/** The line classifier of markdown/markdown.go (ParseLines): the content is
    split at '\n' and each piece is typed, carrying the fence state
    (inside a ``` block or not, and the block's language) from line to line. */
module MarkdownLines {
  import opened Strings

  datatype LineType = Normal | Header | CodeFence | Code | Empty | Comment

  /** One classified line. Only headers rewrite the text (trimmed, without
      the hashes); `codeLang` is set on an opening fence and on code lines. */
  datatype Line = Line(content: string, kind: LineType, headerLevel: int, codeLang: string)

  /** `inCodeBlock` and `codeLang` of the parsing loop. */
  datatype FenceState = FenceState(inCode: bool, lang: string)

  const Fence: string := "```"
  const Outside: FenceState := FenceState(false, "")

  /** The number of '#' the line starts with. */
  function LeadingHashes(s: string): (n: nat)
    ensures n <= |s|
    ensures forall j :: 0 <= j < n ==> s[j] == '#'
    ensures n < |s| ==> s[n] != '#'
    decreases |s|
  {
    if s != [] && s[0] == '#' then 1 + LeadingHashes(s[1..]) else 0
  }

  /** The heading rule for a '#'-line outside a fence: the hashes followed
      by a space make a header of that level; followed by anything else,
      a comment; a line of hashes only keeps the zero type, Normal. */
  function HeadingLine(content: string): Line {
    var h := LeadingHashes(content);
    if h == |content| then Line(content, Normal, 0, "")
    else if content[h] == ' ' then Line(TrimSpace(content[h..]), Header, h, "")
    else Line(content, Comment, 0, "")
  }

  /** One step of the parsing loop: the line for `content` and the fence
      state for the next line. */
  function ClassifyLine(content: string, st: FenceState): (Line, FenceState) {
    if HasPrefix(content, Fence) then
      if !st.inCode then
        var lang := TrimPrefix(content, Fence);
        (Line(content, CodeFence, 0, lang), FenceState(true, lang))
      else
        (Line(content, CodeFence, 0, ""), Outside)
    else if st.inCode then
      (Line(content, Code, 0, st.lang), st)
    else if HasPrefix(content, "#") then
      (HeadingLine(content), st)
    else if TrimSpace(content) == [] then
      (Line(content, Empty, 0, ""), st)
    else
      (Line(content, Normal, 0, ""), st)
  }

  /** The fence state before piece `n`. */
  function StateBefore(pieces: seq<string>, n: nat): FenceState
    requires n <= |pieces|
  {
    if n == 0 then Outside
    else ClassifyLine(pieces[n - 1], StateBefore(pieces, n - 1)).1
  }

  function ParsePieces(pieces: seq<string>): seq<Line> {
    seq(|pieces|, i requires 0 <= i < |pieces| => ClassifyLine(pieces[i], StateBefore(pieces, i)).0)
  }

  /** ParseLines as a function of the content. */
  function Parse(content: string): seq<Line> {
    ParsePieces(Split(content, '\n'))
  }

  lemma {:induction false} StateBeforePrefix(pieces: seq<string>, more: seq<string>, n: nat)
    requires n <= |pieces|
    ensures StateBefore(pieces + more, n) == StateBefore(pieces, n)
  {
    if n > 0 {
      StateBeforePrefix(pieces, more, n - 1);
      assert (pieces + more)[n - 1] == pieces[n - 1];
    }
  }

  /** One line per '\n'-separated piece, in order, each keeping its text
      unless it is a header; a trailing newline adds one final line for
      the empty piece after it and leaves the others as they were. */
  lemma ParseOnePerPiece(content: string)
    ensures var pieces := Split(content, '\n');
      |Parse(content)| == |pieces|
      && forall i :: 0 <= i < |pieces| && Parse(content)[i].kind != Header ==> Parse(content)[i].content == pieces[i]
    ensures |Parse(content + "\n")| == |Parse(content)| + 1
    ensures Parse(content + "\n")[..|Parse(content)|] == Parse(content)
    ensures Parse(content + "\n")[|Parse(content)|].content == ""
  {
    var pieces := Split(content, '\n');
    SplitTrailing(content, '\n');
    ParsePiecesSnoc(pieces, "");
    ClassifyKeepsText("", StateBefore(pieces, |pieces|));
    ParsePiecesKeepsText(pieces);
  }

  lemma ParsePiecesKeepsText(pieces: seq<string>)
    ensures |ParsePieces(pieces)| == |pieces|
    ensures forall i :: 0 <= i < |pieces| && ParsePieces(pieces)[i].kind != Header ==> ParsePieces(pieces)[i].content == pieces[i]
  {
    forall i | 0 <= i < |pieces| && ParsePieces(pieces)[i].kind != Header
      ensures ParsePieces(pieces)[i].content == pieces[i]
    {
      ClassifyKeepsText(pieces[i], StateBefore(pieces, i));
    }
  }

  lemma ClassifyKeepsText(p: string, st: FenceState)
    ensures ClassifyLine(p, st).0.kind != Header ==> ClassifyLine(p, st).0.content == p
    ensures ClassifyLine(p, st).0.kind == Header ==> !st.inCode && HasPrefix(p, "#")
  {
  }

  lemma ParsePiecesSnoc(pieces: seq<string>, last: string)
    ensures |ParsePieces(pieces + [last])| == |pieces| + 1
    ensures ParsePieces(pieces + [last])[..|pieces|] == ParsePieces(pieces)
    ensures ParsePieces(pieces + [last])[|pieces|] == ClassifyLine(last, StateBefore(pieces, |pieces|)).0
  {
    var longer := pieces + [last];
    forall i | 0 <= i < |pieces|
      ensures ParsePieces(longer)[i] == ParsePieces(pieces)[i]
    {
      StateBeforePrefix(pieces, [last], i);
      assert longer[i] == pieces[i];
    }
    StateBeforePrefix(pieces, [last], |pieces|);
  }

  /** A line starting with ``` is always a fence and toggles the state; an
      opening fence carries the untrimmed text after the backticks as its
      language, a closing fence an empty one. */
  lemma ParseFences(content: string, i: nat)
    requires i < |Split(content, '\n')|
    requires HasPrefix(Split(content, '\n')[i], Fence)
    ensures var pieces := Split(content, '\n');
      var before := StateBefore(pieces, i);
      var line := Parse(content)[i];
      line.kind == CodeFence
      && StateBefore(pieces, i + 1).inCode == !before.inCode
      && (!before.inCode ==> Fence + line.codeLang == pieces[i] && StateBefore(pieces, i + 1).lang == line.codeLang)
      && (before.inCode ==> line.codeLang == "")
  {
  }

  /** Line j opened the fence that is still open before line i: it is a
      fence met outside a block, it gave the language, and no fence lies
      between it and line i. */
  predicate OpenedAt(pieces: seq<string>, i: nat, j: nat)
    requires j < i <= |pieces|
  {
    && HasPrefix(pieces[j], Fence) && !StateBefore(pieces, j).inCode
    && StateBefore(pieces, i).lang == TrimPrefix(pieces[j], Fence)
    && (forall k :: j < k < i ==> !HasPrefix(pieces[k], Fence))
  }

  /** Inside a fence, the state's language is that of the opening fence,
      and no fence lies between that opener and here. */
  lemma {:induction false} InsideFenceOpener(pieces: seq<string>, i: nat)
    requires i <= |pieces| && StateBefore(pieces, i).inCode
    ensures exists j :: 0 <= j < i && OpenedAt(pieces, i, j)
  {
    if HasPrefix(pieces[i - 1], Fence) {
      assert !StateBefore(pieces, i - 1).inCode;
      assert OpenedAt(pieces, i, i - 1);
    } else {
      InsideFenceOpener(pieces, i - 1);
      var j :| 0 <= j < i - 1 && OpenedAt(pieces, i - 1, j);
      assert OpenedAt(pieces, i, j);
    }
  }

  /** Every non-fence line inside a fence is code in the opener's language,
      whatever it looks like (blank, '#'-prefixed, ...). */
  lemma ParseInsideFence(content: string, i: nat)
    requires i < |Split(content, '\n')|
    requires StateBefore(Split(content, '\n'), i).inCode
    requires !HasPrefix(Split(content, '\n')[i], Fence)
    ensures var pieces := Split(content, '\n');
      exists j :: 0 <= j < i && OpenedAt(pieces, i, j) && Parse(content)[j].kind == CodeFence
        && Parse(content)[i] == Line(pieces[i], Code, 0, Parse(content)[j].codeLang)
        && Fence + Parse(content)[j].codeLang == pieces[j]
  {
    var pieces := Split(content, '\n');
    InsideFenceOpener(pieces, i);
    var j :| 0 <= j < i && OpenedAt(pieces, i, j);
    assert Parse(content)[j].codeLang == TrimPrefix(pieces[j], Fence);
  }

  /** Outside a fence, with h the number of leading '#': a header exactly
      when 0 < h and a space follows the hashes (level h, any h, and the
      rest trimmed); a comment exactly when another character follows; a
      line of hashes only stays Normal; an all-whitespace line is Empty. */
  lemma ParseOutsideFence(content: string, i: nat)
    requires i < |Split(content, '\n')|
    requires !StateBefore(Split(content, '\n'), i).inCode
    requires !HasPrefix(Split(content, '\n')[i], Fence)
    ensures var p := Split(content, '\n')[i];
      var h := LeadingHashes(p);
      var line := Parse(content)[i];
      (line.kind == Header <==> 0 < h < |p| && p[h] == ' ')
      && (line.kind == Header ==> line.headerLevel == h && line.content == TrimSpace(p[h..]))
      && (line.kind == Comment <==> 0 < h < |p| && p[h] != ' ')
      && (line.kind == Empty <==> AllSpace(p))
      && (0 < h == |p| ==> line.kind == Normal)
      && line.kind != Code && line.kind != CodeFence
  {
    var pieces := Split(content, '\n');
    ClassifyOutside(pieces[i], StateBefore(pieces, i));
  }

  lemma ClassifyOutside(p: string, st: FenceState)
    requires !st.inCode && !HasPrefix(p, Fence)
    ensures var h := LeadingHashes(p);
      var line := ClassifyLine(p, st).0;
      (line.kind == Header <==> 0 < h < |p| && p[h] == ' ')
      && (line.kind == Header ==> line.headerLevel == h && line.content == TrimSpace(p[h..]))
      && (line.kind == Comment <==> 0 < h < |p| && p[h] != ' ')
      && (line.kind == Empty <==> AllSpace(p))
      && (0 < h == |p| ==> line.kind == Normal)
      && line.kind != Code && line.kind != CodeFence
  {
    if HasPrefix(p, "#") {
      HashLineNotBlank(p);
      assert ClassifyLine(p, st).0 == HeadingLine(p);
    } else {
      assert LeadingHashes(p) == 0;
      if AllSpace(p) {
        assert ClassifyLine(p, st).0 == Line(p, Empty, 0, "");
      } else {
        assert ClassifyLine(p, st).0 == Line(p, Normal, 0, "");
      }
    }
  }

  lemma HashLineNotBlank(p: string)
    requires HasPrefix(p, "#")
    ensures !AllSpace(p) && 0 < LeadingHashes(p)
  {
    assert p[0] == '#';
    assert !IsSpace('#');
  }
}
