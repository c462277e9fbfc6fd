/** The `co …` command of note/note.go: ParseCopyLinesCommand reads a line
    range from the command text, CopyLines clamps and checks it against
    the note and selects the lines (the clipboard write is not modelled). */
module CopyCommand {
  import opened Wrappers
  import opened Strings

  /** math.MaxInt32, the end that stands for "to the last line". */
  const MaxInt32: int := 2147483647

  /** RE2's `\s`: `[\t\n\f\r ]`. */
  const ReSpaces: set<char> := {'\t', '\n', '\U{C}', '\r', ' '}

  predicate IsReSpace(c: char) {
    c in ReSpaces
  }

  /** Length of the run of `\s` that `s` starts with. */
  function SpaceRun(s: string): (k: nat)
    ensures k <= |s|
    ensures k < |s| ==> !IsReSpace(s[k])
    decreases |s|
  {
    if s != [] && IsReSpace(s[0]) then 1 + SpaceRun(s[1..]) else 0
  }

  /** Length of the run of non-`\s` characters that `s` starts with. */
  function WordRun(s: string): (k: nat)
    ensures k <= |s|
    ensures forall j :: 0 <= j < k ==> !IsReSpace(s[j])
    ensures k < |s| ==> IsReSpace(s[k])
    decreases |s|
  {
    if s != [] && !IsReSpace(s[0]) then 1 + WordRun(s[1..]) else 0
  }

  /** A word of the command: non-empty and free of `\s`. */
  predicate IsWord(w: string) {
    w != [] && forall j :: 0 <= j < |w| ==> !IsReSpace(w[j])
  }

  /** The words of `s` when `s` is one or more runs of `\s`, each followed by
      a word, and nothing after the last word; None for any other shape.
      This is the `(\s+X)+$` skeleton shared by both command patterns. */
  function Words(s: string): (r: Option<seq<string>>)
    ensures r.Some? ==> |r.value| >= 1 && forall i :: 0 <= i < |r.value| ==> IsWord(r.value[i])
    decreases |s|
  {
    var k := SpaceRun(s);
    if k == 0 || k == |s| then None
    else
      var rest := s[k..];
      var m := WordRun(rest);
      if m == |rest| then Some([rest])
      else
        match Words(rest[m..])
        case None => None
        case Some(ws) => Some([rest[..m]] + ws)
  }

  /** The words separated (and preceded) by single spaces. */
  function Spaced(words: seq<string>): string
    decreases |words|
  {
    if words == [] then "" else " " + words[0] + Spaced(words[1..])
  }

  /** `\d+` */
  predicate IsNumber(w: string) {
    w != [] && AllDigits(w)
  }

  /** `-?\d+` */
  predicate IsSignedNumber(w: string) {
    IsNumber(w) || (|w| >= 2 && w[0] == '-' && IsNumber(w[1..]))
  }

  /** strconv.Atoi of a `-?\d+` word (no 64-bit range check). */
  function SignedValue(w: string): int
    requires IsSignedNumber(w)
  {
    if w[0] == '-' then -(DigitsValue(w[1..]) as int) else DigitsValue(w)
  }

  /** A range of lines, numbered from 1, both ends included. */
  datatype Range = Range(start: int, end: int)

  datatype CommandError = InvalidFormat(cmd: string)

  function Max(a: int, b: int): int {
    if a >= b then a else b
  }

  /** `co B > K` copies lines B..B+K, `co B > -1` from B to the end;
      `co B < K` copies max(1, B-K)..B, `co B < -1` from the first line. */
  function Relative(base: int, forward: bool, offset: int): (r: Range)
    ensures forward ==> r.start == base
    ensures !forward ==> r.end == base && r.start >= 1
  {
    if forward then Range(base, if offset == -1 then MaxInt32 else base + offset)
    else Range(if offset == -1 then 1 else Max(1, base - offset), base)
  }

  /** How ParseCopyLinesCommand treats the words once the skeleton matched. */
  function ParseWordsOf(cmd: string, ws: seq<string>): Result<Range, CommandError> {
    if |ws| == 1 && IsNumber(ws[0]) then
      Ok(Range(DigitsValue(ws[0]), DigitsValue(ws[0])))
    else if |ws| == 2 && IsNumber(ws[0]) && IsNumber(ws[1]) then
      Ok(Range(DigitsValue(ws[0]), DigitsValue(ws[1])))
    else if |ws| == 3 && IsNumber(ws[0]) && (ws[1] == "<" || ws[1] == ">") && IsSignedNumber(ws[2]) then
      Ok(Relative(DigitsValue(ws[0]), ws[1] == ">", SignedValue(ws[2])))
    else Err(InvalidFormat(cmd))
  }

  /** `co N`, `co A B` (in that order, unchecked) or `co B < K` / `co B > K`;
      anything else is an invalid command format. */
  function ParseCopyLinesCommand(cmd: string): (r: Result<Range, CommandError>)
    ensures r.Err? ==> r.error == InvalidFormat(cmd)
    ensures r.Ok? ==> HasPrefix(cmd, "co") && Words(cmd[2..]).Some?
  {
    if !HasPrefix(cmd, "co") then Err(InvalidFormat(cmd))
    else
      match Words(cmd[2..])
      case None => Err(InvalidFormat(cmd))
      case Some(ws) => ParseWordsOf(cmd, ws)
  }

  lemma SpaceRunWord(w: string, rest: string)
    requires IsWord(w)
    ensures SpaceRun(" " + w + rest) == 1
  {
    var s := " " + w + rest;
    assert s[1..] == w + rest;
    assert SpaceRun(s[1..]) == 0 by {
      assert (w + rest)[0] == w[0];
    }
  }

  lemma {:induction false} WordRunWord(w: string, rest: string)
    requires IsWord(w)
    requires rest == [] || IsReSpace(rest[0])
    ensures WordRun(w + rest) == |w|
    decreases |w|
  {
    var s := w + rest;
    assert s[0] == w[0];
    if |w| == 1 {
      assert s[1..] == rest;
    } else {
      assert s[1..] == w[1..] + rest;
      WordRunWord(w[1..], rest);
    }
  }

  /** One word read off the front. */
  lemma WordsStep(w: string, tail: string)
    requires IsWord(w) && (tail == [] || IsReSpace(tail[0]))
    ensures tail == [] ==> Words(" " + w + tail) == Some([w])
    ensures tail != [] && Words(tail).Some? ==> Words(" " + w + tail) == Some([w] + Words(tail).value)
  {
    var s := " " + w + tail;
    SpaceRunWord(w, tail);
    var rest := s[1..];
    assert rest == w + tail;
    WordRunWord(w, tail);
    if tail == [] {
      assert rest == w;
      assert Words(s) == Some([rest]);
    } else {
      assert rest[..|w|] == w;
      assert rest[|w|..] == tail;
    }
  }

  lemma SpacedCons(words: seq<string>)
    requires |words| >= 1
    ensures Spaced(words) == " " + words[0] + Spaced(words[1..])
    ensures |words| == 1 ==> Spaced(words[1..]) == [] && words == [words[0]]
    ensures |words| > 1 ==> Spaced(words[1..]) != [] && Spaced(words[1..])[0] == ' '
  {
  }

  /** The scanner reads back the words it is given with single spaces. */
  lemma {:induction false} WordsSpaced(words: seq<string>)
    requires |words| >= 1
    requires forall i :: 0 <= i < |words| ==> IsWord(words[i])
    ensures Words(Spaced(words)) == Some(words)
    decreases |words|
  {
    SpacedCons(words);
    if |words| > 1 {
      WordsSpaced(words[1..]);
      assert [words[0]] + words[1..] == words;
    }
    WordsStep(words[0], Spaced(words[1..]));
  }

  /** Without white space after "co" there is no command: "co" alone, and
      "co" followed only by white space, are invalid. */
  lemma BareCommand()
    ensures ParseCopyLinesCommand("co") == Err(InvalidFormat("co"))
    ensures ParseCopyLinesCommand("co ") == Err(InvalidFormat("co "))
  {
    assert "co"[2..] == [];
    assert "co "[2..] == " ";
    assert SpaceRun(" ") == 1 by {
      assert " "[1..] == [];
    }
  }

  lemma ParseWords(words: seq<string>)
    requires |words| >= 1
    requires forall i :: 0 <= i < |words| ==> IsWord(words[i])
    ensures ParseCopyLinesCommand("co" + Spaced(words)) == ParseWordsOf("co" + Spaced(words), words)
  {
    var cmd := "co" + Spaced(words);
    assert cmd[..2] == "co";
    assert cmd[2..] == Spaced(words);
    WordsSpaced(words);
  }

  lemma NumberIsWord(w: string)
    requires IsSignedNumber(w)
    ensures IsWord(w)
  {
  }

  /** "co N" copies line N alone. */
  lemma SingleLine(n: string)
    requires IsNumber(n)
    ensures ParseCopyLinesCommand("co " + n) == Ok(Range(DigitsValue(n), DigitsValue(n)))
  {
    var cmd := "co " + n;
    assert cmd == "co" + Spaced([n]) by {
      assert Spaced([n]) == " " + n + Spaced([]);
    }
    NumberIsWord(n);
    ParseWords([n]);
  }

  /** "co A B" parses to (A, B) as given; the order is not checked. */
  lemma TwoLines(a: string, b: string)
    requires IsNumber(a) && IsNumber(b)
    ensures ParseCopyLinesCommand("co " + a + " " + b) == Ok(Range(DigitsValue(a), DigitsValue(b)))
  {
    var cmd := "co " + a + " " + b;
    assert cmd == "co" + Spaced([a, b]) by {
      assert Spaced([b]) == " " + b + Spaced([]);
      assert [a, b][1..] == [b];
      assert Spaced([a, b]) == " " + a + Spaced([b]);
    }
    NumberIsWord(a);
    NumberIsWord(b);
    ParseWords([a, b]);
  }

  /** "co B > K" and "co B < K", -1 standing for "to the end" and "from
      the start". */
  lemma RelativeLines(b: string, op: string, k: string)
    requires IsNumber(b) && (op == "<" || op == ">") && IsSignedNumber(k)
    ensures ParseCopyLinesCommand("co " + b + " " + op + " " + k)
      == Ok(Relative(DigitsValue(b), op == ">", SignedValue(k)))
  {
    var cmd := "co " + b + " " + op + " " + k;
    assert cmd == "co" + Spaced([b, op, k]) by {
      assert Spaced([k]) == " " + k + Spaced([]);
      assert [op, k][1..] == [k];
      assert Spaced([op, k]) == " " + op + Spaced([k]);
      assert [b, op, k][1..] == [op, k];
      assert Spaced([b, op, k]) == " " + b + Spaced([op, k]);
    }
    NumberIsWord(b);
    NumberIsWord(k);
    ParseWords([b, op, k]);
  }

  /** The end after clamping to the n lines of the note: MaxInt32, or
      anything past the last line, becomes n. */
  function ClampEnd(end: int, n: nat): (e: int)
    ensures e <= n
    ensures end == MaxInt32 || end > n ==> e == n
    ensures end != MaxInt32 && end <= n ==> e == end
  {
    var e := if end == MaxInt32 then n else end;
    if e > n then n else e
  }

  datatype CopyError = InvalidStart(line: int) | InvalidEnd(line: int) | InvalidRange(start: int, end: int)

  /** What is copied: how many lines, and their text. */
  datatype Copied = Copied(count: nat, text: string)

  /** The lines start..end of `content`, 1-based and inclusive, after the
      end is clamped; the checks run in the order start, end, range.
      (strings.Split never yields zero pieces, so the empty-list branch of
      note/note.go never runs.) */
  function CopyLines(content: string, start: int, end: int): (r: Result<Copied, CopyError>)
    ensures var n := |Split(content, '\n')|;
      var e := ClampEnd(end, n);
      && (r.Ok? <==> 1 <= start <= e)
      && (r == Err(InvalidStart(start)) <==> !(1 <= start <= n))
      && (r == Err(InvalidEnd(e)) <==> 1 <= start <= n && e < 1)
      && (r == Err(InvalidRange(start, e)) <==> 1 <= e < start <= n)
      && (r.Ok? ==> r.value.count == e - start + 1
                    && Split(r.value.text, '\n') == Split(content, '\n')[start - 1..e])
  {
    var lines := Split(content, '\n');
    var e := ClampEnd(end, |lines|);
    var first := start - 1;
    var last := e - 1;
    if first < 0 || first >= |lines| then Err(InvalidStart(start))
    else if last < 0 || last >= |lines| then Err(InvalidEnd(e))
    else if first > last then Err(InvalidRange(start, e))
    else
      var picked := lines[first..last + 1];
      SplitJoin(picked, '\n');
      Ok(Copied(last - first + 1, Join(picked, "\n")))
  }

  /** "co 1 > -1" copies the whole note: every line, and the text unchanged. */
  lemma CopyWholeNote(content: string)
    ensures CopyLines(content, 1, MaxInt32) == Ok(Copied(|Split(content, '\n')|, content))
  {
    var lines := Split(content, '\n');
    assert lines[0..|lines|] == lines;
    JoinSplit(content, '\n');
  }
}
