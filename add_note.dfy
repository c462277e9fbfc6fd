/** The note-name rules of ui/add.go: the file name proposed from a
    heading on the first line (setName) and the rewrite of spaces to
    dashes when the note is saved. */
module AddNote {
  import opened Wrappers
  import opened Strings
  import opened Validator

  /** The class `[#\s-]` of the name regexp: '#', '-' and RE2's `\s`,
      which is `[\t\n\f\r ]`. */
  const Separators: set<char> := {'#', '-', '\t', '\n', '\U{C}', '\r', ' '}

  predicate IsSeparator(c: char) {
    c in Separators
  }

  /** The length of the run of separators `s` starts with. */
  function SeparatorRun(s: string): (k: nat)
    ensures k <= |s|
    ensures k < |s| ==> !IsSeparator(s[k])
    decreases |s|
  {
    if s != [] && IsSeparator(s[0]) then 1 + SeparatorRun(s[1..]) else 0
  }

  /** `[#\s-]+` replaced by " ": every maximal run of separators becomes
      one space, so no separator other than ' ' is left and no two spaces
      are adjacent. */
  function CollapseSeparators(s: string): (r: string)
    ensures forall i :: 0 <= i < |r| ==> r[i] == ' ' || !IsSeparator(r[i])
    ensures forall i :: 0 <= i < |r| - 1 ==> !(r[i] == ' ' && r[i + 1] == ' ')
    ensures r != [] ==> s != [] && (r[0] == ' ' <==> IsSeparator(s[0]))
    decreases |s|
  {
    if s == [] then []
    else if IsSeparator(s[0]) then
      var rest := CollapseSeparators(s[SeparatorRun(s)..]);
      assert forall i :: 0 < i < |rest| + 1 ==> ([' '] + rest)[i] == rest[i - 1];
      [' '] + rest
    else
      var rest := CollapseSeparators(s[1..]);
      assert forall i :: 0 < i < |rest| + 1 ==> ([s[0]] + rest)[i] == rest[i - 1];
      [s[0]] + rest
  }

  /** The name derived from a heading line: '#' trimmed from both ends,
      white space trimmed, separator runs collapsed, the words joined
      with '-', and the result lower-cased. */
  function Slug(heading: string): string {
    var name := TrimSpace(TrimChar(heading, '#'));
    Lower(Join(Fields(CollapseSeparators(name)), "-"))
  }

  function FirstLine(content: string): string {
    Split(content, '\n')[0]
  }

  /** A file name made of words joined by single dashes: no '#', no white
      space, no dash at either end and no two dashes in a row. */
  predicate SlugShaped(r: string) {
    && (forall i :: 0 <= i < |r| ==> r[i] != '#' && !IsSpace(r[i]))
    && (r != [] ==> r[0] != '-' && r[|r| - 1] != '-')
    && (forall i :: 0 <= i < |r| - 1 ==> !(r[i] == '-' && r[i + 1] == '-'))
  }

  /** Every character of a field is a character of the input. */
  lemma {:induction false} FieldsFrom(s: string)
    ensures forall i, j :: 0 <= i < |Fields(s)| && 0 <= j < |Fields(s)[i]| ==> Fields(s)[i][j] in s
    decreases |s|
  {
    if s != [] {
      if IsSpace(s[0]) {
        FieldsFrom(s[1..]);
        assert forall c :: c in s[1..] ==> c in s;
      } else {
        var k := NonSpaceRun(s);
        FieldsFrom(s[k..]);
        assert forall c :: c in s[k..] ==> c in s;
        assert forall c :: c in s[..k] ==> c in s;
      }
    }
  }

  /** Words: non-empty, none holding '-' or a separator or white space. */
  predicate Words(parts: seq<string>) {
    forall i :: 0 <= i < |parts| ==> parts[i] != [] && forall j :: 0 <= j < |parts[i]| ==> WordChar(parts[i][j])
  }

  predicate WordChar(c: char) {
    !IsSeparator(c) && !IsSpace(c)
  }

  /** Words joined by single dashes. */
  predicate Dashed(r: string) {
    && (forall i :: 0 <= i < |r| ==> r[i] == '-' || WordChar(r[i]))
    && (r != [] ==> r[0] != '-' && r[|r| - 1] != '-')
    && (forall i :: 0 <= i < |r| - 1 ==> !(r[i] == '-' && r[i + 1] == '-'))
  }

  lemma DashedConcat(x: string, y: string)
    requires x != [] && y != [] && Dashed(x) && Dashed(y)
    ensures Dashed(x + "-" + y)
  {
    var r := x + "-" + y;
    forall i | 0 <= i < |r|
      ensures r[i] == (if i < |x| then x[i] else if i == |x| then '-' else y[i - |x| - 1])
    {
    }
  }

  lemma {:induction false} JoinDashed(parts: seq<string>)
    requires Words(parts)
    ensures Dashed(Join(parts, "-"))
    ensures parts != [] ==> Join(parts, "-") != []
    decreases |parts|
  {
    if |parts| == 1 {
      assert Join(parts, "-") == parts[0];
    } else if |parts| > 1 {
      JoinDashed(parts[1..]);
      DashedConcat(parts[0], Join(parts[1..], "-"));
    }
  }

  lemma LowerDashed(r: string)
    requires Dashed(r)
    ensures SlugShaped(Lower(r))
  {
  }

  /** The derived name is words joined by single dashes. */
  lemma SlugShape(heading: string)
    ensures SlugShaped(Slug(heading))
  {
    var collapsed := CollapseSeparators(TrimSpace(TrimChar(heading, '#')));
    var parts := Fields(collapsed);
    FieldsFrom(collapsed);
    forall i, j | 0 <= i < |parts| && 0 <= j < |parts[i]|
      ensures WordChar(parts[i][j])
    {
      var k :| 0 <= k < |collapsed| && collapsed[k] == parts[i][j];
      assert !IsSpace(parts[i][j]);
    }
    JoinDashed(parts);
    LowerDashed(Join(parts, "-"));
  }

  /** The add form's two inputs: the file name and the note's text. */
  class AddModel {
    var filename: string
    var content: string

    constructor (filename: string, content: string)
      ensures this.filename == filename && this.content == content
    {
      this.filename := filename;
      this.content := content;
    }

    /** setName: a file name already typed is kept; otherwise a first line
        starting with '#' proposes its slug, and any other first line
        leaves the name empty. */
    method SetName()
      modifies this
      ensures content == old(content)
      ensures old(filename) != "" ==> filename == old(filename)
      ensures old(filename) == "" && !HasPrefix(FirstLine(content), "#") ==> filename == ""
      ensures old(filename) == "" && HasPrefix(FirstLine(content), "#") ==> filename == Slug(FirstLine(content))
      ensures old(filename) == "" ==> SlugShaped(filename)
    {
      if filename != "" {
        return;
      }
      var name := Split(content, '\n')[0];
      if HasPrefix(name, "#") {
        filename := Slug(name);
        SlugShape(name);
      }
    }
  }

  /** The name a note is created under on save: the validated name with
      every ' ' (by Split on " " and Join with "-") turned into '-'. */
  function SaveName(input: string): (r: Result<string, NameError>)
    ensures ValidateNoteName(input).Err? ==> r == Err(ValidateNoteName(input).error)
    ensures r.Ok? ==> ValidateNoteName(input).Ok? && r.value == ReplaceChar(ValidateNoteName(input).value, ' ', '-')
    ensures r.Ok? ==> ' ' !in r.value && 1 <= Utf8Len(r.value) <= MaxNoteNameLength
  {
    match ValidateNoteName(input)
    case Err(e) => Err(e)
    case Ok(name) =>
      var dashed := Join(Split(name, ' '), "-");
      JoinSplitReplaces(name, ' ', '-');
      ReplaceKeepsLength(name, ' ', '-');
      Ok(dashed)
  }

  /** Replacing one ASCII character by another keeps the byte count. */
  lemma {:induction false} ReplaceKeepsLength(s: string, c: char, d: char)
    requires c as int < 0x80 && d as int < 0x80
    ensures Utf8Len(ReplaceChar(s, c, d)) == Utf8Len(s)
    decreases |s|
  {
    if s != [] {
      ReplaceKeepsLength(s[1..], c, d);
      assert ReplaceChar(s, c, d)[1..] == ReplaceChar(s[1..], c, d);
    }
  }
}
