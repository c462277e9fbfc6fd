/** validateNoteName of ui/validator.go, over the input's string value. */
module Validator {
  import opened Wrappers
  import opened Strings

  const MaxNoteNameLength: nat := 40

  datatype NameError = EmptyName | NameTooLong

  function Message(e: NameError): string {
    match e
    case EmptyName => "name cannot be empty"
    case NameTooLong => "name cannot be longer than 40 characters"
  }

  /** The value without its leading and trailing ' ' (tabs and other white
      space stay); empty is refused, and so is a value of more than 40
      bytes of UTF-8, whatever its number of characters. */
  function ValidateNoteName(value: string): (r: Result<string, NameError>)
    ensures r == Err(EmptyName) <==> AllChar(value, ' ')
    ensures r == Err(NameTooLong) <==> !AllChar(value, ' ') && Utf8Len(TrimChar(value, ' ')) > MaxNoteNameLength
    ensures r.Ok? ==> r.value == TrimChar(value, ' ')
    ensures r.Ok? ==> 1 <= Utf8Len(r.value) <= MaxNoteNameLength && r.value[0] != ' ' && r.value[|r.value| - 1] != ' '
  {
    var trimmed := TrimChar(value, ' ');
    if trimmed == "" then Err(EmptyName)
    else if Utf8Len(trimmed) > MaxNoteNameLength then Err(NameTooLong)
    else Ok(trimmed)
  }

  /** An accepted name is the input with only runs of ' ' cut from its ends. */
  lemma AcceptedIsCut(value: string)
    requires ValidateNoteName(value).Ok?
    ensures var v := ValidateNoteName(value).value;
      exists a :: 0 <= a <= a + |v| <= |value| && value[a..a + |v|] == v
        && AllChar(value[..a], ' ') && AllChar(value[a + |v|..], ' ')
  {
    TrimCharCuts(value, ' ');
  }

  /** Only ' ' is trimmed: a tab at either end is kept. */
  lemma TabsKept()
    ensures ValidateNoteName(" \tnote\t ") == Ok("\tnote\t")
  {
    var s := " \tnote\t ";
    assert LeadingChars(s, ' ') == 1 by {
      assert s[1..] == "\tnote\t ";
    }
    assert TrailingChars(s, ' ') == 1 by {
      assert s[..|s| - 1] == " \tnote\t";
    }
    assert s[1..7] == "\tnote\t";
  }

  /** The length bound counts bytes: 40 characters of which one is 'é'
      (two bytes in UTF-8) are refused, 40 ASCII characters accepted. */
  lemma LengthInBytes()
    ensures ValidateNoteName(seq(39, _ => 'a') + "é") == Err(NameTooLong)
    ensures ValidateNoteName(seq(40, _ => 'a')).Ok?
  {
    var accented := seq(39, _ => 'a') + "é";
    Utf8Ascii(seq(39, _ => 'a'));
    Utf8Concat(seq(39, _ => 'a'), "é");
    assert "é"[1..] == [];
    TrimNothing(accented, ' ');
    Utf8Ascii(seq(40, _ => 'a'));
    TrimNothing(seq(40, _ => 'a'), ' ');
  }

  lemma {:induction false} Utf8Ascii(s: string)
    requires forall i :: 0 <= i < |s| ==> s[i] as int < 0x80
    ensures Utf8Len(s) == |s|
    decreases |s|
  {
    if s != [] {
      Utf8Ascii(s[1..]);
    }
  }

  lemma {:induction false} Utf8Concat(a: string, b: string)
    ensures Utf8Len(a + b) == Utf8Len(a) + Utf8Len(b)
    decreases |a|
  {
    if a != [] {
      assert (a + b)[0] == a[0] && (a + b)[1..] == a[1..] + b;
      Utf8Concat(a[1..], b);
    } else {
      assert a + b == b;
    }
  }

  lemma TrimNothing(s: string, c: char)
    requires s != [] && s[0] != c && s[|s| - 1] != c
    ensures TrimChar(s, c) == s
  {
    assert LeadingChars(s, c) == 0;
    assert TrailingChars(s, c) == 0;
    assert s[0..|s|] == s;
  }
}
