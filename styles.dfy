/** Stand-in for the application's lipgloss styles (package styles, not part
    of this model): a style renders text as one SGR escape run, the text, and
    the SGR reset run. The colour numbers are placeholders; what the rest of
    the model relies on is only the shape ESC '[' parameters 'm'. */
module Styles {
  import opened Strings

  const Esc: char := '\U{1B}'

  /** The palette slots the renderer uses. */
  datatype Color = Primary | Info | Accent | Text | Subtext0 | Subtext1

  datatype Style = Style(color: Color, bold: bool, italic: bool, faint: bool)

  function ColorCode(c: Color): string {
    match c
    case Primary => "38;5;4"
    case Info => "38;5;6"
    case Accent => "38;5;5"
    case Text => "39"
    case Subtext0 => "38;5;8"
    case Subtext1 => "38;5;7"
  }

  /** SGR parameters: attribute codes first, then the colour. */
  function Params(st: Style): (p: string)
    ensures forall i :: 0 <= i < |p| ==> IsDigit(p[i]) || p[i] == ';'
  {
    (if st.bold then "1;" else "") + (if st.italic then "3;" else "")
    + (if st.faint then "2;" else "") + ColorCode(st.color)
  }

  /** The escape run that switches a style on. */
  function Sgr(st: Style): (r: string)
    ensures |r| >= 3 && r[0] == Esc && r[|r| - 1] == 'm'
    ensures forall i :: 1 <= i < |r| - 1 ==> r[i] != 'm' && r[i] != Esc
    ensures forall i :: 0 <= i < |r| ==> r[i] != ' ' && r[i] != '\n'
  {
    [Esc, '['] + Params(st) + ['m']
  }

  /** The escape run that switches every style off. */
  const Reset: string := [Esc, '[', '0', 'm']

  /** lipgloss Style.Render */
  function Render(st: Style, text: string): string {
    Sgr(st) + text + Reset
  }

  function Plain(c: Color): Style { Style(c, false, false, false) }
  function Bold(c: Color): Style { Style(c, true, false, false) }
  function Italic(c: Color): Style { Style(c, false, true, false) }
  function Faint(c: Color): Style { Style(c, false, false, true) }
}
