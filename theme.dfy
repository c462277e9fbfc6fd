/** The chroma style registry as markdown/theme.go uses it: a global
    table from style names to styles, into which the two Catppuccin
    styles are registered. A style's colour table is not modelled; a
    style is known by the name it was built with. */
module Theme {
  import opened Wrappers

  datatype ChromaStyle = ChromaStyle(name: string)

  const Mocha: string := "catppuccin-mocha"
  const Latte: string := "catppuccin-latte"
  const Monokai: string := "monokai"

  /** The global registry (chroma's styles.Registry). */
  class Registry {
    var styles: map<string, ChromaStyle>

    /** The registry as the library ships it, with its built-in styles. */
    constructor (builtins: map<string, ChromaStyle>)
      ensures styles == builtins
    {
      styles := builtins;
    }

    /** The two Catppuccin styles are registered together or not at all. */
    predicate PairRegistered()
      reads this
    {
      Mocha in styles ==> Latte in styles
    }

    /** styles.Get, answering None for a name that is not registered, as
        the nil checks of theme.go expect. */
    function Get(name: string): (r: Option<ChromaStyle>)
      reads this
      ensures r.Some? <==> name in styles
      ensures r.Some? ==> r.value == styles[name]
    {
      if name in styles then Some(styles[name]) else None
    }

    /** styles.Register: adds the style under its name, replacing any
        style of that name. */
    method Register(style: ChromaStyle)
      modifies this
      ensures styles == old(styles)[style.name := style]
    {
      styles := styles[style.name := style];
    }

    /** RegisterCatppuccinStyles: Mocha, then Latte. */
    method RegisterCatppuccin()
      modifies this
      ensures styles == old(styles)[Mocha := ChromaStyle(Mocha)][Latte := ChromaStyle(Latte)]
      ensures Mocha in styles && Latte in styles && PairRegistered()
    {
      Register(ChromaStyle(Mocha));
      Register(ChromaStyle(Latte));
    }
  }
}
