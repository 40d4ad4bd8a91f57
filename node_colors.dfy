/** get_node_color: the colour a node gets from its item type, shared by the
    explorer and the Highcharts script. */
module NodeColors {
  import opened Cells

  /** The colour of a missing or unknown type. */
  const DefaultColor: string := "#97C2FC"

  /** The seven-entry colour map, looked up by exact type name. */
  function Palette(t: string): (c: Option<string>)
    ensures c.Some? ==> c.value != DefaultColor
  {
    if t == "Component" then Some("#FF6B6B")
    else if t == "Service" then Some("#4ECDC4")
    else if t == "Database" then Some("#45B7D1")
    else if t == "API" then Some("#96CEB4")
    else if t == "Interface" then Some("#FFEAA7")
    else if t == "Process" then Some("#DDA0DD")
    else if t == "System" then Some("#98D8C8")
    else None
  }

  /** get_node_color(item_type): a missing type gets the default; otherwise
      the stripped type text is looked up, with the default for an unknown one. */
  function TypeColor(itemType: Cell): (color: string)
    ensures color == DefaultColor <==> itemType.Blank? || Palette(Strip(Str(itemType))).None?
    ensures color != DefaultColor ==> Palette(Strip(Str(itemType))) == Some(color)
  {
    if itemType.Blank? then DefaultColor
    else match Palette(Strip(Str(itemType)))
      case Some(c) => c
      case None => DefaultColor
  }

  /** No two known types share a colour. */
  lemma PaletteInjective(a: string, b: string)
    requires Palette(a).Some? && Palette(a) == Palette(b)
    ensures a == b
  {
  }

  /** The colour depends on the type text only up to surrounding whitespace. */
  lemma TypeColorIgnoresPadding(a: Cell, b: Cell)
    requires !a.Blank? && !b.Blank? && Strip(Str(a)) == Strip(Str(b))
    ensures TypeColor(a) == TypeColor(b)
  {
  }

  /** Two cells get the same known colour only if they name the same type. */
  lemma TypeColorInjective(a: Cell, b: Cell)
    requires TypeColor(a) == TypeColor(b) && TypeColor(a) != DefaultColor
    ensures Strip(Str(a)) == Strip(Str(b))
  {
    PaletteInjective(Strip(Str(a)), Strip(Str(b)));
  }

  /** A known type gets its colour; a missing type gets the default; the
      lookup is case-sensitive. */
  lemma TypeColorValues()
    ensures TypeColor(Text("Service")) == "#4ECDC4"
    ensures TypeColor(Blank) == DefaultColor
    ensures TypeColor(Text("service")) == DefaultColor
  {
    assert Str(Text("Service")) == "Service" && Str(Text("service")) == "service";
    assert Strip("Service") == "Service" by { StripUnpadded("Service"); }
    assert Strip("service") == "service" by { StripUnpadded("service"); }
  }
}
