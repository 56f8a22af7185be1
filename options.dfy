/** The fixed catalogue of rendering options: five named flags, three of
    which carry a colour. */
module Options {

  /** An immutable option: its keyword and its colour (empty for the two
      flags that carry none). */
  datatype Option = Option(name: string, color: string)

  const OptionCleanup: Option := Option("cleanup", "")
  const OptionCircular: Option := Option("circular", "")
  const OptionNext: Option := Option("color_next", "lightskyblue")
  const OptionComplete: Option := Option("color_complete", "springgreen")
  const OptionUrgent: Option := Option("color_urgent", "crimson")

  /** Every option there is, in declaration order. */
  const Registry: seq<Option> := [OptionCleanup, OptionCircular, OptionNext, OptionComplete, OptionUrgent]

  /** No two options of the catalogue share a keyword, and no keyword is
      empty or holds a space. */
  lemma RegistryNamesDistinct()
    ensures forall i, j :: 0 <= i < j < |Registry| ==> Registry[i].name != Registry[j].name
    ensures forall i :: 0 <= i < |Registry| ==> Registry[i].name != "" && ' ' !in Registry[i].name
  {
    // The five keywords have five different lengths.
    var lengths := [7, 8, 10, 14, 12];
    assert forall i :: 0 <= i < |Registry| ==> |Registry[i].name| == lengths[i];
  }
}
