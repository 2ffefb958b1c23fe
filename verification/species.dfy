/** The static species table of the simulation: the four noble gases and the
    display colour each is drawn with. */
module Species {

  /** The closed set of particle species. */
  datatype Element = Helium | Neon | Argon | Krypton

  /** The colours the display uses for the species. */
  datatype Color = Red | Green | Blue | Purple

  /** The colour table: helium red, neon green, argon blue, krypton purple. */
  function ColorOf(e: Element): (c: Color)
    ensures e == Helium <==> c == Red
    ensures e == Neon <==> c == Green
    ensures e == Argon <==> c == Blue
    ensures e == Krypton <==> c == Purple
  {
    match e
    case Helium => Red
    case Neon => Green
    case Argon => Blue
    case Krypton => Purple
  }

  /** Distinct species are drawn in distinct colours, so the colour of a dot
      identifies its species. */
  lemma ColorIdentifiesSpecies(e1: Element, e2: Element)
    ensures ColorOf(e1) == ColorOf(e2) <==> e1 == e2
  {
  }
}
