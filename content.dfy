/** What a cell's button shows. The button's text is the game's only record
    of flags: no text and the empty text are both `Blank`, the flag emoji is
    `Flag`, a digit is `Number` and the bomb emoji is `Bomb`. */
module ButtonContent {

  datatype Content = Blank | Flag | Number(count: nat) | Bomb

  /** What a revealed cell shows for its adjacency count: the count when it is
      positive, the empty text when it is 0. */
  function Shown(count: nat): (d: Content)
    ensures d.Number? <==> count > 0
    ensures d.Number? ==> d.count == count
    ensures d == Blank <==> count == 0
  {
    if count > 0 then Number(count) else Blank
  }

  /** A right click: a blank button gets a flag, a flag is taken down, and a
      number or a bomb stays as it is. */
  function Toggle(d: Content): Content {
    match d
    case Blank => Flag
    case Flag => Blank
    case _ => d
  }

  /** Two right clicks on the same button undo each other. */
  lemma ToggleTwice(d: Content)
    ensures Toggle(Toggle(d)) == d
  {
  }

  /** A right click changes a button only by putting up or taking down a flag,
      and never touches a number or a bomb. */
  lemma ToggleOnlyFlags(d: Content)
    ensures Toggle(d) != d <==> d == Blank || d == Flag
    ensures Toggle(d) != d ==> (Toggle(d) == Flag) != (d == Flag)
  {
  }
}
