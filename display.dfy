/** The buttons of the board as a whole: which text each cell's button shows. */
module Display {
  import opened Board
  import opened Adjacency
  import opened ButtonContent

  /** The buttons `c` after every cell of `s` has been made to show the number
      of mines in its block; the other buttons are left as they are. */
  ghost function Paint(m: set<Cell>, c: map<Cell, Content>, s: set<Cell>): (p: map<Cell, Content>)
    ensures p.Keys == c.Keys
  {
    map y | y in c :: if y in s then Shown(|MinesAround(m, y)|) else c[y]
  }

  /** Painting no cell changes no button. */
  lemma PaintNothing(m: set<Cell>, c: map<Cell, Content>)
    ensures Paint(m, c, {}) == c
  {
  }

  /** A cell the fill reaches shows its count whatever its button showed
      before: a flag there is overwritten, and the button is left blank
      exactly when no mine lies in the cell's block. */
  lemma PaintShowsCount(m: set<Cell>, c: map<Cell, Content>, s: set<Cell>, y: Cell)
    requires y in c && y in s
    ensures Paint(m, c, s)[y] != Flag && Paint(m, c, s)[y] != Bomb
    ensures Paint(m, c, s)[y] == Blank <==> MinesAround(m, y) == {}
  {
  }

  /** Painting one newly revealed cell sets its button alone. */
  lemma PaintOne(m: set<Cell>, c: map<Cell, Content>, r: set<Cell>, x: Cell)
    requires x in c && x !in r
    ensures Paint(m, c, (r + {x}) - r) == c[x := Shown(|MinesAround(m, x)|)]
  {
    assert (r + {x}) - r == {x};
  }

  /** Painting the cells revealed in one stretch and then those revealed in
      the next is painting everything revealed over both. */
  lemma PaintTwice(m: set<Cell>, c: map<Cell, Content>, r0: set<Cell>, r1: set<Cell>, r2: set<Cell>)
    requires r0 <= r1 <= r2
    ensures Paint(m, Paint(m, c, r1 - r0), r2 - r1) == Paint(m, c, r2 - r0)
    ensures r0 <= r2
  {
  }
}
