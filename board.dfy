/** The fixed board of the game: its dimensions, the mine budget and the
    cells that make it up. */
module Board {

  /** The board is always 10 by 10 and always holds 10 mines. */
  const Rows: int := 10
  const Columns: int := 10
  const MinesCount: int := 10

  /** One addressable position on the board; coordinates outside the board
      are representable because the flood fill asks about them. */
  datatype Cell = Cell(row: int, col: int)

  predicate InBounds(x: Cell) {
    0 <= x.row < Rows && 0 <= x.col < Columns
  }

  /** `y` lies in the 3-by-3 block centred on `x` (the centre included). */
  predicate Near(x: Cell, y: Cell) {
    -1 <= y.row - x.row <= 1 && -1 <= y.col - x.col <= 1
  }

  /** Every cell of the board. */
  function AllCells(): set<Cell> {
    set r, c | 0 <= r < Rows && 0 <= c < Columns :: Cell(r, c)
  }

  lemma InAllCells(x: Cell)
    requires InBounds(x)
    ensures x in AllCells()
  {
    assert x == Cell(x.row, x.col);
  }

  /** A source of random coordinates only ever hands out cells of the board. */
  predicate DrawsInBounds(draws: seq<Cell>) {
    forall k | 0 <= k < |draws| :: InBounds(draws[k])
  }

  /** The cells that occur somewhere in a sequence of draws. */
  ghost function Drawn(draws: seq<Cell>): set<Cell> {
    set k | 0 <= k < |draws| :: draws[k]
  }

  lemma DrawnCons(draws: seq<Cell>)
    requires draws != []
    ensures Drawn(draws) == {draws[0]} + Drawn(draws[1..])
  {
    forall y | y in Drawn(draws) ensures y in {draws[0]} + Drawn(draws[1..]) {
      var k :| 0 <= k < |draws| && draws[k] == y;
      if k > 0 {
        assert draws[1..][k - 1] == y;
      }
    }
    forall y | y in Drawn(draws[1..]) ensures y in Drawn(draws) {
      var k :| 0 <= k < |draws[1..]| && draws[1..][k] == y;
      assert draws[k + 1] == y;
    }
  }

  /** Two disjoint finite sets have as many elements together as apart. */
  lemma DisjointUnionCard<T>(a: set<T>, b: set<T>)
    requires a !! b
    ensures |a + b| == |a| + |b|
  {
    assert a * b == {};
  }
}
