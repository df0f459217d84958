/** The adjacency count shown on a revealed cell: the number of mines in the
    bounds-clipped 3-by-3 block around the cell. The block includes the cell
    itself, exactly as the nested loops of the game do. */
module Adjacency {
  import opened Board

  /** 1 when (r, c) is on the board and holds a mine, else 0. */
  function Hit(m: set<Cell>, r: int, c: int): nat {
    if InBounds(Cell(r, c)) && Cell(r, c) in m then 1 else 0
  }

  /** Hits of row `r` at columns col-1 .. col+j-2: the inner loop after it
      has run for column offsets -1 .. j-1. */
  function RowCount(m: set<Cell>, r: int, col: int, j: int): nat
    requires -1 <= j <= 2
  {
    (if j > -1 then Hit(m, r, col - 1) else 0) + (if j > 0 then Hit(m, r, col) else 0) + (if j > 1 then Hit(m, r, col + 1) else 0)
  }

  /** Hits of the block rows x.row-1 .. x.row+i-1: the outer loop after it
      has run for row offsets -1 .. i-1. */
  function BlockCountUpTo(m: set<Cell>, x: Cell, i: int): nat
    requires -1 <= i <= 2
  {
    (if i > -1 then RowCount(m, x.row - 1, x.col, 2) else 0) + (if i > 0 then RowCount(m, x.row, x.col, 2) else 0) + (if i > 1 then RowCount(m, x.row + 1, x.col, 2) else 0)
  }

  lemma RowCountNext(m: set<Cell>, r: int, col: int, j: int)
    requires -1 <= j <= 1
    ensures RowCount(m, r, col, j + 1) == RowCount(m, r, col, j) + Hit(m, r, col + j)
  {
  }

  lemma BlockCountNext(m: set<Cell>, x: Cell, i: int)
    requires -1 <= i <= 1
    ensures BlockCountUpTo(m, x, i + 1) == BlockCountUpTo(m, x, i) + RowCount(m, x.row + i, x.col, 2)
  {
  }

  /** The value the game computes for cell `x` under mine set `m`. */
  function BlockCount(m: set<Cell>, x: Cell): nat {
    BlockCountUpTo(m, x, 2)
  }

  /** The mines of the board in the 3-by-3 block around `x`. */
  ghost function MinesAround(m: set<Cell>, x: Cell): set<Cell> {
    set y | y in m && InBounds(y) && Near(x, y)
  }

  /** The mines of the board among (r, c-1), (r, c), (r, c+1). */
  ghost function RowMines(m: set<Cell>, r: int, c: int): set<Cell> {
    set y | y in m && InBounds(y) && y.row == r && c - 1 <= y.col <= c + 1
  }

  ghost function HitSet(m: set<Cell>, r: int, c: int): (h: set<Cell>)
    ensures |h| == Hit(m, r, c)
  {
    if InBounds(Cell(r, c)) && Cell(r, c) in m then {Cell(r, c)} else {}
  }

  lemma RowMinesCard(m: set<Cell>, r: int, c: int)
    ensures |RowMines(m, r, c)| == RowCount(m, r, c, 2)
  {
    var a, b, d := HitSet(m, r, c - 1), HitSet(m, r, c), HitSet(m, r, c + 1);
    assert RowMines(m, r, c) == a + b + d;
    DisjointUnionCard(a, b);
    DisjointUnionCard(a + b, d);
  }

  /** The block splits into its three rows. */
  lemma BlockRows(m: set<Cell>, x: Cell)
    ensures MinesAround(m, x) == RowMines(m, x.row - 1, x.col) + RowMines(m, x.row, x.col) + RowMines(m, x.row + 1, x.col)
    ensures RowMines(m, x.row - 1, x.col) !! RowMines(m, x.row, x.col)
    ensures RowMines(m, x.row - 1, x.col) + RowMines(m, x.row, x.col) !! RowMines(m, x.row + 1, x.col)
  {
  }

  /** The count is the number of mines in the clipped block around `x`. */
  lemma {:induction false} CountIsMinesAround(m: set<Cell>, x: Cell)
    ensures BlockCount(m, x) == |MinesAround(m, x)|
  {
    var a, b, d := RowMines(m, x.row - 1, x.col), RowMines(m, x.row, x.col), RowMines(m, x.row + 1, x.col);
    BlockRows(m, x);
    RowMinesCard(m, x.row - 1, x.col);
    RowMinesCard(m, x.row, x.col);
    RowMinesCard(m, x.row + 1, x.col);
    DisjointUnionCard(a, b);
    DisjointUnionCard(a + b, d);
  }

  /** The count never exceeds the 9 cells of the block; for a cell that is not
      a mine it is the number of mines among the (up to) 8 neighbours. */
  lemma {:induction false} CountBounds(m: set<Cell>, x: Cell)
    ensures BlockCount(m, x) <= 9
    ensures x !in m ==> BlockCount(m, x) <= 8
    ensures x !in m ==> BlockCount(m, x) == |set y | y in m && InBounds(y) && Near(x, y) && y != x|
  {
    assert BlockCount(m, x) == RowCount(m, x.row - 1, x.col, 2) + RowCount(m, x.row, x.col, 2) + RowCount(m, x.row + 1, x.col, 2);
    CountIsMinesAround(m, x);
    if x !in m {
      assert Hit(m, x.row, x.col) == 0;
      assert MinesAround(m, x) == set y | y in m && InBounds(y) && Near(x, y) && y != x;
    }
  }

  /** A zero count means no cell of the block is a mine, so the flood fill
      only ever steps onto safe cells. */
  lemma {:induction false} ZeroCountClearsBlock(m: set<Cell>, x: Cell, n: Cell)
    requires BlockCount(m, x) == 0
    requires InBounds(n) && Near(x, n)
    ensures n !in m
  {
    CountIsMinesAround(m, x);
    NoMinesAroundClearsBlock(m, x, n);
  }

  lemma NoMinesAroundClearsBlock(m: set<Cell>, x: Cell, n: Cell)
    requires MinesAround(m, x) == {}
    requires InBounds(n) && Near(x, n)
    ensures n !in m
  {
    assert n in m ==> n in MinesAround(m, x);
  }
}
