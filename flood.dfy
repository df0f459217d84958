/** The recursive flood fill behind a reveal, as a function from the set of
    revealed cells before the call to the set after it. */
module FloodFill {
  import opened Board
  import opened Adjacency

  /** The eight neighbours of `x` in the order the reveal visits them: up,
      down, left, right, up-left, up-right, down-left, down-right. */
  function Neighbours(x: Cell): (ns: seq<Cell>)
    ensures |ns| == 8
    ensures forall k | 0 <= k < 8 :: Near(x, ns[k]) && ns[k] != x
  {
    [Cell(x.row - 1, x.col), Cell(x.row + 1, x.col), Cell(x.row, x.col - 1), Cell(x.row, x.col + 1),
     Cell(x.row - 1, x.col - 1), Cell(x.row - 1, x.col + 1), Cell(x.row + 1, x.col - 1), Cell(x.row + 1, x.col + 1)]
  }

  /** Reveal `x`; when no mine lies in its block, go on to its eight
      neighbours. Cells off the board and cells already revealed are left
      alone. Every reveal removes one cell from the finite set of unrevealed
      cells, which bounds the recursion. */
  ghost function Flood(m: set<Cell>, revealed: set<Cell>, x: Cell): (r: set<Cell>)
    ensures revealed <= r
    decreases AllCells() - revealed, 0
  {
    if !InBounds(x) || x in revealed then revealed
    else if |MinesAround(m, x)| > 0 then revealed + {x}
    else
      InAllCells(x);
      FloodEach(m, revealed + {x}, Neighbours(x))
  }

  /** The reveals started on each cell of `ns` in turn. */
  ghost function FloodEach(m: set<Cell>, revealed: set<Cell>, ns: seq<Cell>): (r: set<Cell>)
    ensures revealed <= r
    decreases AllCells() - revealed, |ns|
  {
    if ns == [] then revealed
    else FloodEach(m, Flood(m, revealed, ns[0]), ns[1..])
  }

  /** Off the board, or on a cell already revealed, nothing happens. */
  lemma FloodGuard(m: set<Cell>, revealed: set<Cell>, x: Cell)
    requires !InBounds(x) || x in revealed
    ensures Flood(m, revealed, x) == revealed
  {
  }

  /** A cell with a mine in its block is revealed on its own. */
  lemma FloodLeaf(m: set<Cell>, revealed: set<Cell>, x: Cell)
    requires InBounds(x) && x !in revealed && |MinesAround(m, x)| > 0
    ensures Flood(m, revealed, x) == revealed + {x}
  {
  }

  /** A cell with no mine in its block is revealed and the fill moves on to
      its neighbours. */
  lemma FloodSpreads(m: set<Cell>, revealed: set<Cell>, x: Cell)
    requires InBounds(x) && x !in revealed && MinesAround(m, x) == {}
    ensures Flood(m, revealed, x) == FloodEach(m, revealed + {x}, Neighbours(x))
  {
  }

  /** One more reveal of the sequence. */
  lemma FloodEachStep(m: set<Cell>, revealed: set<Cell>, ns: seq<Cell>)
    requires ns != []
    ensures FloodEach(m, revealed, ns) == FloodEach(m, Flood(m, revealed, ns[0]), ns[1..])
  {
  }

  /** A cell of the board is revealed once the flood fill has started on it. */
  lemma FloodRevealsStart(m: set<Cell>, revealed: set<Cell>, x: Cell)
    requires InBounds(x)
    ensures x in Flood(m, revealed, x)
  {
  }

  /** Revealing the same cell twice is the same as revealing it once. */
  lemma FloodIdempotent(m: set<Cell>, revealed: set<Cell>, x: Cell)
    ensures Flood(m, Flood(m, revealed, x), x) == Flood(m, revealed, x)
  {
    if InBounds(x) {
      FloodRevealsStart(m, revealed, x);
    }
  }

  /** The flood fill reveals only cells of the board. */
  lemma {:induction false} FloodInBounds(m: set<Cell>, revealed: set<Cell>, x: Cell)
    ensures forall y | y in Flood(m, revealed, x) - revealed :: InBounds(y)
    decreases AllCells() - revealed, 0
  {
    if InBounds(x) && x !in revealed && MinesAround(m, x) == {} {
      InAllCells(x);
      FloodEachInBounds(m, revealed + {x}, Neighbours(x));
    }
  }

  lemma {:induction false} FloodEachInBounds(m: set<Cell>, revealed: set<Cell>, ns: seq<Cell>)
    ensures forall y | y in FloodEach(m, revealed, ns) - revealed :: InBounds(y)
    decreases AllCells() - revealed, |ns|
  {
    if ns != [] {
      FloodInBounds(m, revealed, ns[0]);
      FloodEachInBounds(m, Flood(m, revealed, ns[0]), ns[1..]);
    }
  }

  /** Apart from the start cell, the flood fill never reveals a mine: it only
      spreads out of cells whose clipped block holds no mine. */
  lemma {:induction false} FloodSafe(m: set<Cell>, revealed: set<Cell>, x: Cell)
    ensures forall y | y in Flood(m, revealed, x) - revealed :: y == x || y !in m
    decreases AllCells() - revealed, 0
  {
    if InBounds(x) && x !in revealed && MinesAround(m, x) == {} {
      InAllCells(x);
      FloodEachSafe(m, revealed + {x}, x, Neighbours(x));
    }
  }

  /** The reveals around a cell `x` with no mine in its block reveal no mine. */
  lemma {:induction false} FloodEachSafe(m: set<Cell>, revealed: set<Cell>, x: Cell, ns: seq<Cell>)
    requires MinesAround(m, x) == {}
    requires forall k | 0 <= k < |ns| :: Near(x, ns[k])
    ensures forall y | y in FloodEach(m, revealed, ns) - revealed :: y !in m
    decreases AllCells() - revealed, |ns|
  {
    if ns != [] {
      FloodSafe(m, revealed, ns[0]);
      if InBounds(ns[0]) {
        NoMinesAroundClearsBlock(m, x, ns[0]);
      }
      FloodEachSafe(m, Flood(m, revealed, ns[0]), x, ns[1..]);
    }
  }

  /** Every cell of the board in the block around `y` is in `r`. */
  ghost predicate Surrounded(r: set<Cell>, y: Cell) {
    forall n | InBounds(n) && Near(y, n) :: n in r
  }

  /** Each cell revealed between `before` and `after` with no mine in its
      block has its whole block revealed in `after`. */
  ghost predicate ZeroCellsClosed(m: set<Cell>, before: set<Cell>, after: set<Cell>) {
    forall y | y in after - before && MinesAround(m, y) == {} :: Surrounded(after, y)
  }

  /** Flood-fill closure: every cell the call reveals with count 0 ends up
      with all its neighbours on the board revealed. */
  lemma FloodClosed(m: set<Cell>, revealed: set<Cell>, x: Cell)
    ensures ZeroCellsClosed(m, revealed, Flood(m, revealed, x))
  {
    forall y, n | y in Flood(m, revealed, x) - revealed && MinesAround(m, y) == {} && InBounds(n) && Near(y, n)
      ensures n in Flood(m, revealed, x)
    {
      FloodClosedAt(m, revealed, x, y, n);
    }
  }

  /** FloodClosed for one revealed zero-count cell `y` and one neighbour `n`. */
  lemma {:induction false} FloodClosedAt(m: set<Cell>, revealed: set<Cell>, x: Cell, y: Cell, n: Cell)
    requires y in Flood(m, revealed, x) - revealed && MinesAround(m, y) == {}
    requires InBounds(n) && Near(y, n)
    ensures n in Flood(m, revealed, x)
    decreases AllCells() - revealed, 0
  {
    InAllCells(x);
    if y == x {
      if n != x {
        NeighboursCover(x, n);
        FloodEachCovers(m, revealed + {x}, Neighbours(x), n);
      }
    } else {
      FloodEachClosedAt(m, revealed + {x}, Neighbours(x), y, n);
    }
  }

  lemma {:induction false} FloodEachClosedAt(m: set<Cell>, revealed: set<Cell>, ns: seq<Cell>, y: Cell, n: Cell)
    requires y in FloodEach(m, revealed, ns) - revealed && MinesAround(m, y) == {}
    requires InBounds(n) && Near(y, n)
    ensures n in FloodEach(m, revealed, ns)
    decreases AllCells() - revealed, |ns|
  {
    var r1 := Flood(m, revealed, ns[0]);
    if y in r1 {
      FloodClosedAt(m, revealed, ns[0], y, n);
    } else {
      FloodEachClosedAt(m, r1, ns[1..], y, n);
    }
  }

  /** After the reveals started on each cell of `ns`, every cell of `ns` on the
      board is revealed. */
  lemma {:induction false} FloodEachCovers(m: set<Cell>, revealed: set<Cell>, ns: seq<Cell>, n: Cell)
    requires n in ns && InBounds(n)
    ensures n in FloodEach(m, revealed, ns)
    decreases |ns|
  {
    if n == ns[0] {
      FloodRevealsStart(m, revealed, n);
    } else {
      FloodEachCovers(m, Flood(m, revealed, ns[0]), ns[1..], n);
    }
  }

  /** The block around `x` is `x` and its eight neighbours. */
  lemma NeighboursCover(x: Cell, n: Cell)
    requires Near(x, n) && n != x
    ensures n in Neighbours(x)
  {
  }
}
