/** The game window with its widgets stripped: per-cell mine and revealed
    flags in two 10-by-10 boolean arrays, the text of each cell's button, and
    the elapsed-seconds counter. Clicks arrive with the coordinates of the
    clicked button; the random generator is a supplied sequence of draws. */
module Minesweeper {
  import opened Board
  import opened Adjacency
  import opened Placement
  import opened FloodFill
  import opened ButtonContent
  import opened Timer
  import opened Display

  class MainWindow {
    var mines: array2<bool>
    var revealed: array2<bool>
    // The text of the button of each cell of the board.
    var content: map<Cell, Content>
    var elapsedTime: int32

    // The sets of mine cells and of revealed cells, kept equal to the true
    // cells of the two boolean arrays.
    ghost var Mines: set<Cell>
    ghost var Revealed: set<Cell>

    ghost predicate Valid()
      reads this, mines, revealed
    {
      && mines.Length0 == Rows && mines.Length1 == Columns
      && revealed.Length0 == Rows && revealed.Length1 == Columns
      && mines != revealed
      && (forall y | InBounds(y) :: y in content)
      && (forall y | y in Mines :: InBounds(y))
      && (forall y | y in Revealed :: InBounds(y))
      && (forall r, c {:trigger mines[r, c]} | 0 <= r < Rows && 0 <= c < Columns :: mines[r, c] <==> Cell(r, c) in Mines)
      && (forall r, c {:trigger revealed[r, c]} | 0 <= r < Rows && 0 <= c < Columns :: revealed[r, c] <==> Cell(r, c) in Revealed)
    }

    /** No revealed cell is a mine: the invariant every click keeps. */
    ghost predicate NoMineRevealed()
      reads this
    {
      Mines !! Revealed
    }

    /** A game just set up from `draws`: nothing revealed, every button blank,
        the mines where the placement loop put them, the clock at 0. */
    ghost predicate FreshGame(draws: seq<Cell>)
      reads this, mines, revealed
    {
      && Valid()
      && Revealed == {}
      && (forall y | InBounds(y) :: content[y] == Blank)
      && Mines == Place({}, 0, draws).mines
      && elapsedTime == 0
    }

    /** The array cell behind one term of the adjacency count. */
    lemma HitIsMine(r: int, c: int)
      requires Valid()
      ensures Hit(Mines, r, c) == if 0 <= r < Rows && 0 <= c < Columns && mines[r, c] then 1 else 0
    {
    }

    /** A fresh game holds at most MinesCount mines, exactly MinesCount when
        the draws hit that many distinct cells, and shows none of them. */
    lemma FreshGameMines(draws: seq<Cell>)
      requires FreshGame(draws)
      ensures |Mines| <= MinesCount
      ensures |Drawn(draws)| >= MinesCount ==> |Mines| == MinesCount
      ensures NoMineRevealed()
    {
      PlaceKeepsCount({}, 0, draws);
      if |Drawn(draws)| >= MinesCount {
        PlaceFromEmpty(draws);
      }
    }

    /** While no mine is revealed, the count of every revealed cell, centre
        included, is the number of mines among its neighbours alone. */
    lemma RevealedCountsNeighbours(y: Cell)
      requires NoMineRevealed() && y in Revealed
      ensures BlockCount(Mines, y) == |set n | n in Mines && InBounds(n) && Near(y, n) && n != y|
      ensures BlockCount(Mines, y) <= 8
    {
      CountBounds(Mines, y);
    }

    /** The window's constructor sets up the first game. */
    constructor (draws: seq<Cell>)
      requires DrawsInBounds(draws)
      ensures fresh(mines) && fresh(revealed)
      ensures FreshGame(draws)
    {
      mines := new bool[Rows, Columns]((r, c) => false);
      revealed := new bool[Rows, Columns]((r, c) => false);
      content := map y | y in AllCells() :: Blank;
      elapsedTime := 0;
      new;
      InitializeGame(draws);
    }

    /** Start a new game: fresh all-false mine and revealed arrays and fresh
        blank buttons, then the mines, then the clock. */
    method InitializeGame(draws: seq<Cell>)
      requires DrawsInBounds(draws)
      modifies this
      ensures fresh(mines) && fresh(revealed)
      ensures FreshGame(draws)
    {
      mines := new bool[Rows, Columns]((r, c) => false);
      revealed := new bool[Rows, Columns]((r, c) => false);
      content := map y | y in AllCells() :: Blank;
      Mines, Revealed := {}, {};
      forall y | InBounds(y) ensures y in content {
        InAllCells(y);
      }
      PlaceInBounds({}, 0, draws);
      PlaceMines(draws);
      StartTimer();
    }

    method StartTimer()
      modifies this`elapsedTime
      ensures elapsedTime == 0
    {
      elapsedTime := 0;
    }

    method TimerTick()
      modifies this`elapsedTime
      ensures elapsedTime == Increment(old(elapsedTime))
    {
      elapsedTime := Increment(elapsedTime);
    }

    /** Rejection sampling: draw a cell, make it a mine unless it is one
        already, until MinesCount mines have been placed or the draws run
        out. */
    method PlaceMines(draws: seq<Cell>)
      requires Valid() && DrawsInBounds(draws)
      modifies this`Mines, mines
      ensures Valid()
      ensures Mines == Place(old(Mines), 0, draws).mines
    {
      var placed := 0;
      var i := 0;
      while placed < MinesCount && i < |draws|
        invariant Valid()
        invariant 0 <= i <= |draws|
        invariant Place(Mines, placed, draws[i..]) == Place(old(Mines), 0, draws)
      {
        var d := draws[i];
        assert draws[i..][0] == d && draws[i..][1..] == draws[i + 1..];
        if !mines[d.row, d.col] {
          mines[d.row, d.col] := true;
          Mines := Mines + {d};
          placed := placed + 1;
        }
        i := i + 1;
      }
    }

    /** The number of mines in the bounds-clipped 3-by-3 block around
        (row, col), the centre cell included. */
    method CountAdjacentMines(row: int, col: int) returns (count: int)
      requires Valid()
      ensures count == BlockCount(Mines, Cell(row, col))
    {
      count := 0;
      var i := -1;
      while i <= 1
        invariant -1 <= i <= 2
        invariant count == BlockCountUpTo(Mines, Cell(row, col), i)
      {
        var j := -1;
        while j <= 1
          invariant -1 <= j <= 2
          invariant count == BlockCountUpTo(Mines, Cell(row, col), i) + RowCount(Mines, row + i, col, j)
        {
          var r := row + i;
          var c := col + j;
          RowCountNext(Mines, r, col, j);
          HitIsMine(r, c);
          if r >= 0 && r < Rows && c >= 0 && c < Columns && mines[r, c] {
            count := count + 1;
          }
          j := j + 1;
        }
        BlockCountNext(Mines, Cell(row, col), i);
        i := i + 1;
      }
    }

    /** The recursive flood fill: off the board or already revealed, nothing
        happens; otherwise the cell is revealed, its button shows its count,
        and when the count is 0 its eight neighbours are revealed the same
        way, in the order of `Neighbours`. */
    method RevealCell(row: int, col: int)
      requires Valid()
      modifies this`Revealed, this`content, revealed
      ensures mines == old(mines) && revealed == old(revealed) && Mines == old(Mines)
      ensures Valid()
      ensures Revealed == Flood(Mines, old(Revealed), Cell(row, col))
      ensures content == Paint(Mines, old(content), Revealed - old(Revealed))
      decreases AllCells() - Revealed
    {
      if row < 0 || row >= Rows || col < 0 || col >= Columns || revealed[row, col] {
        FloodGuard(Mines, Revealed, Cell(row, col));
        PaintNothing(Mines, content);
        return;
      }
      ghost var x := Cell(row, col);
      ghost var m, r, c := Mines, Revealed, content;
      InAllCells(x);
      revealed[row, col] := true;
      Revealed := Revealed + {x};
      var mineCount := CountAdjacentMines(row, col);
      CountIsMinesAround(m, x);
      content := content[Cell(row, col) := Shown(mineCount)];
      PaintOne(m, c, r, x);
      if mineCount > 0 {
        FloodLeaf(m, r, x);
      } else {
        FloodSpreads(m, r, x);
        var ns := Neighbours(Cell(row, col));
        var k := 0;
        while k < 8
          invariant 0 <= k <= 8
          invariant Valid() && mines == old(mines) && revealed == old(revealed) && Mines == m
          invariant r + {x} <= Revealed
          invariant FloodEach(m, Revealed, ns[k..]) == FloodEach(m, r + {x}, ns)
          invariant content == Paint(m, c, Revealed - r)
        {
          ghost var rk := Revealed;
          RevealCell(ns[k].row, ns[k].col);
          assert ns[k..][0] == ns[k] && ns[k..][1..] == ns[k + 1..];
          FloodEachStep(m, rk, ns[k..]);
          PaintTwice(m, c, r, rk, Revealed);
          k := k + 1;
        }
        assert ns[k..] == [];
      }
    }

    /** A left click on the button of (row, col): a flagged button ignores
        it; on a mine the button shows the bomb and a new game starts from
        `draws`; anywhere else the flood fill reveals from the cell. A click
        that does not start a new game never reveals a mine. */
    method ButtonClick(row: int, col: int, draws: seq<Cell>)
      requires Valid() && InBounds(Cell(row, col)) && DrawsInBounds(draws)
      modifies this, mines, revealed
      ensures Valid()
      ensures old(content[Cell(row, col)]) == Flag ==>
        && mines == old(mines) && revealed == old(revealed)
        && Mines == old(Mines) && Revealed == old(Revealed)
        && content == old(content) && elapsedTime == old(elapsedTime)
      ensures old(content[Cell(row, col)]) != Flag && old(Cell(row, col) in Mines) ==>
        fresh(mines) && fresh(revealed) && FreshGame(draws)
      ensures old(content[Cell(row, col)]) != Flag && old(Cell(row, col) !in Mines) ==>
        && mines == old(mines) && revealed == old(revealed) && Mines == old(Mines)
        && Revealed == Flood(Mines, old(Revealed), Cell(row, col))
        && content == Paint(Mines, old(content), Revealed - old(Revealed))
        && elapsedTime == old(elapsedTime)
      ensures old(NoMineRevealed()) ==> NoMineRevealed()
    {
      var x := Cell(row, col);
      if content[x] == Flag {
        return;
      }
      if mines[row, col] {
        content := content[x := Bomb];
        InitializeGame(draws);
        FreshGameMines(draws);
      } else {
        ghost var r := Revealed;
        RevealCell(row, col);
        FloodSafe(Mines, r, x);
      }
    }

    /** A right click on the button of (row, col): a blank button gets a
        flag, a flagged one loses it, any other button stays as it is. */
    method ButtonRightClick(row: int, col: int)
      requires Valid() && InBounds(Cell(row, col))
      modifies this`content
      ensures Valid()
      ensures content == old(content)[Cell(row, col) := Toggle(old(content)[Cell(row, col)])]
    {
      var x := Cell(row, col);
      if content[x] == Blank {
        content := content[x := Flag];
      } else if content[x] == Flag {
        content := content[x := Blank];
      }
    }
  }
}
