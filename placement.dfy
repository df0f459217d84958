/** Mine placement by rejection sampling. The random generator is replaced by
    the sequence of coordinate pairs it would hand out; the loop stops when
    MinesCount mines have been placed or when the supplied draws run out. */
module Placement {
  import opened Board

  /** What the loop leaves behind: the mine cells and its counter. */
  datatype Placement = Placement(mines: set<Cell>, placed: int)

  /** The placement loop, run from mine set `m` and counter `placed` over
      `draws`: a draw on a free cell makes it a mine and bumps the counter,
      a draw on a mine is rejected. */
  function Place(m: set<Cell>, placed: int, draws: seq<Cell>): Placement
    decreases |draws|
  {
    if placed >= MinesCount || draws == [] then Placement(m, placed)
    else if draws[0] in m then Place(m, placed, draws[1..])
    else Place(m + {draws[0]}, placed + 1, draws[1..])
  }

  /** Mines are never cleared, only drawn cells become mines, and the counter
      grows by exactly the number of cells that became mines, up to
      MinesCount. Started from an empty board with the counter at 0 (as the
      game does), the counter is the number of mines. */
  lemma {:induction false} PlaceKeepsCount(m: set<Cell>, placed: int, draws: seq<Cell>)
    ensures var p := Place(m, placed, draws);
      && m <= p.mines
      && p.mines - m <= Drawn(draws)
      && placed <= p.placed
      && |p.mines| == |m| + (p.placed - placed)
      && (placed <= MinesCount ==> p.placed <= MinesCount)
    decreases |draws|
  {
    if placed >= MinesCount || draws == [] {
    } else {
      DrawnCons(draws);
      if draws[0] in m {
        PlaceKeepsCount(m, placed, draws[1..]);
      } else {
        PlaceKeepsCount(m + {draws[0]}, placed + 1, draws[1..]);
      }
    }
  }

  /** Drawn cells are cells of the board, so so are the placed mines. */
  lemma PlaceInBounds(m: set<Cell>, placed: int, draws: seq<Cell>)
    requires DrawsInBounds(draws)
    requires forall y | y in m :: InBounds(y)
    ensures forall y | y in Place(m, placed, draws).mines :: InBounds(y)
  {
    PlaceKeepsCount(m, placed, draws);
    forall y | y in Place(m, placed, draws).mines - m ensures InBounds(y) {
      var k :| 0 <= k < |draws| && draws[k] == y;
    }
  }

  /** The loop reaches MinesCount whenever the draws hit enough cells that
      are not yet mines. */
  lemma {:induction false} PlaceEnough(m: set<Cell>, placed: int, draws: seq<Cell>)
    requires placed <= MinesCount
    requires |Drawn(draws) - m| >= MinesCount - placed
    ensures Place(m, placed, draws).placed == MinesCount
    decreases |draws|
  {
    if placed >= MinesCount || draws == [] {
    } else {
      var d, rest := draws[0], draws[1..];
      DrawnCons(draws);
      if d in m {
        assert Drawn(rest) - m == Drawn(draws) - m;
        PlaceEnough(m, placed, rest);
      } else {
        assert Drawn(rest) - (m + {d}) == (Drawn(draws) - m) - {d};
        PlaceEnough(m + {d}, placed + 1, rest);
      }
    }
  }

  /** From an empty board, draws covering at least MinesCount distinct cells
      yield exactly MinesCount mines. */
  lemma PlaceFromEmpty(draws: seq<Cell>)
    requires |Drawn(draws)| >= MinesCount
    ensures |Place({}, 0, draws).mines| == MinesCount
  {
    assert Drawn(draws) - {} == Drawn(draws);
    PlaceEnough({}, 0, draws);
    PlaceKeepsCount({}, 0, draws);
  }
}
