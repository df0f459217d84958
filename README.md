# Minesweeper board engine

A model of the game logic inside the single WPF window class of a
10-by-10 Minesweeper with 10 mines (`Minesweeper/MainWindow.xaml.cs`), with
every widget stripped away. The model covers these parts:

- **Mine placement.** `PlaceMines` uses rejection sampling. The random
  generator is replaced by the sequence of coordinate pairs it would hand out.
- **Adjacency count.** `CountAdjacentMines` is a bounds-clipped count over the
  3-by-3 block. The block includes the centre cell.
- **Flood fill.** `RevealCell` is the recursive reveal.
- **Button text.** Each cell's button text is the game's display state, and
  its only record of flags.
- **Clicks.** The left click on a button and the right click on a button.
- **Game reset and clock.** The game reset and the elapsed-seconds counter.

The window is the class `Minesweeper.MainWindow`. Its fields:

- two `array2<bool>` fields, `mines` and `revealed`, as in the program;
- the button texts, a map from cell to `Content`;
- the 32-bit counter `elapsedTime`;
- the ghost sets `Mines` and `Revealed`, which the class invariant `Valid()`
  keeps equal to the true cells of the two arrays.

The methods that work on the board are proved against functions on those
sets and on the button texts:

- `Placement.Place` specifies the placement loop.
- `Adjacency.BlockCount` and `Adjacency.MinesAround` specify the count.
- `FloodFill.Flood` specifies the set of revealed cells after a reveal.
- `Display.Paint` specifies the button texts after a reveal.
- `ButtonContent.Toggle` specifies the right click on one button.

The clock methods are proved against the reset value 0 and against
`Timer.Increment` on 32-bit integers.

The properties of the game are proved as lemmas about those functions:

- the mine count;
- monotone reveal;
- the start cell is revealed;
- the flood fill never reveals a mine;
- flood-fill closure;
- idempotence.

Termination of the flood fill is proved with the set of unrevealed cells of
the board as the measure.

In several places the code departs from the usual rules of the game. The model
follows the code:

- The count includes the centre cell; it is not an 8-neighbour count.
  `Adjacency.CountBounds` shows that for a cell that is not a mine the two
  agree. `ButtonClick` keeps `NoMineRevealed`, and
  `Minesweeper.MainWindow.RevealedCountsNeighbours` shows that while it holds
  the count of every revealed cell is its 8-neighbour count. So the number a
  reveal paints on a button is an 8-neighbour count.
- There is no Won state and no Lost state. A click on a mine starts a new game
  at once.
- Flags are not a separate set: a flag is the flag text on a button.
  - A flag blocks only a direct left click. The flood fill overwrites it
    (`Display.PaintShowsCount`).
  - A revealed cell with count 0 shows the empty text, so it can be flagged
    (`ButtonContent.Toggle`).

## Model

| member | source | states |
|---|---|---|
| Placement.PlaceKeepsCount | Minesweeper/MainWindow.xaml.cs:93-99 | Mines are never cleared and only drawn cells become mines. The counter grows by exactly the number of new mines and never passes MinesCount |
| Placement.PlaceInBounds | Minesweeper/MainWindow.xaml.cs:93-97 | Draws on the board place mines only on the board |
| Placement.PlaceEnough | Minesweeper/MainWindow.xaml.cs:91-100 | The counter reaches MinesCount whenever the draws hit enough cells that are not yet mines |
| Placement.PlaceFromEmpty | Minesweeper/MainWindow.xaml.cs:87-101 | From the all-false array, draws covering at least 10 distinct cells give exactly 10 mines |
| Adjacency.CountIsMinesAround | Minesweeper/MainWindow.xaml.cs:165-181 | The nested-loop count equals the number of mine cells on the board in the 3-by-3 block around the cell, the centre included |
| Adjacency.CountBounds | Minesweeper/MainWindow.xaml.cs:165-181 | The count is at most 9. For a cell that is not a mine it is at most 8 and equals the number of mines among the cell's neighbours |
| Adjacency.ZeroCountClearsBlock | Minesweeper/MainWindow.xaml.cs:152-162 | A count of 0 means no cell of the block on the board is a mine |
| Adjacency.NoMinesAroundClearsBlock | Minesweeper/MainWindow.xaml.cs:152-162 | An empty block mine set means each neighbour on the board is safe |
| ButtonContent.Shown | Minesweeper/MainWindow.xaml.cs:149 | A revealed cell shows a number exactly when its count is positive, that number is the count, and it shows the empty text exactly when the count is 0 |
| ButtonContent.ToggleTwice | Minesweeper/MainWindow.xaml.cs:124-138 | Two right clicks on the same button undo each other |
| ButtonContent.ToggleOnlyFlags | Minesweeper/MainWindow.xaml.cs:127-137 | A right click changes a button if and only if it is blank or flagged, and then it puts up or takes down the flag |
| Timer.Increment | Minesweeper/MainWindow.xaml.cs:83 | One tick adds one modulo 2^32 within the 32-bit signed range |
| Timer.ElapsedCountsTicks | Minesweeper/MainWindow.xaml.cs:72-83 | Starting from 0, the counter equals the number of ticks until it would overflow |
| FloodFill.Neighbours | Minesweeper/MainWindow.xaml.cs:154-161 | The eight recursive calls' cells: each lies in the 3-by-3 block and is not the centre |
| FloodFill.NeighboursCover | Minesweeper/MainWindow.xaml.cs:154-161 | Every other cell of the 3-by-3 block is one of the eight visited |
| FloodFill.Flood | Minesweeper/MainWindow.xaml.cs:140-163 | The recursive reveal as a function of the revealed set. It only adds cells (monotone reveal) and terminates on the unrevealed cells of the board |
| FloodFill.FloodGuard | Minesweeper/MainWindow.xaml.cs:142-143 | Off the board or on a revealed cell, the reveal changes nothing |
| FloodFill.FloodLeaf | Minesweeper/MainWindow.xaml.cs:145-152 | Unfolding lemma, a proof step for `RevealCell`: a cell with a mine in its block is revealed alone |
| FloodFill.FloodSpreads | Minesweeper/MainWindow.xaml.cs:152-162 | Unfolding lemma, a proof step for `RevealCell`: a cell with no mine in its block is revealed and the reveal moves on to its eight neighbours in order |
| FloodFill.FloodEachStep | Minesweeper/MainWindow.xaml.cs:154-161 | Unfolding lemma, a proof step for `RevealCell`: the neighbour calls run one after the other, each on the revealed set the previous one left |
| FloodFill.FloodRevealsStart | Minesweeper/MainWindow.xaml.cs:142-145 | A cell of the board is revealed once the reveal has started on it |
| FloodFill.FloodIdempotent | Minesweeper/MainWindow.xaml.cs:142-145 | Revealing the same cell twice is the same as revealing it once |
| FloodFill.FloodInBounds | Minesweeper/MainWindow.xaml.cs:142 | The reveal only adds cells of the board |
| FloodFill.FloodEachInBounds | Minesweeper/MainWindow.xaml.cs:154-161 | The neighbour calls only add cells of the board |
| FloodFill.FloodSafe | Minesweeper/MainWindow.xaml.cs:145-162 | Apart from the start cell, the reveal never reveals a mine |
| FloodFill.FloodEachSafe | Minesweeper/MainWindow.xaml.cs:152-162 | The neighbour calls of a cell with no mine in its block never reveal a mine |
| FloodFill.FloodClosed | Minesweeper/MainWindow.xaml.cs:152-162 | Flood-fill closure: every cell the reveal adds whose block holds no mine has every cell of its block on the board revealed |
| FloodFill.FloodClosedAt | Minesweeper/MainWindow.xaml.cs:152-162 | Closure for one revealed zero-count cell and one cell of its block |
| FloodFill.FloodEachClosedAt | Minesweeper/MainWindow.xaml.cs:154-161 | Closure carried through the sequence of neighbour calls |
| FloodFill.FloodEachCovers | Minesweeper/MainWindow.xaml.cs:154-161 | After the neighbour calls, every neighbour on the board is revealed |
| Display.Paint | Minesweeper/MainWindow.xaml.cs:148-149 | Showing the counts of revealed cells never adds or removes a button |
| Display.PaintNothing | Minesweeper/MainWindow.xaml.cs:142-143 | Unfolding lemma, a proof step for `RevealCell`: a reveal that reveals nothing changes no button |
| Display.PaintShowsCount | Minesweeper/MainWindow.xaml.cs:149 | A cell the fill reaches never shows a flag or a bomb afterwards, and shows the empty text exactly when its block holds no mine |
| Display.PaintOne | Minesweeper/MainWindow.xaml.cs:145-149 | Revealing one cell sets that cell's button alone |
| Display.PaintTwice | Minesweeper/MainWindow.xaml.cs:154-161 | The buttons set by consecutive reveals are the buttons set by one reveal of all their cells |
| Minesweeper.MainWindow.FreshGameMines | Minesweeper/MainWindow.xaml.cs:28-63 | A new game has at most 10 mines, exactly 10 when the draws hit 10 distinct cells, and no revealed mine |
| Minesweeper.MainWindow.RevealedCountsNeighbours | Minesweeper/MainWindow.xaml.cs:146-149 | While no mine is revealed, the count shown for a revealed cell, centre included, equals the number of mines among its 8 neighbours and is at most 8 |
| Minesweeper.MainWindow.HitIsMine | Minesweeper/MainWindow.xaml.cs:174 | The bounds-checked array test is the membership of the cell in the mine set |
| Minesweeper.MainWindow.constructor | Minesweeper/MainWindow.xaml.cs:22-26 | The window starts with a fresh game on newly allocated mine and revealed arrays |
| Minesweeper.MainWindow.InitializeGame | Minesweeper/MainWindow.xaml.cs:28-63 | New all-false arrays, all buttons blank, the mines of the placement loop, the clock at 0 |
| Minesweeper.MainWindow.StartTimer | Minesweeper/MainWindow.xaml.cs:65-79 | The counter is reset to 0 |
| Minesweeper.MainWindow.TimerTick | Minesweeper/MainWindow.xaml.cs:81-85 | The counter advances by one 32-bit increment |
| Minesweeper.MainWindow.PlaceMines | Minesweeper/MainWindow.xaml.cs:87-101 | The mine array ends as the placement loop over the draws leaves it, and the class invariant is kept |
| Minesweeper.MainWindow.CountAdjacentMines | Minesweeper/MainWindow.xaml.cs:165-181 | Returns the block count of the cell and changes nothing |
| Minesweeper.MainWindow.RevealCell | Minesweeper/MainWindow.xaml.cs:140-163 | The mines stay as they are. The revealed set becomes the flood fill of the old one, and the newly revealed buttons show their counts |
| Minesweeper.MainWindow.ButtonClick | Minesweeper/MainWindow.xaml.cs:103-122 | On a flag, nothing changes. On a mine, a fresh game from the draws with nothing revealed and the clock at 0. Otherwise, the reveal from the cell. In every case a game with no revealed mine keeps none |
| Minesweeper.MainWindow.ButtonRightClick | Minesweeper/MainWindow.xaml.cs:124-138 | Only the clicked button changes, as `Toggle` says: blank to flag, flag to blank, anything else stays |

## Left out

- The WPF grid, the buttons and their event wiring are left out, as are the
  background brushes and the "Game Over!" message box. They are only
  rendering.
- The `DispatcherTimer` is an external real-time driver. Only the counter is
  modelled: reset on start, one increment per tick. Stopping and starting the
  timer is left out.
- `System.Random` is a foreign library. Its values become a parameter
  `draws`, a sequence of cells on the board. The distribution is not
  modelled.
- Minesweeper.MainWindow.PlaceMines: also stops when the draws run out. The
  program's loop only stops after 10 mines, so with too few distinct draws
  the model places fewer mines where the program would keep drawing.
  `Placement.PlaceEnough` states when 10 are reached.
- A click's coordinates come from `Grid.GetRow`/`Grid.GetColumn` and are
  always on the board, which `ButtonClick` and `ButtonRightClick` require.
- Coordinates are unbounded integers. The program's `row - 1` and `row + 1`
  on board coordinates never come near the limits of a 32-bit int.
- Minesweeper.MainWindow.RevealCell: the program's eight recursive calls are
  written as a loop over `FloodFill.Neighbours`, which lists the eight cells in
  the program's order. The calls happen in the same order and on the same
  cells, and the loop invariant
  `FloodEach(m, Revealed, ns[k..]) == FloodEach(m, r + {x}, ns)` ties the calls
  made so far to `FloodFill.Flood`.
- The button texts are modelled as a map from cell to `Content`, not as a
  two-dimensional array of button objects. No aliasing between buttons is
  possible in the program, so none is lost.
- Minesweeper.MainWindow.ButtonClick: the bomb text put on the clicked button
  before the restart is not stated. The restart replaces every button, so the
  bomb cannot be seen in the new game's state.
- The emoji texts become the constructors of `ButtonContent.Content`. An
  unset text and the empty text both become `Blank`.
