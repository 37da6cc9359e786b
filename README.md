# Minesweeper board engine in Dafny

A model of the board engine of the Minesweeper variant in `MinesweeperApp.java`.
In this variant, revealing a mine is survived on a coin flip. The game is played on a
6x6 grid of cells, each with the three fields `hasMine`, `isOpened` and
`neighborMines`, and eight mines. The engine:

- places the mines (`placeMines`);
- stores each safe cell's Moore-neighbourhood mine count (`calculateNumbers`,
  `calculateSingleCell`, `isValid`);
- reveals a cell (`Cell.open`) with the survival coin flip and the breadth-first flood fill
  over zero cells (`openSurroundingCells`);
- checks for a win (`checkWin`);
- replaces the board after a loss or a win (`resetGame`).

Layout:

- `rules.dfy` (module `Rules`) holds the pure rules of the board:
  - the constants, coordinates and `IsValid`;
  - the reference neighbour count `NeighborMines`, a scan of the whole board;
  - `Fill`, the placement walk over a sequence of draws;
  - the closure `ZeroClosed` that a flood fill leaves behind;
  - the flood-fill loop invariant `FloodInv`, and the lemmas about all of these.
- `board.dfy` (module `Engine`) holds the class `Board`. It owns an `array2<Cell>` that its
  methods update in place. Two ghost sets, `mines` and `open`, are its abstract state.
  `Agree()` ties every cell to them: the cell at `c` is `CellAt(mines, open, c)`. So every
  method's effect on the grid is stated through those two sets.
- `game.dfy` (module `Game`) holds the class `Minesweeper`. It owns the current board,
  forwards a click to it, and builds a fresh board after an explosion or a win.

Randomness is a parameter:

- placement takes a sequence of coordinate draws;
- a reveal takes the result of the coin flip as a `bool`.

Dialogs are replaced by the returned `Outcome` tag (`AlreadyOpen`, `Opened`,
`SurvivedMine`, `Exploded`) and a `won` flag.

## Model

All source paths are `minesweeper/src/main/java/com/miniproject/MinesweeperApp.java`.

| member | source | states |
|---|---|---|
| Rules.Cells | minesweeper/src/main/java/com/miniproject/MinesweeperApp.java:91-93 | the board has exactly GRID_SIZE * GRID_SIZE = 36 positions, and a position is one of them exactly when `isValid` accepts it |
| Rules.FillBounds | minesweeper/src/main/java/com/miniproject/MinesweeperApp.java:56-64 | placement never removes a mine, and every mine it adds is one of the draws |
| Rules.FillCount | minesweeper/src/main/java/com/miniproject/MinesweeperApp.java:56-64 | starting below MINE_COUNT, placement never overshoots it; it reaches exactly MINE_COUNT iff the draws supply enough distinct cells |
| Engine.Board.PlaceMines | minesweeper/src/main/java/com/miniproject/MinesweeperApp.java:52-65 | after the loop the mined cells are exactly `Fill({}, draws)`; a draw on a mined cell counts nothing; no flag other than `hasMine` and no number changes |
| Rules.NeighborMinesAtMostEight | minesweeper/src/main/java/com/miniproject/MinesweeperApp.java:77-89 | a cell's neighbour count is at most 8 |
| Rules.BoxMinesSplit | minesweeper/src/main/java/com/miniproject/MinesweeperApp.java:79-87 | the 3x3 box scan, centre included, equals the reference neighbour count plus one exactly when the centre is mined |
| Engine.Board.CalculateSingleCell | minesweeper/src/main/java/com/miniproject/MinesweeperApp.java:77-89 | the nested offset loops return the reference count of mined neighbours, plus one for a mined centre; for a safe cell the result is in [0, 8] |
| Engine.Board.CalculateNumbers | minesweeper/src/main/java/com/miniproject/MinesweeperApp.java:67-75 | afterwards every safe cell holds its reference count, and mined cells keep 0; no `hasMine` or `isOpened` flag changes |
| Engine.Board.constructor | minesweeper/src/main/java/com/miniproject/MinesweeperApp.java:219-232 | a fresh board has exactly MINE_COUNT mines (those `Fill` selects from the draws), correct numbers and every cell closed |
| Engine.Board.Open | minesweeper/src/main/java/com/miniproject/MinesweeperApp.java:122-148 | the four outcomes and exactly when each happens; the revealed cell ends open and opening is monotone; mines never move; an already-open cell changes nothing; a mine or a numbered cell opens only itself; the flood fill never opens a mine, and every newly opened cell ends a chain of adjacent zero cells that starts at the revealed cell and runs through newly opened cells only; the board stays closed over zero cells; `won` is reported exactly after a non-exploding reveal that leaves every safe cell open, and a won board stays won |
| Engine.Board.MarkOpen | minesweeper/src/main/java/com/miniproject/MinesweeperApp.java:125 | setting one cell's `isOpened` adds that position to the open set and changes nothing else |
| Engine.Board.OpenSurroundingCells | minesweeper/src/main/java/com/miniproject/MinesweeperApp.java:150-178 | the queue-driven flood fill terminates; it opens no mine, and every cell it opens ends a chain of adjacent zero cells that starts at the seed and runs through the seed and the cells it opened; afterwards every open zero cell has all its safe in-range neighbours open |
| Engine.Board.OpenNeighbours | minesweeper/src/main/java/com/miniproject/MinesweeperApp.java:162-175 | for one dequeued cell, the offset loops open and return exactly its in-range neighbours that are neither open nor mined |
| Engine.Board.OpenNeighbourColumn | minesweeper/src/main/java/com/miniproject/MinesweeperApp.java:164-174 | one pass of the inner offset loop extends the scanned part of the closed neighbours by the positions it opens |
| Engine.Board.OpenIfClosed | minesweeper/src/main/java/com/miniproject/MinesweeperApp.java:168-172 | a position is opened exactly when it is on the board, not yet open and not mined |
| Rules.ClosedScanStep | minesweeper/src/main/java/com/miniproject/MinesweeperApp.java:166-172 | at each offset, the neighbour is still closed exactly when the enqueue test passes, and it is new to the scan |
| Rules.FloodStepClosed | minesweeper/src/main/java/com/miniproject/MinesweeperApp.java:154-177 | handling a dequeued zero cell keeps every open zero cell that is not waiting in the queue settled |
| Rules.FloodInvInit | minesweeper/src/main/java/com/miniproject/MinesweeperApp.java:151-152 | the flood-fill invariant holds with only the seed in the queue |
| Rules.FloodInvSkip | minesweeper/src/main/java/com/miniproject/MinesweeperApp.java:159-161 | dropping a dequeued numbered cell keeps the invariant |
| Rules.FloodInvExpand | minesweeper/src/main/java/com/miniproject/MinesweeperApp.java:162-175 | expanding a dequeued zero cell keeps the invariant, records each newly opened cell's parent with a rank one above the parent's, and shrinks the set of closed cells when anything was added |
| Rules.ZeroClosedAddCell | minesweeper/src/main/java/com/miniproject/MinesweeperApp.java:125-143 | opening a mined or numbered cell keeps the board closed over zero cells |
| Rules.TracedChain | minesweeper/src/main/java/com/miniproject/MinesweeperApp.java:150-178 | following the recorded parents, whose ranks fall towards the seed, gives each opened cell a zero chain back from the seed |
| Rules.FloodRegionExact | minesweeper/src/main/java/com/miniproject/MinesweeperApp.java:150-178 | on a board closed over zero cells whose new cells are all reached from the seed, a safe position is open exactly when it was open before or a zero chain from the seed reaches it |
| Rules.ZeroChainOpened | minesweeper/src/main/java/com/miniproject/MinesweeperApp.java:150-178 | completeness of the fill: on a board closed over zero cells, a chain of adjacent zero cells from an open cell reaches every safe cell at its end |
| Engine.Board.CheckWin | minesweeper/src/main/java/com/miniproject/MinesweeperApp.java:198-209 | `won` holds iff every safe cell is open; opened mines do not matter, and the inner-loop `break` does not change the result |
| Rules.FreshBoardNotWon | minesweeper/src/main/java/com/miniproject/MinesweeperApp.java:219-232 | a board with MINE_COUNT mines and nothing open is not won |
| Game.Minesweeper.constructor | minesweeper/src/main/java/com/miniproject/MinesweeperApp.java:34-50 | the first board is built like every later one and is not won |
| Game.Minesweeper.ResetGame | minesweeper/src/main/java/com/miniproject/MinesweeperApp.java:219-232 | the board is replaced by a fresh valid one whose mines `Fill` selects from the draws, with all cells closed |
| Game.Minesweeper.Click | minesweeper/src/main/java/com/miniproject/MinesweeperApp.java:122-148 | a click reveals a cell; after an explosion (showGameOver) or a win (checkWin) the board is replaced by a fresh one; otherwise the same board stays in play, grows by the revealed cell, gains only cells a zero chain from the revealed cell reaches, and is not won; a click on an open cell changes nothing; a survived mine never wins and opens only itself; a numbered cell opens only itself |

## Left out

- The JavaFX view is not modelled. That covers `start`, the `Pane` wiring of `createContent`, the `Rectangle`/`Text` children of a cell, colours, translation and `CELL_SIZE`. It only draws the grid's state.
- Mouse handling (`setOnMouseClicked`) is not modelled; `Click` and `Open` are called directly with board coordinates.
- The dialogs `showGameOver`, `showSurvivalMessage` and the win alert are blocking UI calls. They become the `Outcome` tag and the `won` flag.
- `java.util.Random` is not modelled. The mine draws are a sequence of coordinates and the survival flip is a `bool`; probabilities are not modelled.
- Engine.Board.constructor: the source draws until MINE_COUNT distinct cells are mined, a loop that ends only with probability 1. The model instead requires a finite draw sequence that mentions at least MINE_COUNT distinct cells. `PlaceMines` itself stops when the draws run out, and `FillCount` states what it then reaches.
- Engine.Board.OpenSurroundingCells: a neighbour is marked open when it is queued, not when it is dequeued. So no cell is queued twice, and the loop provably ends.
  - The source marks cells on dequeue and tests `!isOpened` on enqueue, so it can queue a cell several times and process an open zero cell again.
  - `FloodRegionExact` characterises the final set: the cells open before plus the safe cells that a zero chain from the seed reaches. That the source's run, with its repeated queue entries, ends with the same set is argued rather than proved.
- Cell objects and their `x`/`y` fields are not modelled separately. A cell is a value in `grid` identified by its index, and the source only ever reaches cells through `grid`.
- Integer width is not modelled: every number involved stays between -1 and 36, so Java's 32-bit `int` never overflows.
- The code fixes the board at 6x6 with 8 mines; there is no configuration and no configuration error.
- The code has no controller state machine, no error for an out-of-range position and no cell-state query. It resets the board right after a loss or a win and only receives clicks on its own cells, so `Open` and `Click` require on-board coordinates.
- `main`/`launch` is not modelled: it is the process entry point.
