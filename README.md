# Minesweeper board engine

A Dafny model of the game logic of an Android Minesweeper app. The logic is the
board engine held in the fields of the main activity. It has three 12 x 10
boolean grids: `mineGrid`, `revealedGrid` and `flaggedGrid`. It also has three
flags: `playerMode` (pickaxe or flag), `firstClick` and `gameOver`. The
operations that update this state are modelled:

- the click handler;
- mine placement by rejection sampling around the first click;
- the 3 x 3 mine counter;
- the recursive flood-fill reveal;
- the mode switch.

Modules:

- `Board` (board.dfy) holds the geometry: bounds, the 3 x 3 neighbourhood and
  the set views of a grid. It also holds the counting specification
  (`SurroundingMines`, a sum in the counter's loop order) and lemmas. The
  lemmas prove the count equals the number of mines near the cell, prove its
  bounds, and show a zero count means a mine-free neighbourhood.
- `Placement` (placement.dfy) specifies rejection sampling as a function of a
  finite sequence of draws, `Sampled`, and proves what the accepted draws are.
- `Flood` (flood.dfy) states the flood-fill properties on sets of cells:
  - `ClosedFrom`: every newly revealed blank cell has its whole neighbourhood
    revealed.
  - `FillOrder`: a sequence lists the newly revealed cells, each once, in the
    order they were revealed. Each entry is a seed, or a neighbour of a blank
    cell that comes earlier in the sequence. So the fill grows from the seeds
    only, and only through blank cells.

  It also proves how these compose across the recursive calls.
- `Minesweeper` (game.dfy) is the class `Game`. It has the three grids as
  `array2<bool>` fields and the flags as `bool` fields. Its methods follow the
  source's loops and recursion, and each is proved against the functions
  above. `Invariant()` is the game invariant every click keeps:
  - before the first click, there are no mines, reveals or flags;
  - after it, no mine is within distance 1 of the first cell, and there are at
    most `TOTAL_MINES` mines;
  - `gameOver` holds exactly when a mine is revealed.

A "blank" cell is a safe cell with no surrounding mine. The fill spreads from
blank cells only. The recursion of `RevealCell` and `RevealAdjacentCells`
terminates on the number of unrevealed cells. Each reveal method returns
a ghost `order`: the cells it revealed, in reveal order. Its contract states
`FillOrder` of that sequence.

## Behaviour as written

The model follows the code, which differs from a textbook Minesweeper engine.
These differences are kept as they are:

- **No win, no flag cap, no mine display on loss.** There is no win detection.
  There is no limit on the number of flags. A loss does not reveal the other
  mines: it only sets `gameOver`.
- **The flood fill ignores flags.** A pickaxe click refuses a flagged cell.
  The flood fill, though, checks only `revealedGrid`, so it reveals flagged
  neighbours. A cell can therefore be both flagged and revealed, and no
  invariant here says otherwise.
- **Mines are placed on the first click in either mode.** A first click in
  flag mode places the mines and then flags the clicked cell.
- **After game over, nothing changes.** A click only leads to the game-over
  screen.

## Model

| member | source | states |
|---|---|---|
| `Board.RowMinesBound` | app/src/main/java/com/example/gridlayout/MainActivity.java:206-211 | the count along one row of the window is at most its width, and is 0 exactly when no cell of the row is a mine |
| `Board.BlockMinesBound` | app/src/main/java/com/example/gridlayout/MainActivity.java:205-212 | the count over a block of rows is at most its area, and is 0 exactly when no cell of the block is a mine |
| `Board.SurroundingMinesBound` | app/src/main/java/com/example/gridlayout/MainActivity.java:202-215 | the 3 x 3 count lies in [0, 9], and in [0, 8] when the centre is an in-bounds safe cell |
| `Board.SurroundingMinesZero` | app/src/main/java/com/example/gridlayout/MainActivity.java:202-215 | the count is 0 if and only if no in-bounds cell within distance 1 (centre included) is a mine |
| `Board.NoMinesNear` | app/src/main/java/com/example/gridlayout/MainActivity.java:159-167 | a cell whose count is 0 has a neighbourhood that holds no mine, which is why the fill from it is safe |
| `Board.RowMinesCard` | app/src/main/java/com/example/gridlayout/MainActivity.java:206-211 | the row count equals the number of in-bounds mine cells in that row segment |
| `Board.BlockMinesCard` | app/src/main/java/com/example/gridlayout/MainActivity.java:205-212 | the block count equals the number of in-bounds mine cells in that block |
| `Board.SurroundingMinesIsCardinality` | app/src/main/java/com/example/gridlayout/MainActivity.java:202-215 | the count equals the number of in-bounds mine cells at Chebyshev distance at most 1 from the cell, centre included |
| `Board.CellIndexRoundTrip` | app/src/main/java/com/example/gridlayout/MainActivity.java:103-105 | decoding a widget index with `/` and `%` by COLS gives an on-board cell that encodes back to the index, and every cell round-trips through its index |
| `Placement.SampledAdds` | app/src/main/java/com/example/gridlayout/MainActivity.java:189-197 | sampling only adds mines; every added mine is a draw outside the zone; at most `need` mines are added |
| `Placement.SampledExhausts` | app/src/main/java/com/example/gridlayout/MainActivity.java:189-197 | either exactly `need` mines are added, or the draws ran out and every safe draw is a mine |
| `Placement.FirstPlacement` | app/src/main/java/com/example/gridlayout/MainActivity.java:185-199 | placement on an empty board yields only safe draws; none is within distance 1 of the first click; there are at most TOTAL_MINES, and exactly TOTAL_MINES when at least that many distinct safe cells were drawn |
| `Flood.ClosedTrans` | app/src/main/java/com/example/gridlayout/MainActivity.java:173-181 | two successive closed reveals make one closed reveal: every blank cell revealed by either has its neighbourhood revealed at the end |
| `Flood.FillOrderOnce` | app/src/main/java/com/example/gridlayout/MainActivity.java:143-148 | no cell appears twice in a reveal order: a cell is revealed only while it is unrevealed, so no cell is revealed twice |
| `Flood.OrderCons` | app/src/main/java/com/example/gridlayout/MainActivity.java:143-170 | a blank cell followed by the reveal order of the fill seeded by its neighbours is a reveal order seeded by the cell alone, with no repeats |
| `Flood.FillAppend` | app/src/main/java/com/example/gridlayout/MainActivity.java:173-181 | a reveal order seeded by cells that were already seeds, appended after an earlier reveal order, gives one reveal order of the whole fill from the first seeds |
| `Flood.ExtendFill` | app/src/main/java/com/example/gridlayout/MainActivity.java:174-179 | one neighbour visit of the scan keeps the scan closed; the cells revealed by the visit, appended to the scan's order so far, give a reveal order seeded by the neighbourhood; the scan stays mine-free when the neighbourhood has no mine |
| `Flood.RevealStep` | app/src/main/java/com/example/gridlayout/MainActivity.java:143-170 | revealing a non-blank cell reveals exactly that cell, in the order `[x]`; revealing a blank cell and then filling from its neighbours is a closed fill whose order starts at the cell, and every later cell is a neighbour of a blank cell revealed before it |
| `Flood.MineRevealedIff` | app/src/main/java/com/example/gridlayout/MainActivity.java:114-120 | starting with no mine revealed, a dig ends with a mine revealed exactly when the dug cell is a mine |
| `Minesweeper.FlagClick` | app/src/main/java/com/example/gridlayout/MainActivity.java:124-139 | a flag-mode click leaves the flags of a revealed cell alone, flips the flag of an unrevealed one, and never touches another cell's flag |
| `Minesweeper.FlagClickTwice` | app/src/main/java/com/example/gridlayout/MainActivity.java:124-139 | two flag-mode clicks on the same cell restore the original flags |
| `Minesweeper.ScannedStep` | app/src/main/java/com/example/gridlayout/MainActivity.java:174-176 | each step of the row-major scan adds exactly the current cell to the scanned neighbours when it is on the board and not the centre |
| `Minesweeper.Game.constructor` | app/src/main/java/com/example/gridlayout/MainActivity.java:25-30 | a new game has three fresh all-false grids, pickaxe mode, is waiting for the first click, is not over, and satisfies the game invariant |
| `Minesweeper.Game.SwitchMode` | app/src/main/java/com/example/gridlayout/MainActivity.java:77-85 | the mode flips between pickaxe and flag at any time, keeping the game invariant and touching nothing else |
| `Minesweeper.Game.Click` | app/src/main/java/com/example/gridlayout/MainActivity.java:95-140 | keeps the game invariant; once over, nothing changes; a live first click places the mines from the draws, and a first pickaxe click never loses; a pickaxe click on a revealed or flagged cell changes nothing; otherwise it reveals the cell, and only the cell when it is a mine or has a mine around it; the fill is closed, and its reveal order starts at the cell and spreads only through blank cells; the game ends exactly on a mine; a flag click toggles the flag of an unrevealed cell |
| `Minesweeper.Game.Play` | app/src/main/java/com/example/gridlayout/MainActivity.java:113-139 | on a started, live game: a pickaxe click digs as `Dig` states, and a flag click toggles the flag as `FlagClick` states and reveals nothing; the invariant is kept |
| `Minesweeper.Game.Start` | app/src/main/java/com/example/gridlayout/MainActivity.java:108-111 | the first click places exactly the mines the sampler accepts, clears `firstClick`, and leaves a live game with no reveals or flags that keeps the invariant |
| `Minesweeper.Game.Dig` | app/src/main/java/com/example/gridlayout/MainActivity.java:114-121 | a pickaxe click on a revealed or flagged cell changes nothing; otherwise it reveals the cell, and only the cell when it is not blank; the fill is closed and its reveal order spreads from the cell through blank cells only; the game ends exactly when the cell is a mine; the invariant is kept |
| `Minesweeper.Game.Flag` | app/src/main/java/com/example/gridlayout/MainActivity.java:124-139 | a flag-mode click changes the flags exactly as `FlagClick` and keeps the invariant |
| `Minesweeper.Game.CountSurroundingMines` | app/src/main/java/com/example/gridlayout/MainActivity.java:202-215 | the nested loops return the clipped 3 x 3 mine count, `SurroundingMines`, reading only in-bounds cells |
| `Minesweeper.Game.PlaceMines` | app/src/main/java/com/example/gridlayout/MainActivity.java:185-199 | the sampling loop leaves exactly the mine set that `Sampled` specifies, from the mines before and the draws |
| `Minesweeper.Game.RevealCell` | app/src/main/java/com/example/gridlayout/MainActivity.java:143-170 | a revealed cell is left unchanged, and cells only ever become revealed; an unrevealed non-blank cell (a mine, or a cell with a mine around it) reveals only itself; a safe cell reveals no mine; the fill is closed (every blank cell revealed has all its neighbours revealed); the returned order lists exactly the newly revealed cells, starting from the cell, each one a neighbour of an earlier blank one |
| `Minesweeper.Game.RevealAdjacentCells` | app/src/main/java/com/example/gridlayout/MainActivity.java:173-182 | every on-board neighbour other than the centre ends up revealed; nothing is un-revealed; no mine is revealed when the neighbourhood is mine-free; the fill is closed; the returned order lists exactly the newly revealed cells, each one a neighbour of the centre or of an earlier blank one |

## Left out

- Android view code is not modelled, because it is presentation only. This covers widget creation and layout, colours, the text shown in cells (mine symbol, count, flag) and the mode button's label.
- `dpToPixel` is not modelled: it is screen-density floating point.
- `gameOverScreen` and `GameOverActivity.java` are not part of this model. They only navigate to another screen. A click on a finished game is modelled as changing nothing.
- `findIndexOfCellTextView` is a search over widgets by reference. `Minesweeper.Game.Click` takes the cell `(i, j)` directly. The index arithmetic it replaces (`n / COLS`, `n % COLS`, `row * COLS + col`) is covered by `Board.CellIndexRoundTrip`.
- `java.util.Random` becomes an oracle: the sequence `samples` of the draws it would return, each on the board. `Minesweeper.Game.PlaceMines` stops when the sequence runs out, whereas the source keeps drawing until it has placed TOTAL_MINES mines. Probability and fairness are not modelled.
- `Placement.FirstPlacement`: "exactly TOTAL_MINES mines" is proved only when the draws contain at least TOTAL_MINES distinct cells outside the safety zone. This is weaker than the source, because the draw sequence is finite. Without that condition it proves "at most TOTAL_MINES".
- `Minesweeper.Game.Click`: this contract is weaker than the source in the same way. When the draws run short, the first click places fewer mines.
- The click handler is split into `Click` (the game-over check and the first-click placement, `Start`) and `Play` (the mode dispatch to `Dig` or `Flag`). The steps and their order are unchanged.
- `Minesweeper.Game.Click` does not restate that the mode and the grid references stay the same. Its modifies clause leaves out `playerMode` and the three grid fields, so neither can change.
- Java `int` overflow is not modelled. Every integer in the engine stays below 200.
- Each grid is its own array of the board's shape, which the source also guarantees. Aliasing between the grids is ruled out by `Valid()`.
