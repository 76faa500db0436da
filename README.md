# Minesweeper engine

A Dafny model of the game engine of the `App` component in `src/App.js`.
The board is fixed at 9×9 with 10 bombs. The model covers:

- the neighbourhood function `getSibblings`;
- board generation (`getBombsPosition` and `initBoard`), with the adjacency counts;
- the reveal handlers `openCell`, `openOtherCellWithoutSibbling` (with its recursive `loopSibbling`) and `handleClick`;
- the win/lose flags.

Layout:

- `grid.dfy` (module `Grid`): positions, `getSibblings`, and an independent definition of adjacency.
- `board.dfy` (module `Board`):
  - cells and boards, as values;
  - counting open cells and bombs;
  - the `Opened` operation.
- `generation.dfy` (module `Generation`): rejection sampling of the bomb positions, and the bomb-placing loop of `initBoard`.
- `flood.dfy` (module `Flood`):
  - the cascade `loopSibbling`, as a recursive method over a shared list;
  - the soundness and completeness predicates it meets;
  - the proof that they determine the set of opened cells.
- `game.dfy` (module `Game`): the class `App`. It has the component's five state fields, and a `Valid` invariant. `InitBoard` establishes it and `HandleClick` keeps it; `OpenCell` and `OpenOtherCellWithoutSibling` are steps inside `HandleClick` and promise only their own contracts.

Modelling choices:

- A cell's `sibblingBomb` is the datatype `Tally`:
  - `Num(n)` for a number;
  - `Deleted` after `delete currCell.sibblingBomb` marks a bomb;
  - `NaN` for `undefined + 1` or `NaN + 1`, which is what a bomb cell gets when a neighbouring bomb is placed after it.

  So bomb cells never hold a number: line 49 deletes `sibblingBomb`, and a neighbouring bomb placed later turns the missing value into `NaN` (line 58).
- The board is a value (`seq<seq<Cell>>`), so the object spreads of the source need no modelling. The JSON deep copy of line 114 is modelled as an exact copy; "## Left out" says where it is not one.
- Names spell "sibling" correctly where the source writes "sibbling": `Grid.Siblings` is `getSibblings`, `Flood.LoopSiblings` is `loopSibbling`, `Game.App.OpenOtherCellWithoutSibling` is `openOtherCellWithoutSibbling`, and `Generation.IncrementSiblings` is the inner `forEach` of lines 53-59. The cell field `sibblingBomb` keeps the source's spelling.
- `Math.random` becomes an input stream `draws` of in-grid positions. `AdequateDraws` requires the stream to hold at least 10 distinct positions. Otherwise the source's sampling loop never ends.
- React batches the state updates of one event. `handleClick` and `openCell` read `this.state`, which is the state as it was before the click. `openCell` therefore takes that snapshot (`seen`) as a parameter. The updates are applied in the order their updater functions run.
- After a loss or a win the rendered board takes no clicks. `App.HandleClick` therefore requires `isPlaying`.

## Model

| member | source | states |
|---|---|---|
| `Grid.Candidates` | src/App.js:5-13 | the array literal lists eight positions, each once, and they are exactly the positions adjacent to the cell (independent definition `Adjacent`) |
| `Grid.KeepInGrid` | src/App.js:14 | keeps exactly the listed positions inside the 9×9 grid, never adds any, and keeps a repeat-free list repeat-free |
| `Grid.Siblings` | src/App.js:4-15 | a position's neighbour list holds exactly the in-grid positions adjacent to it (independent definition `Adjacent`), each once, never the position itself |
| `Grid.SiblingsSymmetric` | src/App.js:4-15 | for two cells of the grid, each is in the other's neighbour list or neither is |
| `Grid.SiblingsByRow` | src/App.js:4-15 | the neighbour count, summed over the three rows of the 3×3 block around the cell |
| `Grid.SiblingsCount` | src/App.js:4-15 | a corner cell has 3 neighbours, another border cell 5, an inner cell 8 |
| `Board.Inc` | src/App.js:58 | `currSibbling + 1`: a number goes up by one; a deleted count (`undefined`) or `NaN` gives `NaN` |
| `Board.RowCount` | src/App.js:97 | `row.filter(...).length`: the number of cells of a row that pass the filter, at most the row's length |
| `Board.OpenCount` | src/App.js:96-98 | the `reduce` over the rows: the number of open cells of the board, at most 81 |
| `Board.BombsAmongZero` | src/App.js:53-60 | the number of bombs among a list of positions is 0 exactly when none of them holds a bomb |
| `Board.ClosedGrid` | src/App.js:36-44 | the fresh board has 9 rows of 9 cells, each closed, without a bomb and with count 0 |
| `Board.Put` | src/App.js:50 | replacing one cell changes that cell and no other |
| `Board.OpenCountBound` | src/App.js:96-104 | with 10 bombs and no open bomb, at most 71 cells are open, and 71 are open exactly when every safe cell is open |
| `Board.SameBombsCounts` | src/App.js:53-60 | boards with their bombs in the same places have the same bomb total and the same number of bombs around every cell, at most 8 |
| `Board.CountsBounded` | src/App.js:53-60 | on a board with correct counts, a safe cell holds a number no larger than its number of neighbours |
| `Board.OpenedFacts` | src/App.js:142-148 | opening a set of cells opens exactly those that are in the grid, leaves every bomb where it was, never lowers the open count, raises it if some cell was closed, and opens no bomb if the set holds none |
| `Board.OpenedUnion` | src/App.js:142-148 | opening one set of cells and then another is opening their union |
| `Board.CountsCorrectOpened` | src/App.js:142-148 | opening cells keeps every safe cell's count equal to its number of neighbouring bombs |
| `Generation.KeepFirst` | src/App.js:78-84 | reference for the deduplicating push: no repeats, the same positions as the draws, never longer |
| `Generation.BombsPosition` | src/App.js:72-88 | returns 10 distinct in-grid positions: the first 10 distinct draws, in draw order; it stops at the draw that completes them |
| `Generation.IncrementSiblings` | src/App.js:53-60 | each in-grid neighbour of the bomb gets its count incremented (number+1, otherwise `NaN`); every other cell and every other field stays |
| `Generation.PlaceBomb` | src/App.js:47-61 | placing one more bomb keeps the board described by `Placed` for the longer list, and adds one to the bomb total when the cell was not yet a bomb |
| `Generation.PlaceBombs` | src/App.js:36-61 | all cells closed; a cell is a bomb exactly when its position is listed; a safe cell's count is the number of listed positions among its neighbours; a bomb cell holds no number; with distinct positions there are exactly that many bombs |
| `Generation.PlacedCountsCorrect` | src/App.js:46-61 | for distinct bombs, every safe cell's count equals the number of bombs around it, which is the size of its neighbour set intersected with the bomb set |
| `Flood.EmptyMeansNoBombAround` | src/App.js:132 | on a board with correct counts, a safe cell passes the test `sibblingBomb === 0` exactly when none of its neighbours holds a bomb |
| `Flood.KeepSafe` | src/App.js:118-121 | keeps exactly the listed positions without a bomb |
| `Flood.SafeSiblings` | src/App.js:118-121 | exactly the in-grid adjacent positions without a bomb, each once |
| `Flood.LoopSiblings` | src/App.js:117-138 | the shared list only grows and stays repeat-free and bomb-free; every entry is a neighbour of the start or of an earlier listed cell with count 0; all safe neighbours of the visited cell end up listed, and so do those of every count-0 cell the call appended; it terminates because each recursion lists a new cell |
| `Flood.CollectCascade` | src/App.js:138-140 | the cascade list from the clicked cell is sound and complete (`FloodOf`) |
| `Flood.DiscoveredSafe` | src/App.js:118-121 | every cell in a cascade list is in the grid and holds no bomb |
| `Flood.FloodPrefixIncluded` | src/App.js:117-140 | every entry of one sound and complete cascade list appears in any other |
| `Flood.FloodUnique` | src/App.js:117-140 | any two sound and complete cascade lists hold the same cells, so which cells open does not depend on the search order |
| `Flood.OpenListed` | src/App.js:142-148 | the copied board with exactly the listed cells set open |
| `Game.App.constructor` | src/App.js:18-28 | no board, nothing open, playing, neither won nor lost |
| `Game.App.InitBoard` | src/App.js:34-70 | the bombs are the first 10 distinct draws; all cells are closed and counted correctly; `cellOpened` is 0; playing; the invariant `Valid` holds |
| `Game.App.OpenCell` | src/App.js:90-111 | if the cell was closed in the handler's snapshot, the cell is opened on the pending board, `cellOpened` becomes the board's open count, and reaching 71 sets won and stops play; otherwise nothing changes; lost is never touched |
| `Game.App.OpenOtherCellWithoutSibling` | src/App.js:113-160 | the board becomes the given board with exactly the cells of a sound and complete cascade open; `cellOpened` is its open count; the flags stay |
| `Game.App.RevealSafeCell` | src/App.js:177-180 | the clicked safe cell and, when its count is 0, its whole cascade are opened; `cellOpened` strictly rises; won exactly when every safe cell is open; the invariant holds |
| `Game.App.HandleClick` | src/App.js:162-181 | an open cell: nothing changes; a bomb: lost, play stops, board and count unchanged; a safe cell: as `RevealSafeCell`; in every case the invariant `Valid` is kept |
| `Game.RevealSafe` | src/App.js:177-180 | opening a set of safe cells, one of them closed, keeps no bomb open, the bomb total and all counts; it raises the open count, to at most 71, and 71 means every safe cell is open |

## Left out

- The React plumbing is not modelled: `componentDidMount`, `render`, `classnames` and `setState` scheduling. Each handler applies its updates directly, in the order React runs the queued updaters within one click.
- `handleReset` is `initBoard` again. The read-only helpers `isBomb` and `isOpen` only look up a cell, as `Board.At` does.
- `handleClick` parses the cell's `id` string (`"row-cell"`); the model takes the row and column as integers. The cells' `id` field is not modelled either.
- `Math.random` is not modelled; `draws` stands for its successive results.
- Generation.BombsPosition: requires a stream with at least 10 distinct positions. On any other stream the source loops forever, and the model does not state that non-termination.
- The deep copy of line 114 (`JSON.parse(JSON.stringify(board))`) turns a bomb cell's `NaN` count into `null`; the model keeps `NaN`. No handler reads a bomb cell's count: lines 118-121 and 172 test `isBomb` first, and line 132 compares with 0.
- The JSON comparisons of positions (lines 80 and 127) are replaced by equality of pairs. That is what they compute for integer pairs.
- Lines 182-184 are not modelled. They test `this.state`, which still holds the state before the click. While the game is playing, `cellOpened` there is below 71, so the test never fires. Winning is set by `openCell`.
- Game.App.HandleClick: requires `isPlaying`, rather than modelling clicks on a finished game. Once the game is over the rendered board offers no cell to click.
- Flood.LoopSiblings: its contract does not fix the order of the cascade list. It fixes the list's soundness and completeness, and `Flood.FloodUnique` shows that these determine which cells it holds.
- Game.App.OpenCell: neither requires nor promises `Valid`. Called on its own over a closed bomb it would open the bomb. In `handleClick` it runs only on a closed safe cell, after the bomb test of line 172.
- Game.App.OpenOtherCellWithoutSibling: as a stand-alone call it writes `cellOpened` without a win check, so `Valid` is not promised after it. In `handleClick` it is always followed by `openCell`, which does the check.
