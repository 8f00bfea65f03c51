# Conway's Game of Life on a canvas grid — a Dafny model

The program draws a square canvas cut into 10 x 10 pixel cells. The page keeps two
pieces of state:

- `allCells` is a nested array of `{x, y, live}` records, one per cell, indexed by
  `x / 10` and `y / 10`;
- `livingCells` is a flat list of the records that are currently live.

A click toggles the cell under the mouse. The start button runs a timer, and each
tick does four things:

1. it lists the dead neighbours of the living cells that have exactly three live
   neighbours (the birth list);
2. it lists the living cells with fewer than two or more than three live
   neighbours (the kill list);
3. it joins the two lists;
4. it toggles every entry of the joined list.

This project models that engine and proves that one tick is exactly one
generation of Conway's rule.

The project has three modules:

- `Seqs` (`seqs.dfy`):
  - `Option`;
  - the "no duplicates" predicate;
  - `Filter`, which is `Array.prototype.filter`;
  - membership counting.
- `Grid` (`grid.dfy`):
  - the `Cell` and `Board` values;
  - `findCell`, `withinBounds`, `findNeighbors` and `livingNeighbors`;
  - what these compute: the cell under a pixel, the exact bounds test, the
    neighbour set, and the neighbour counts at corners, edges and inside.
- `Life` (`life.dfy`):
  - the page state `State(board, livingCells)` and its invariant `Consistent`.
    `Consistent` says that `livingCells` lists every live grid cell exactly once
    and nothing else;
  - `toggleCellLive` as the value function `Toggle`;
  - the two change lists;
  - the tick as `AfterTick`;
  - a class `Game` whose fields are `allCells` and `livingCells`. Its methods
    update those fields in place, as the page does. The constructor is the cell
    loop of `drawGrid`. `ToggleCellLive`, `ToggleNeighbors` and `Tick` are proved
    equal to the value functions: each one ensures `Snapshot() == …(old(Snapshot()))`.

The main results:

- **`Life.TickIsConway`.** After a tick, every cell is live exactly when Conway's
  rule says so.
- **A newborn cell is toggled three times.** Every live neighbour of a newborn
  cell reports it as a "dead neighbour", so the birth list holds it three times.
  Three toggles, an odd count, leave it live. `Life.BirthCount`, `Life.ToggledCell`
  and `Life.RuleFromCounts` prove this.
- **`withinBounds` is exact.** Its `width - 10` test is equivalent to the position
  naming a cell of the grid. This answers the question in the comment at
  index.js:125.

## Model

| member | source | states |
|---|---|---|
| Seqs.Filter | index.js:157 | the kept elements are exactly the members of the input that the callback accepts; the result is no longer than the input and has no duplicates when the input has none |
| Seqs.FilterMultiset | index.js:157 | every element the callback accepts is kept as many times as it occurs in the input, and every other element is dropped; so the birth list keeps each repeated dead neighbour |
| Seqs.FilterAppend | index.js:209 | filtering a concatenation is the concatenation of the filtered parts |
| Seqs.CountInSymmetric | index.js:145-153 | between two duplicate-free lists, how many entries of one the other holds is symmetric |
| Grid.StoredIsCellOf | index.js:34-39 | the record stored at index (a, b) of a well-formed grid sits at pixel (10a, 10b) |
| Grid.FindCell | index.js:72-80 | no contract of its own: the lookup `allCells[floor(x / 10)][floor(y / 10)]`, with `None` for a missing index; its meaning is stated by Grid.FindCellLocates and Grid.FindCellOfCell |
| Grid.FindCellLocates | index.js:72-80 | `findCell` returns a cell exactly when the pixel lies in that cell's 10 x 10 square, and misses exactly the pixels off the canvas |
| Grid.FindCellOfCell | index.js:72-80 | looking a grid cell up by its own coordinates finds that very record |
| Grid.WithinBounds | index.js:123-137 | no contract of its own: the four early returns in the source's order; its meaning is stated by Grid.WithinBoundsNamesCell |
| Grid.WithinBoundsNamesCell | index.js:123-137 | on aligned positions the four early returns accept exactly 0 <= x <= width - 10 and 0 <= y <= height - 10, which are exactly the positions `findCell` resolves, to a cell with those coordinates |
| Grid.NeighborCoords | index.js:106-115 | no contract of its own: the eight candidate positions in the source's order; Grid.CandidatesInBounds and Grid.NeighborsOf state what they contribute |
| Grid.CellsAt | index.js:118-120 | the `map(findCell)` gives one cell per coordinate pair, the cell `findCell` returns for it, whenever every pair names a cell |
| Grid.FindNeighbors | index.js:105-121 | at most eight neighbours come back |
| Grid.NeighborsDistinct | index.js:105-121 | no neighbour is listed twice |
| Grid.NeighborsSound | index.js:105-121 | every neighbour returned is a grid cell at Chebyshev distance at most 10 from the cell, and is never the cell itself |
| Grid.NeighborsComplete | index.js:105-121 | every grid cell at Chebyshev distance at most 10, other than the cell itself, is returned |
| Grid.NeighborsOf | index.js:105-121 | the neighbour list has no duplicates and holds exactly the grid cells adjacent to the cell |
| Grid.NeighborsSymmetric | index.js:105-121 | p is a neighbour of q exactly when q is a neighbour of p |
| Grid.CandidatesInBounds | index.js:106-118 | each of the eight candidate positions passes the bounds test exactly when the cell is not on the corresponding border |
| Grid.NeighborSpan | index.js:105-121 | the neighbour count is (columns in reach) x (rows in reach) - 1 |
| Grid.NeighborCount | index.js:105-121 | a corner cell has 3 neighbours, an edge cell 5, an interior cell 8, and a 1 x 1 grid none |
| Grid.LivingNeighbors | index.js:145-153 | the count is at most the number of neighbours; it is 0 exactly when none of them is live, and equals the number of neighbours exactly when all of them are |
| Life.ListedIffLive | index.js:4-5 | under the invariant, a grid cell is in `livingCells` exactly when it is live |
| Life.IndexOf | index.js:92-94 | `findIndex` gives -1 exactly when no entry sits at the position; otherwise it gives the first index whose entry sits at that position |
| Life.SpliceOne | index.js:97 | `splice(k, 1)` removes entry k and shifts the rest down, removing exactly one occurrence of it; `splice(-1, 1)` removes the last entry |
| Life.Birth | index.js:84-87 | no contract of its own: set the flag and push the record; Life.BirthKeepsMirror states that this keeps the invariant |
| Life.Death | index.js:88-97 | no contract of its own: clear the flag and splice out the found index; Life.DeathKeepsMirror states that this keeps the invariant |
| Life.BirthKeepsMirror | index.js:84-87 | marking a dead cell live and pushing it keeps the invariant |
| Life.DeathKeepsMirror | index.js:88-97 | marking a live cell dead and splicing out its entry keeps the invariant |
| Life.Toggle | index.js:83-101 | the grid after the toggle is the old grid with that one cell's `live` flag negated |
| Life.ToggleCellAt | index.js:83-101 | the toggled cell's flag flips and every other cell of the grid is unchanged |
| Life.ToggleKeepsConsistent | index.js:83-101 | a toggle keeps the invariant; when the cell is live, `findIndex` finds its entry, so the `-1` splice never happens; `livingCells` gains the newly live cell or loses the killed one |
| Life.ToggleTwiceBoard | index.js:83-101 | toggling the same cell twice restores the grid |
| Life.ToggleTwiceFromDead | index.js:83-101 | from a dead cell, toggling twice restores the whole state, list order included |
| Life.ToggleTwiceFromLive | index.js:83-101 | from a live cell, toggling twice moves its entry to the end of the list, so the list holds the same multiset |
| Life.ToggleTwice | index.js:83-101 | toggling the same cell twice restores the grid and the multiset of living cells |
| Life.ApplyToggles | index.js:139-143 | toggling a list of on-grid cells in order keeps the grid's shape and size; Life.ToggledCell states what happens to each cell |
| Life.ApplyTogglesSnoc | index.js:139-143 | toggling a list and then one more cell is toggling the longer list |
| Life.ApplyTogglesKeepsConsistent | index.js:139-143 | a whole run of toggles keeps the invariant |
| Life.ToggledCell | index.js:139-143 | after a run of toggles, a cell is flipped exactly when the run names its position an odd number of times |
| Life.LivingNeighborsCountsListed | index.js:145-153 | under the invariant, the live count of a list of grid cells is the number of them that are in `livingCells` |
| Life.DeadNeighborsOf | index.js:171-183 | no contract of its own: a cell's neighbours without the ones `livingCells` holds; Life.CollectedCount and Life.DeadNeighborsCount state what it contributes |
| Life.CollectDeadNeighbors | index.js:169-187 | no contract of its own: the `reduce` concatenating those lists; Life.CollectedAreDeadCells and Life.CollectedCount state its contents |
| Life.GetDeadNeighbors | index.js:166-188 | no contract of its own; Life.DeadNeighborsCount states how often each cell occurs in it |
| Life.CollectedCount | index.js:166-188 | for a list of grid cells, a dead cell p occurs as many times as the list holds neighbours of p; a live cell never occurs |
| Life.CollectedAreDeadCells | index.js:166-188 | every cell `getDeadNeighbors` returns is a dead grid cell |
| Life.DeadNeighborsCount | index.js:166-188 | a live cell never occurs in `getDeadNeighbors`; a dead cell occurs once per live neighbour |
| Life.FindCellsToKill | index.js:155-164 | no contract of its own; Life.KillListMembers and Life.KillCount state its contents |
| Life.KillListMembers | index.js:155-164 | the kill list holds exactly the live cells with fewer than 2 or more than 3 live neighbours |
| Life.KillCount | index.js:155-164 | each such cell is in the kill list once; no other cell is in it |
| Life.FindCellsToLive | index.js:190-203 | no contract of its own; Life.BirthListMembers and Life.BirthCount state its contents |
| Life.BirthListMembers | index.js:190-203 | every entry of the birth list is a dead grid cell with exactly 3 live neighbours |
| Life.BirthCount | index.js:190-203 | a dead cell with 3 live neighbours is in the birth list exactly 3 times; no other cell is in it |
| Life.ChangesOnGrid | index.js:207-209 | every entry of the joined change list lies on the grid |
| Life.AfterTick | index.js:207-213 | a tick keeps the grid's shape and size |
| Life.TickKeepsConsistent | index.js:207-213 | a tick keeps the invariant |
| Life.RuleFromCounts | index.js:207-213 | with 3 birth entries for a dead cell with 3 live neighbours and 1 kill entry for a dying live cell, the parity of the toggles gives Conway's rule |
| Life.TickCell | index.js:207-213 | after a tick, the cell at (a, b) is the record at (10a, 10b) whose flag is Conway's rule applied to its old flag and its live-neighbour count |
| Life.TickIsConway | index.js:207-213 | after a tick, every cell is live exactly when Conway's rule says so |
| Life.TickLeavesOthers | index.js:207-213 | a cell the change list does not name keeps its record unchanged |
| Life.TickCellSameGrid | index.js:207-213 | for one cell, the outcome of a tick depends only on the grid, not on the order of `livingCells` |
| Life.TickDependsOnGridOnly | index.js:207-213 | the grid after a tick depends only on the grid before it, not on the order of `livingCells` |
| Life.Game.constructor | index.js:34-39 | the grid has width / 10 rows of width / 10 cells, cell (a, b) is the dead record at (10a, 10b), no cell is listed as living, and the invariant holds |
| Life.Game.ToggleCellLive | index.js:83-101 | the fields are updated in place to exactly `Toggle` of the old state, and the invariant is kept |
| Life.Game.ToggleNeighbors | index.js:139-143 | the `forEach` loop leaves exactly the state obtained by toggling the list's cells in order, and the invariant is kept |
| Life.Game.Tick | index.js:207-213 | the timer callback leaves exactly `AfterTick` of the old state, and the invariant is kept |

## Left out

- Drawing is not modelled. This covers the canvas and the grid lines in `drawGrid`, `modifyCellDisplay`, and `initialize`'s DOM and event wiring. None of it touches the engine's state.
- The `setInterval` timer of `gameLoop` is not modelled. `Life.Game.Tick` is one run of its callback. The 500 ms period and the repetition are left out.
- `getMousePosition` and `clickHandler` are not modelled. Mouse positions are whole pixels (`int`), so fractional positions are not modelled. `Math.floor(x / 10)` is Dafny's `/`, which rounds down for a positive divisor.
- Grid.FindCell returns `None` for a pixel off the canvas. The page would get `undefined`, or a TypeError for a missing row. `Life.Game.ToggleCellLive` therefore requires an on-grid cell, whereas a click off the grid would make the page throw.
- The canvas is assumed square, with a side that is a multiple of 10. The constructor requires `width == height` and `width % 10 == 0`. `drawGrid` builds both dimensions from `canvas.width`, while `withinBounds` tests `y` against `canvas.height`. On a non-square canvas the two disagree, and that case is not modelled.
- Cells are values, not shared objects. The page holds the same record in `allCells` and in `livingCells` and mutates it in place. The model identifies a record by its position instead: `Life.IndexOf` matches entries by `x` and `y`. Under the invariant, the entry that the page's `JSON.stringify` comparison finds is the one at that position (`Life.ToggleKeepsConsistent`).
- The `JSON.stringify` comparison in `getDeadNeighbors` is modelled as record equality (`Life.NotListed`). The stringified image of an `{x, y, live}` record determines the record.
- Grid.CellsAt drops a coordinate pair that names no cell. On a well-formed grid this case never arises: the neighbour coordinates are filtered by `withinBounds` first (`Grid.WithinBoundsNamesCell`).
- Grid.FindNeighbors: its own contract states only the bound of eight. The full description of the neighbour set is in `Grid.NeighborsOf` and `Grid.NeighborCount`.
