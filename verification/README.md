# astar-visualizer grid stores and A* helpers, in Dafny

This project models the logic at the centre of the astar-visualizer web app. The app is a grid editor: the user places a
Start cell, an End cell and obstacles, resizes the grid and asks for a path. The model covers three stores, each
a pure `State -> State` function per action:

- **`src/grid/grid-slice.ts`** (module `GridSlice`). This slice keeps a `Cell[][]` grid and tracks the
  start tile, the end tile and the obstacle tiles. Its actions resize the grid, place a cell
  (`setCellState`) and reset the grid. `handleFindPath`, `setPath` and `setVisitedNodes` paint a search
  result onto the grid.
- **`src/Cell/grid-slice.ts`** (module `CellSlice`). This is the near-copy that the bound store uses. Its
  `setCellState` dispatches with `switch (CellState[state])`. In TypeScript, the reverse mapping of a
  numeric enum yields the member's name, a string, so no numeric `case` ever matches. The model keeps this
  as written, as a state machine of its own (`Step`, `Run`).
- **`src/Grid/GridStore.ts`** (module `GridStore`). This is the older sparse store, which keeps the grid as a
  flat list of `{row, col, state}` entries. It covers the dense view `getGridState`, `setCell` (with its
  start/end/obstacle bookkeeping and the `version` counter), `resetAllCells`, `setRows`, `setCols` and the
  L-shaped placeholder path of `generateRandomPath`.

The A* search of `src/services/astarService.ts` exists only as commented-out text. The behaviour of
`heuristic`, `initializeStartNode`, `getNeighbors`, `calculateCosts`, `reconstructPath` and `aStar` is pinned
by the assertions of `src/services/aStarHeuristic.test.ts` alone. `AStarNodes` and `AStarSearch` therefore give
one definition of each that meets those assertions:

- The heuristic is `isqrt(100 * (dRow² + dCol²))`, which is ten times the Euclidean distance rounded down.
- Search nodes live in an arena, and each parent is an arena index.
- The search is sound and complete: it returns a path exactly when the end is reachable from the start by
  walkable moves, and when it returns none, it has visited exactly the positions reachable from the start.
- `AStarVectors` and `AStarDetour` prove the test's concrete cases about that model. This includes the full
  run of `aStar` on the 3 x 3 grid with a centre obstacle.

JavaScript semantics that the stores depend on are written out in `Js` and `Board`:

- Reading `.row` or `.state` of `undefined` throws; this is `Result.TypeError`, and zustand then keeps the old
  state.
- `Array.from({length: n})` with a negative `n` yields an empty array.
- `slice(0, n)` with a negative `n` counts from the end.
- A write outside the grid throws.

## Model

| member | source | states |
|---|---|---|
| Js.Length | src/grid/grid-slice.ts:80-81 | `Array.from({length: n})` has `n` elements, and none when `n` is negative |
| Js.Slice | src/grid/grid-slice.ts:63 | `slice(0, n)` returns a prefix of the row, never longer than the row |
| Js.SliceNonNegative | src/grid/grid-slice.ts:89 | for `n >= 0`, `slice(0, n)` keeps exactly the first `min(n, length)` elements |
| Js.Remove | src/grid/grid-slice.ts:135-137 | the obstacle filter removes every occurrence of the tile, keeps every other element as many times as it occurs, and adds nothing |
| Js.RemoveAppend | src/grid/grid-slice.ts:135-137 | the filter works element by element, so the kept elements stay in their original order: it distributes over concatenation and keeps a single element exactly when it differs from the tile |
| Js.RemoveKeepsNoDuplicates | src/grid/grid-slice.ts:135-137 | filtering a duplicate-free obstacle list leaves it duplicate-free |
| Board.Write | src/grid/grid-slice.ts:118 | assigning `newCells[row][col].state` succeeds exactly when the cell exists (otherwise TypeError); only that cell's state changes |
| Board.Blank | src/grid/grid-slice.ts:33-39 | the initial grid is rows x columns, every cell records its own position and is Empty |
| Board.Fresh | src/grid/grid-slice.ts:53-59 | the cells appended to a row are at consecutive columns from `columns`, in the given row, Empty |
| Board.ResizeColumns | src/grid/grid-slice.ts:49-64 | the column resize throws exactly when growing while some row is empty; otherwise every row is resized by the same rule |
| Board.ResizeColumnsWellFormed | src/grid/grid-slice.ts:47-72 | on a well-formed grid with `n >= 0`: throws iff `n > columns == 0 < rows`; else rows x n, common cells kept, new cells Empty |
| Board.ResizeColumnsIntendedWellFormed | src/grid/grid-slice.ts:47-72 | the corrected column resize yields a well-formed rows x n grid for every `n >= 0` and agrees with the original when that one succeeds |
| Board.ResizeRowsWellFormed | src/grid/grid-slice.ts:73-98 | on a well-formed grid with `n >= 0`, the row resize yields n x columns, keeps the common rows and fills new rows with Empty cells labelled with their row |
| GridSlice.Initial | src/grid/grid-slice.ts:33-46 | the initial state is a valid 8 x 12 grid with neither a Start nor an End cell |
| GridSlice.SetNumberOfColumns | src/grid/grid-slice.ts:47-72 | throws exactly when growing while a row is empty; on success `columns = n`, rows kept, tiles, path and visited untouched |
| GridSlice.SetNumberOfColumnsShape | src/grid/grid-slice.ts:47-72 | on a valid state and `n >= 0`: throws iff growing a grid with no columns and some rows; otherwise valid, common cells kept, new columns Empty |
| GridSlice.ColumnsGrowThenShrink | src/grid/grid-slice.ts:47-72 | growing the columns and shrinking them back restores the state |
| GridSlice.SetNumberOfColumnsIntended | src/grid/grid-slice.ts:56 | the corrected resize sets `columns = n`, keeps the row count and changes no tile, path or visited list |
| GridSlice.SetNumberOfColumnsIntendedShape | src/grid/grid-slice.ts:47-72 | the corrected resize keeps every valid state valid for all `n >= 0`, with the same cells as the original when that one succeeds |
| GridSlice.GrowFromZeroColumnsThrows | src/grid/grid-slice.ts:56 | shrinking the initial grid to 0 columns succeeds and growing it back to 1 column throws |
| GridSlice.SetNumberOfRows | src/grid/grid-slice.ts:73-98 | `rows = n`; shrinking keeps `slice(0, n)` of the rows, growing keeps all old rows and appends `n - rows` more; tiles untouched |
| GridSlice.SetNumberOfRowsShape | src/grid/grid-slice.ts:73-98 | on a valid state and `n >= 0`, the result is valid, the common rows are kept and the new rows are Empty |
| GridSlice.RowsGrowThenShrink | src/grid/grid-slice.ts:73-98 | growing the rows and shrinking them back restores the state |
| GridSlice.SetCellState | src/grid/grid-slice.ts:99-149 | throws exactly when the target cell, or the previous start or end cell being cleared, is outside the grid; the target takes the state; Start or End records the new tile |
| GridSlice.StaleStartTileThrows | src/grid/grid-slice.ts:107-111 | a start tile left outside the grid by a row shrink makes the next Start placement throw |
| GridSlice.SetCellStateFrame | src/grid/grid-slice.ts:101-118 | only the target cell and, for Start or End, the previous start or end cell change, and that one becomes Empty |
| GridSlice.SetCellStateObstacles | src/grid/grid-slice.ts:127-138 | an Obstacle is listed exactly once afterwards and at most one entry is added; Empty unlists the tile and keeps the others; other states keep the list |
| GridSlice.SetCellStateKeepsValid | src/grid/grid-slice.ts:99-149 | placing a cell keeps the bookkeeping valid: one tracked Start, one tracked End, every Obstacle listed, no duplicates |
| GridSlice.ValidHasUniqueStartAndEnd | src/grid/grid-slice.ts:107-126 | under that bookkeeping, two Start cells (or two End cells) are the same cell |
| GridSlice.ResetCells | src/grid/grid-slice.ts:150-165 | every cell Empty at the same position, start, end, obstacles, path and visited cleared, dimensions kept |
| GridSlice.ResetCellsValidIdempotent | src/grid/grid-slice.ts:150-165 | resetting a well-formed state yields a valid one, and resetting twice equals resetting once |
| GridSlice.PaintPath | src/grid/grid-slice.ts:182-187 | a cell whose position is on the path becomes Path, whatever its state; every other cell is unchanged |
| GridSlice.PaintVisited | src/grid/grid-slice.ts:189-194 | a cell changes only from Empty to Visited, every listed Empty cell does, and a cell not in the visited list keeps its state |
| GridSlice.PaintIdempotent | src/grid/grid-slice.ts:207-234 | painting the same path, or the same visited list, a second time changes nothing |
| GridSlice.SetPath | src/grid/grid-slice.ts:207-220 | listed cells become Path, others keep their state; tiles, path and visited untouched |
| GridSlice.SetVisitedNodes | src/grid/grid-slice.ts:221-234 | non-Empty cells are unchanged; an Empty cell becomes Visited iff it is listed |
| GridSlice.FindInRow | src/grid/grid-slice.ts:168-169 | finds the first cell of the row in the given state, and finds none iff the row has no such cell |
| GridSlice.FindCell | src/grid/grid-slice.ts:168-169 | `cells.flat().find` returns the first grid cell in the given state in row-major order, and returns nothing iff there is none |
| GridSlice.HandleFindPath | src/grid/grid-slice.ts:166-206 | without a Start or an End cell the state is unchanged; otherwise the search result is stored, path cells become Path, listed Empty cells become Visited, the rest are unchanged |
| GridSlice.PaintBoth | src/grid/grid-slice.ts:182-194 | painting the path and then the visited nodes, stated cell by cell |
| GridSlice.HandleFindPathUsesTrackedTiles | src/grid/grid-slice.ts:168-180 | on a valid state the search starts at the tracked start tile and aims at the tracked end tile |
| GridSlice.HandleFindPathKeepsValid | src/grid/grid-slice.ts:166-206 | painting a search result keeps the state valid |
| GridSlice.PaintKeepsValid | src/grid/grid-slice.ts:182-201 | a repaint that only turns cells into Path or Visited keeps the bookkeeping valid |
| CellSlice.Dispatch | src/Cell/grid-slice.ts:108-123 | a `case` arm is taken only for the number of that member; a string discriminant takes no arm |
| CellSlice.Initial | src/Cell/grid-slice.ts:29-41 | a well-formed 8 x 12 grid with no recorded tiles |
| CellSlice.SetNumberOfColumns | src/Cell/grid-slice.ts:42-64 | throws exactly when growing while a row is empty; otherwise only cells and `columns` change, the grid stays well formed and new cells are Empty |
| CellSlice.SetNumberOfRows | src/Cell/grid-slice.ts:65-90 | only cells and `rows` change; a well-formed grid stays well formed, common rows kept, new rows Empty |
| CellSlice.Repaint | src/Cell/grid-slice.ts:93-106 | the cell writes throw exactly when a written cell is missing; the target takes the state, a previous start or end cell is emptied, nothing else changes |
| CellSlice.Place | src/Cell/grid-slice.ts:91-133 | with any discriminant: throws exactly when a written cell is missing, otherwise the same writes; the Start (End) arm records the tile and otherwise the tile is kept, or forgotten by a Start (End) placement; the Obstacle arm lists the tile once, the Empty arm unlists it, other arms keep the obstacle list |
| CellSlice.PushOnce | src/Cell/grid-slice.ts:117-121 | the tile is appended unless already listed: it is then listed, other tiles keep their multiplicity and the old list is a prefix |
| CellSlice.SetCellState | src/Cell/grid-slice.ts:91-133 | as written: throws exactly when the target or the previous start (end) cell of a Start (End) placement is missing; otherwise the cell takes the state, only the previous start or end cell also changes, obstacles are never listed, and start and end tiles are only ever forgotten, never recorded |
| CellSlice.SetCellStateIntended | src/Cell/grid-slice.ts:91-133 | with `switch (state)`: the same throw condition and cell writes; a Start or End placement records its tile and other placements keep it; an Obstacle is listed once, Empty unlists the tile, Start and End keep the obstacle list |
| CellSlice.ResetCells | src/Cell/grid-slice.ts:134-147 | every cell Empty at the same position, no recorded tiles, dimensions kept |
| CellSlice.StepKeepsNoTiles | src/Cell/grid-slice.ts:91-147 | no action records a tile in a store that has none |
| CellSlice.NoTilesEverRecorded | src/Cell/grid-slice.ts:108-123 | after any sequence of actions, start, end and obstacle tiles are still empty |
| CellSlice.ReachablePlacementChangesOneCell | src/Cell/grid-slice.ts:97-106 | in every reachable state the pre-clearing never runs: a placement changes only its own cell |
| CellSlice.TwoStartsCoexist | src/Cell/grid-slice.ts:97-111 | placing Start at (0,0) and then at (1,1) leaves both cells Start |
| CellSlice.IntendedKeepsSingleStart | src/Cell/grid-slice.ts:97-111 | with the intended dispatch, every placement keeps at most one Start cell, and a Start placement becomes that cell |
| CellSlice.AsWrittenBreaksSingleStart | src/Cell/grid-slice.ts:108-111 | as written, the two placements above leave a Start cell that is not the recorded start |
| GridStore.Initial | src/Grid/GridStore.ts:29-37 | no entries, nothing placed, version 0, an 8 x 12 grid |
| GridStore.FindIndex | src/Grid/GridStore.ts:59 | `findIndex` returns the first entry at the position, and nothing iff there is none |
| GridStore.Without | src/Grid/GridStore.ts:77 | the filter leaves no entry at the position and every other position's count unchanged |
| GridStore.WithoutAppend | src/Grid/GridStore.ts:77 | the filter distributes over concatenation, so the kept entries stay in their original order |
| GridStore.WithoutOne | src/Grid/GridStore.ts:77 | a single entry is dropped exactly when it sits at the position |
| GridStore.WithoutMultiset | src/Grid/GridStore.ts:77 | an entry at the position is gone, every other entry is kept as many times as it occurs |
| GridStore.Restate | src/Grid/GridStore.ts:114-117 | only the first entry at the position gets the new state; every other entry, and the order, are unchanged |
| GridStore.NormalMatrix | src/Grid/GridStore.ts:43 | a rows x cols matrix (empty for a negative size), all NORMAL |
| GridStore.PaintAll | src/Grid/GridStore.ts:45-52 | the `forEach` throws iff some entry has a negative row that passes the bounds test; otherwise the shape is kept |
| GridStore.GetGridState | src/Grid/GridStore.ts:38-55 | the dense view is rows x cols, and throws exactly for an entry with a negative row inside the bounds test |
| GridStore.LastAt | src/Grid/GridStore.ts:45-47 | the state of the last entry at a position, and none iff no entry is there |
| GridStore.PaintAllLastWins | src/Grid/GridStore.ts:45-52 | each slot ends with the state of the last entry at that position, or its old value |
| GridStore.GetGridStateReadsLastEntry | src/Grid/GridStore.ts:38-55 | each slot of the dense view holds the last entry's state there, NORMAL if none |
| GridStore.Upsert | src/Grid/GridStore.ts:58-67 | the first entry at the position takes the new state, or exactly one entry is appended; every other entry, a later one at the same position included, is unchanged |
| GridStore.SetCell | src/Grid/GridStore.ts:56-133 | version + 1; START (END) records the new start (end); a start or end at the position is otherwise dropped |
| GridStore.SetCellEntries | src/Grid/GridStore.ts:58-118 | the list grows iff the position had no entry; the first entry there has the new state; every other entry, a later one at the same position included, is unchanged, except that a previous start or end entry is reset to NORMAL |
| GridStore.RestateOther | src/Grid/GridStore.ts:87-101 | resetting the previous start or end after the edit touches the same entry it would have touched before |
| GridStore.SetCellObstacles | src/Grid/GridStore.ts:71-107 | afterwards the obstacles list the position once for OBSTACLE and not at all otherwise; other positions keep their counts |
| GridStore.SetCellKeepsUnique | src/Grid/GridStore.ts:58-67 | `setCell` keeps the entries free of duplicate positions |
| GridStore.SetCellThenRead | src/Grid/GridStore.ts:38-67 | on a duplicate-free list, reading the dense view after `setCell` shows the new state at that position |
| GridStore.RowEntries | src/Grid/GridStore.ts:156-159 | one NORMAL entry per column of the row, in column order |
| GridStore.Generate | src/Grid/GridStore.ts:139-143 | rows x cols entries, all inside the rectangle, all NORMAL |
| GridStore.GenerateCoversOnce | src/Grid/GridStore.ts:155-161 | every position of the rectangle is generated, none twice |
| GridStore.GenerateRowMajor | src/Grid/GridStore.ts:139-143 | the nested loops emit the rectangle in row-major order: entry k is at row k / cols, column k % cols |
| GridStore.GenerateCounts | src/Grid/GridStore.ts:135-136 | a generated rectangle has one entry per row in column 0 and one per column in row 0 |
| GridStore.ResetAllCells | src/Grid/GridStore.ts:134-152 | start, end, obstacles and path cleared; version and sizes kept; the entries are exactly the NORMAL cells of the (col-0 count) x (row-0 count) rectangle, each position once |
| GridStore.ResetInfersRectangle | src/Grid/GridStore.ts:134-152 | resetting a full rectangle regenerates that same rectangle |
| GridStore.SetRows | src/Grid/GridStore.ts:154-162 | only `rows` and the entries change; the entries are exactly the NORMAL cells of the n x cols rectangle, each position once |
| GridStore.SetCols | src/Grid/GridStore.ts:164-172 | only `cols` and the entries change; the entries are exactly the NORMAL cells of the rows x n rectangle, each position once |
| GridStore.RegeneratedViewIsNormal | src/Grid/GridStore.ts:154-162 | after `setRows` the dense view shows NORMAL everywhere in the new rectangle |
| GridStore.RegeneratedColsViewIsNormal | src/Grid/GridStore.ts:164-172 | after `setCols` the dense view shows NORMAL everywhere in the new rectangle |
| GridStore.GenerateRandomPath | src/Grid/GridStore.ts:193-210 | the two loops produce exactly the L-shaped path, ignoring the entries |
| GridStore.LPathShape | src/Grid/GridStore.ts:193-210 | the path runs from start to end with `\|dRow\| + \|dCol\| + 2` entries, lists the corner `(end.row, start.col)` twice, and moves at most one cell per step |
| AStarNodes.Isqrt | src/services/aStarHeuristic.test.ts:13-20 | the integer square root behind the heuristic: `r*r <= n < (r+1)*(r+1)` |
| AStarNodes.IsqrtUnique | src/services/aStarHeuristic.test.ts:13-20 | that bracket determines the root uniquely |
| AStarNodes.Heuristic | src/services/aStarHeuristic.test.ts:13-20 | the heuristic is ten times the Euclidean distance, rounded down, and is 0 iff the positions coincide |
| AStarNodes.HeuristicSymmetric | src/services/aStarHeuristic.test.ts:13-20 | the heuristic does not depend on the direction |
| AStarNodes.HeuristicBounds | src/services/aStarHeuristic.test.ts:12-19 | the heuristic lies between 10 x Chebyshev and 10 x Manhattan distance, so it is not the Manhattan distance the comment names |
| AStarNodes.InitializeStartNode | src/services/aStarHeuristic.test.ts:23-37 | the start node is at the start, with `g = 0`, `f = h`, no parent, and `h` the heuristic to the end |
| AStarNodes.DirectionsAreAdjacent | src/services/aStarHeuristic.test.ts:40-72 | the move table lists exactly the adjacent offsets, with or without diagonals |
| AStarNodes.CollectMembers | src/services/aStarHeuristic.test.ts:40-72 | the collected cells are exactly those of the moves that land on walkable cells |
| AStarNodes.GetNeighbors | src/services/aStarHeuristic.test.ts:40-72 | at most 8 (4) neighbours, no obstacle, each one move away and walkable, and every such cell included; diagonal moves are allowed unless the caller says otherwise |
| AStarNodes.CalculateCosts | src/services/aStarHeuristic.test.ts:74-103 | the neighbour node has parent `node`, `g = node.g` + the step cost, `h` = the heuristic, `f = g + h` |
| AStarNodes.ReconstructPath | src/services/aStarHeuristic.test.ts:105-115 | the path starts at a root and ends at the given node, and each node's parent is its predecessor |
| AStarSearch.SelectMin | src/services/aStarHeuristic.test.ts:128 | the selected open entry has the least `f`, and no earlier entry has the same `f` |
| AStarSearch.FindOpen | src/services/aStarHeuristic.test.ts:128 | finds an open entry at the position, and none iff no open entry is there |
| AStarSearch.Relax | src/services/aStarHeuristic.test.ts:128 | a new position is opened; an open one is redirected only to a cheaper node |
| AStarSearch.ExpandKeepsInv | src/services/aStarHeuristic.test.ts:128 | relaxing legal neighbours keeps the arena linked and the open list sound |
| AStarSearch.PathFromArena | src/services/aStarHeuristic.test.ts:128-132 | a reconstructed path starts at the start node and moves legally with correct costs |
| AStarSearch.FoundSound | src/services/aStarHeuristic.test.ts:128-133 | stopping at the end node yields a sound result |
| AStarSearch.ExhaustedSound | src/services/aStarHeuristic.test.ts:128-133 | running out of open nodes yields a sound result with an empty path, and then every position reachable from the start is among the visited ones |
| AStarSearch.Advance | src/services/aStarHeuristic.test.ts:128 | one iteration closes exactly the selected node and only extends the arena |
| AStarSearch.AdvanceKeepsInv | src/services/aStarHeuristic.test.ts:128 | an iteration that does not reach the end keeps the invariant (including that every walkable neighbour of a closed position is closed or open, and that closed positions are reachable) and closes a new position |
| AStarSearch.AdvanceKeepsClosure | src/services/aStarHeuristic.test.ts:128 | after an iteration, every walkable neighbour of a closed position is still closed or open |
| AStarSearch.AdvanceKeepsReachable | src/services/aStarHeuristic.test.ts:128 | the position an iteration closes is reachable from the start by walkable moves |
| AStarSearch.ArenaReachable | src/services/aStarHeuristic.test.ts:128 | every node the search creates sits at a position reachable from the start |
| AStarSearch.ExpandSeen | src/services/aStarHeuristic.test.ts:128 | relaxing the neighbours of a node leaves each of them closed or open and forgets no position already seen |
| AStarSearch.WalkStaysIn | src/services/aStarHeuristic.test.ts:128-133 | a walk from a set of positions closed under walkable moves never leaves that set |
| AStarSearch.Run | src/services/aStarHeuristic.test.ts:128-133 | the loop terminates with a sound result whose visited nodes extend the closed list |
| AStarSearch.RunContinues | src/services/aStarHeuristic.test.ts:128 | a search that has not reached the end continues from the advanced frontier |
| AStarSearch.AStar | src/services/aStarHeuristic.test.ts:117-135 | a non-empty path runs from the start node to the end by legal, correctly costed moves; visited nodes start at the start, are distinct and are reachable from it; an empty path means the end was never expanded and every reachable position was visited |
| AStarSearch.AStarFindsPathIffReachable | src/services/aStarHeuristic.test.ts:117-135 | the search returns a path exactly when the end is reachable from the start by walkable moves; with no path, the visited positions are exactly the positions reachable from the start |
| AStarVectors.HeuristicVector | src/services/aStarHeuristic.test.ts:13-20 | `heuristic((3,0), (0,4)) = 50` |
| AStarVectors.InitializeStartNodeVector | src/services/aStarHeuristic.test.ts:23-37 | from (0,0) towards (5,5): `g = 0`, `f = h = 70`, no parent |
| AStarVectors.GetNeighborsVector | src/services/aStarHeuristic.test.ts:40-72 | from the centre of the test grid the neighbours are exactly (1,0), (1,2), (0,0), (0,2), (2,0), (2,2), in that order |
| AStarVectors.CalculateCostsVector | src/services/aStarHeuristic.test.ts:74-103 | from (2,3) with `g = 5` to (3,3) towards (5,5): `g = 15`, `h = 28`, `f = 43` |
| AStarVectors.ReconstructPathVector | src/services/aStarHeuristic.test.ts:105-115 | the chain start, middle, end is returned start first |
| AStarDetour.DetourPath | src/services/aStarHeuristic.test.ts:128-132 | on the final arena of the detour search, the path reconstructed from the end is (0,0), (1,0), (2,1), (2,2) |
| AStarDetour.AStarDetourPath | src/services/aStarHeuristic.test.ts:117-135 | on the 3 x 3 grid with a centre obstacle, `aStar((0,0), (2,2))` returns the path (0,0), (1,0), (2,1), (2,2) of 4 nodes and the 6 visited nodes (0,0), (1,0), (0,1), (2,1), (1,2), (2,2) |

## Left out

- The React components, the stories, the layout and control-panel slices and `src/BoundedStore.ts` are left out. They
  are rendering, DOM events and zustand wiring, with no logic beyond calling the actions modelled here.
- The A* routine of `src/services/astarService.ts` is commented out, so no code fixes its internals. The search
  here is one definition that meets the test's assertions, and three of its choices are not fixed by any code:
  - the diagonal step cost of 14;
  - on equal `f`, the first open entry in insertion order wins;
  - a cheaper route to an open position adds a new arena node and redirects the open entry to it.
- Math.sqrt: the heuristic is `isqrt(100 * d²)`, the exact floor of `10 * sqrt(d²)`. Floating-point rounding of
  `10 * Math.sqrt(...)` is not modelled. The test vectors 50 and 28 do not tell rounding down apart from rounding
  to nearest.
- GridSlice.HandleFindPath: the search is a parameter rather than `AStarSearch.AStar`. `AStar` requires every cell to
  record its own position, which valid states satisfy, but a Dafny function value cannot carry that
  precondition. `AStarDetour` covers the search on its own.
- AStarSearch.AStar: the contracts state that the result is sound and complete but not that the path is the cheapest one. The
  test names a shortest path but asserts only the length, the endpoints and a non-empty visited list.
- `GridStore.findPath` (src/Grid/GridStore.ts:173-190) is left out: it calls an unbound `setCell` and only logs.
  `generateRandomPath` is modelled instead.
- Console logging is left out: `console.log` and `console.error` in `getGridState` and `setCell` are output only.
- Object aliasing in `setCell` is not modelled. `setCell` mutates entries shared with the previous list
  (src/Grid/GridStore.ts:63, 91, 100); the model uses value semantics, and the new list is the same either way.
- `src/enums.ts` and `src/enums/TileStates.ts` are not part of this model:
  - `Enums.CellState` lists the members the grid slice uses (Empty, Start, End, Obstacle, Path, Visited);
  - `GridStore.TileState` has `Other` for any further member, which `setCell` handles in its `default` arm.
- Sizes and coordinates are integers. `NaN` and fractional sizes are not modelled.
- The zustand `set` merge is modelled as returning the whole new state.

## Findings

| source | as written | input that shows it | evidently intended | confidence | as-written member | corrected member |
|---|---|---|---|---|---|---|
| src/Cell/grid-slice.ts:108 | `switch (CellState[state])` compares the member name (a string) with numeric `case` labels, so no arm runs and no tile is recorded | from the initial state, place Start at (0,0) and then at (1,1): both cells stay Start and `startTile` stays `null` (`CellSlice.AsWrittenBreaksSingleStart`) | `switch (state)`, which records the start, end and obstacle tiles and keeps a single Start cell (`CellSlice.IntendedKeepsSingleStart`) | not executed | CellSlice.SetCellState | CellSlice.SetCellStateIntended |
| src/grid/grid-slice.ts:56 | growing the columns labels new cells with `row[0].row`, which throws on a row with no cells (the same line is src/Cell/grid-slice.ts:49) | from the initial state, set the columns to 0 and then to 1: the second call throws and the grid can never regain columns (`GridSlice.GrowFromZeroColumnsThrows`) | take the row index from the row's position, so every `n >= 0` yields a valid grid (`GridSlice.SetNumberOfColumnsIntendedShape`) | not executed | GridSlice.SetNumberOfColumns | GridSlice.SetNumberOfColumnsIntended |
