# Grid level streaming volume

A Dafny model of `AGridLevelStreamingVolume`, the actor of the DifferentWorlds
game that streams levels in and out around the player. The volume divides an
area into `RowsCount` x `ColumnsCount` grid cells. Every frame it works out which
cell holds the player. It keeps the levels of the `NeighbourRange` x `NeighbourRange`
window around that cell loaded. When the player first enters the grid, the
window is reloaded in full. When the player steps to a neighbouring cell, only
the trailing row and/or column is unloaded and the leading one loaded.

The model has four modules:

- `Geometry` (geometry.dfy) covers cell size, cell centres and the half-open
  containment test. Positions and sizes are exact reals. It also proves that
  the cells partition the grid's area, and how a point on a shared edge is
  assigned.
- `GridWindow` (window.dfy) covers grid coordinates and the window a cell
  should have loaded (`Window`). It defines the key sets produced by the
  incremental shift formula (`RowStep`, `ColumnStep`, `ShiftedKeys`). It proves
  that a shift to any of the eight neighbours lands exactly on the new window.
- `Streaming` (streaming.dfy) holds the class `GridLevelStreamingVolume`:
  - Its fields are the configuration, the cell-centre table, the tracked and
    previous cells, and the map of loaded levels.
  - Its methods follow the source's methods one by one, except that the two
    halves of an incremental reload are the methods `ShiftRows` and
    `ShiftColumns`, and each scan is split into a search and an update.
  - `Tick` takes the player's position as a parameter.
  - The level loader is replaced by handles numbered in load order.
  - The unload signal is replaced by a log of the handles told to unload.
- `Scenario` (scenario.dfy) drives the class through a worked example: a
  5 x 5 grid, range 3, a player moving from (25, 25) to (35, 25).

The configuration (counts, range, extents, origin, cell size and the cell
table) is declared `const`, so no method can change it.

Class invariant (`Valid`):
- The cell table holds every cell's centre.
- The tracked cell and the previous cell are each unset (-1, -1) or a grid cell.
- Every loaded level belongs to a grid cell, sits at that cell's centre, and
  carries the serial number of one of the loads issued so far; no two loaded
  levels share a serial number.
- While a cell is tracked, the loaded keys are exactly that cell's window.

Two points about the behaviour:

- **Edge points.** Containment is `start < p <= end` on both axes. So a point
  on the line shared by cells k and k + 1 belongs to k, the lower index.
  `Geometry.ColumnEdgeBelongsToLower` and `Geometry.RowEdgeBelongsToLower`
  state this.
- **Diagonal moves.** The incremental reload treats each changed axis on its
  own, so a diagonal move shifts a row and then a column. This also lands on
  the new window (`GridWindow.ShiftKeepsWindow`).

## Model

| member | source | states |
|---|---|---|
| Geometry.CellSizeOf | DifferentWorlds/Source/DifferentWorlds/Private/GridLevelStreamingVolume.cpp:21-24 | the cell size times the column (row) count gives back the X (Y) extent |
| Geometry.CentreLayout | DifferentWorlds/Source/DifferentWorlds/Private/GridLevelStreamingVolume.cpp:33-34 | cell (0, 0) is centred on the origin; the next column's centre lies one cell width further along X at the same Y, the next row's one cell height further along Y at the same X; a cell of positive size contains its own centre |
| Geometry.Overlapping | DifferentWorlds/Source/DifferentWorlds/Private/GridLevelStreamingVolume.cpp:61-75 | the test is start < p <= end on both axes; only a cell of positive size contains anything, and a position it contains lies in none of the four equal-sized cells sharing an edge with it |
| Geometry.AxisIndex | DifferentWorlds/Source/DifferentWorlds/Private/GridLevelStreamingVolume.cpp:65-70 | along one axis, the returned index's half-open span contains the coordinate, and no other index's span does |
| Geometry.CellAt | DifferentWorlds/Source/DifferentWorlds/Private/GridLevelStreamingVolume.cpp:61-75 | the returned cell contains the position under the overlap test, and every cell that contains it is that cell, so containment picks one cell |
| Geometry.Partition | DifferentWorlds/Source/DifferentWorlds/Private/GridLevelStreamingVolume.cpp:27-36 | some cell of the rows x cols grid contains a position iff the position lies in (origin - size/2, origin + (count - 1/2) size] on both axes; then the unique containing cell is a grid cell |
| Geometry.ColumnEdgeBelongsToLower | DifferentWorlds/Source/DifferentWorlds/Private/GridLevelStreamingVolume.cpp:65-70 | a position on the line between columns j and j+1 lies in column j and not in column j+1 |
| Geometry.RowEdgeBelongsToLower | DifferentWorlds/Source/DifferentWorlds/Private/GridLevelStreamingVolume.cpp:67-70 | a position on the line between rows i and i+1 lies in row i and not in row i+1 |
| Geometry.ScenarioPlayerCells | DifferentWorlds/Source/DifferentWorlds/Private/GridLevelStreamingVolume.cpp:21-34 | with extents 50 x 50 over 5 x 5 cells, the cells are 10 wide; (25, 25) lies in cell (2, 2) and (35, 25) in cell (2, 3) |
| GridWindow.Window | DifferentWorlds/Source/DifferentWorlds/Private/GridLevelStreamingVolume.cpp:173-179 | the window holds only grid cells; for an odd range it is the square of rows and columns c ± range/2; a grid cell is in its own window |
| GridWindow.WindowSize | DifferentWorlds/Source/DifferentWorlds/Private/GridLevelStreamingVolume.cpp:175-177 | for an odd range a window holds at most range² cells, and exactly range² when the square lies inside the grid |
| GridWindow.ShiftKeepsWindow | DifferentWorlds/Source/DifferentWorlds/Private/GridLevelStreamingVolume.cpp:129-146 | for an odd range and any of the 8 neighbour moves, applying the row shift and then the column shift to the old window gives exactly the new window, including under edge clipping |
| GridWindow.ShiftDropsOutsideWindow | DifferentWorlds/Source/DifferentWorlds/Private/GridLevelStreamingVolume.cpp:133-143 | the row and the column an adjacent shift unloads contain no cell of the new window |
| GridWindow.NeighbourShift | DifferentWorlds/Source/DifferentWorlds/Private/GridLevelStreamingVolume.cpp:122-147 | a map holding the old window, shifted to an adjacent cell while keeping every entry outside the dropped row and column, holds exactly the new window, and every level it still holds is the one it held before |
| GridWindow.ColumnStepDifference | DifferentWorlds/Source/DifferentWorlds/Private/GridLevelStreamingVolume.cpp:139-145 | a step from column c to c+1 removes exactly column c - range/2 and adds exactly column c+1 + range/2, over the window's rows |
| GridWindow.RowStepDifference | DifferentWorlds/Source/DifferentWorlds/Private/GridLevelStreamingVolume.cpp:131-138 | a step from row r to r+1 removes exactly row r - range/2 and adds exactly row r+1 + range/2, over the window's columns |
| GridWindow.EvenRangeShiftLeavesWindow | DifferentWorlds/Source/DifferentWorlds/Private/GridLevelStreamingVolume.cpp:141-144 | with an even range the shift formula does not keep the window: on a 9 x 9 grid with range 2, moving (4,4) to (4,5) loads (3,6), which is outside the new window |
| GridWindow.ScenarioFullWindow | DifferentWorlds/Source/DifferentWorlds/Private/GridLevelStreamingVolume.cpp:174-178 | on a 5 x 5 grid with range 3, the window of (2,2) is rows 1-3 x columns 1-3 |
| GridWindow.ScenarioColumnShift | DifferentWorlds/Source/DifferentWorlds/Private/GridLevelStreamingVolume.cpp:139-144 | moving from (2,2) to (2,3) unloads column 1 and loads column 4, rows 1-3 each, and the shift reaches the window of (2,3) |
| GridWindow.ScenarioShiftedWindow | DifferentWorlds/Source/DifferentWorlds/Private/GridLevelStreamingVolume.cpp:176-177 | on the same grid, the window of (2,3) is rows 1-3 x columns 2-4 |
| GridWindow.ScenarioCornerWindow | DifferentWorlds/Source/DifferentWorlds/Private/GridLevelStreamingVolume.cpp:184-185 | on the same grid, the window of corner cell (0,0) is clipped to the four cells (0..1) x (0..1) |
| Streaming.ToUnsigned | DifferentWorlds/Source/DifferentWorlds/Public/GridLevelStreamingVolume.h:34 | converting a 32-bit signed coordinate to an unsigned key component yields the unique value in [0, 2^32) congruent to it modulo 2^32, which is the coordinate itself when it is non-negative, so the key conversion after the bounds guard is exact |
| Streaming.GridLevelStreamingVolume.constructor | DifferentWorlds/Source/DifferentWorlds/Private/GridLevelStreamingVolume.cpp:15-38 | after BeginPlay: tracked and previous cells unset, cell size = extents / counts, a rows x cols table whose entry [i, j] is (origin.x + j size.x, origin.y + i size.y), nothing loaded, and the invariant holds |
| Streaming.GridLevelStreamingVolume.LoadLevelAt | DifferentWorlds/Source/DifferentWorlds/Private/GridLevelStreamingVolume.cpp:182-196 | an off-grid or already loaded coordinate leaves the map unchanged; otherwise exactly key (row, col) is added, with a new instance (serial number at or above every earlier load's) at that cell's centre, and no other entry changes |
| Streaming.GridLevelStreamingVolume.UnloadLevelAt | DifferentWorlds/Source/DifferentWorlds/Private/GridLevelStreamingVolume.cpp:199-210 | the map loses exactly key (row, col) if present and nothing else; the removed handle, and only it, is signalled, and no level still loaded is; an off-grid or absent coordinate changes nothing |
| Streaming.GridLevelStreamingVolume.LoadRowLevels | DifferentWorlds/Source/DifferentWorlds/Private/GridLevelStreamingVolume.cpp:212-218 | the keys gain exactly the in-grid cells of row `row`, columns startCol .. startCol + range - 1; every existing entry is kept, and every level added is a new instance |
| Streaming.GridLevelStreamingVolume.LoadColumnLevels | DifferentWorlds/Source/DifferentWorlds/Private/GridLevelStreamingVolume.cpp:220-226 | the keys gain exactly the in-grid cells of column `col`, rows startRow .. startRow + range - 1; every existing entry is kept, and every level added is a new instance |
| Streaming.GridLevelStreamingVolume.UnloadRowLevels | DifferentWorlds/Source/DifferentWorlds/Private/GridLevelStreamingVolume.cpp:149-155 | the map loses exactly that row segment and every other entry is unchanged; signals are only appended, every removed handle is among them, each of them was loaded before, and none is still loaded |
| Streaming.GridLevelStreamingVolume.UnloadColumnLevels | DifferentWorlds/Source/DifferentWorlds/Private/GridLevelStreamingVolume.cpp:157-163 | the map loses exactly that column segment and every other entry is unchanged; signals are only appended, every removed handle is among them, each of them was loaded before, and none is still loaded |
| Streaming.GridLevelStreamingVolume.UnloadAllOldLevels | DifferentWorlds/Source/DifferentWorlds/Private/GridLevelStreamingVolume.cpp:165-171 | the map ends empty, every previously loaded handle has been signalled, and every signal is one of those handles |
| Streaming.GridLevelStreamingVolume.LoadAllNewLevels | DifferentWorlds/Source/DifferentWorlds/Private/GridLevelStreamingVolume.cpp:173-179 | the keys gain exactly the window of the tracked cell; every existing entry is kept, and every level added is a new instance |
| Streaming.GridLevelStreamingVolume.ShiftRows | DifferentWorlds/Source/DifferentWorlds/Private/GridLevelStreamingVolume.cpp:131-138 | the keys become the row step of the old keys (trailing row of the previous window out, leading row of the current one in, or no change when the row is the same); every entry outside the dropped row is kept as it was; the signals are exactly the levels removed (each was loaded before, none is still loaded), and every level added is a new instance |
| Streaming.GridLevelStreamingVolume.ShiftColumns | DifferentWorlds/Source/DifferentWorlds/Private/GridLevelStreamingVolume.cpp:139-145 | the same for the column step |
| Streaming.GridLevelStreamingVolume.ReloadAllLevels | DifferentWorlds/Source/DifferentWorlds/Private/GridLevelStreamingVolume.cpp:122-147 | a full reload leaves exactly the tracked cell's window loaded, signals exactly the levels loaded before and loads only new instances; an incremental one leaves the shifted keys, keeps every entry outside the dropped row and column, signals every level it removes and no level still loaded, and loads only new instances; the tracked and previous cells are untouched |
| Streaming.GridLevelStreamingVolume.FirstInGridIsCellAt | DifferentWorlds/Source/DifferentWorlds/Private/GridLevelStreamingVolume.cpp:103-111 | for a grid cell c, being the first grid cell in row-major order that contains the position is the same as being the one lattice cell that contains it (CellAt) |
| Streaming.GridLevelStreamingVolume.ScanGrid | DifferentWorlds/Source/DifferentWorlds/Private/GridLevelStreamingVolume.cpp:103-119 | the cell found is the first grid cell in row-major order that contains the position; if none is found, no grid cell contains it |
| Streaming.GridLevelStreamingVolume.ScanNeighbours | DifferentWorlds/Source/DifferentWorlds/Private/GridLevelStreamingVolume.cpp:80-96 | the cell found is the first in-grid neighbour (centre excluded) in row-major order that contains the position; if none is found, no such neighbour contains it |
| Streaming.GridLevelStreamingVolume.FindPlayerOverlappingCell | DifferentWorlds/Source/DifferentWorlds/Private/GridLevelStreamingVolume.cpp:101-120 | if no cell contains the position nothing changes; otherwise the first containing cell becomes tracked, the previous cell becomes the old tracked cell, exactly its window is loaded, exactly the levels loaded before are signalled, and every loaded level is a new instance (a cell loaded before and after holds a different instance); no level loaded at the end is signalled; the invariant is kept |
| Streaming.GridLevelStreamingVolume.CheckIfPlayerOverlappingInNeighbours | DifferentWorlds/Source/DifferentWorlds/Private/GridLevelStreamingVolume.cpp:77-99 | returns true iff some in-grid neighbour contains the position; then the first one becomes tracked, the previous cell becomes the old tracked cell, exactly the new window is loaded, every level still loaded is the same instance, every level no longer loaded is signalled and every newly loaded key holds a new instance; no level loaded at the end is signalled; otherwise nothing changes |
| Streaming.GridLevelStreamingVolume.Tick | DifferentWorlds/Source/DifferentWorlds/Private/GridLevelStreamingVolume.cpp:40-58 | keeps the invariant; signals and loads are only appended, and no level loaded at the end is signalled; the previous cell only ever becomes the old tracked cell; untracked: full search, and a found cell gets its window as new instances with exactly the old levels signalled; tracked and still inside: nothing changes; moved to a neighbour: it becomes tracked with its window loaded, kept levels unchanged, dropped ones signalled and added ones new; no neighbour: tracking resets to (-1, -1) with the previous cell and the loaded levels untouched |
| Scenario.WalkOneCell | DifferentWorlds/Source/DifferentWorlds/Private/GridLevelStreamingVolume.cpp:44-56 | on a 5 x 5 grid, range 3, extents 50 x 50: the player at (25, 25) is tracked in (2, 2) with rows 1-3 x columns 1-3 loaded, and after moving to (35, 25) is tracked in (2, 3) with rows 1-3 x columns 2-4 loaded |

## Left out

- Engine calls are left out:
  - `LoadLevelInstance` and the level path are left out; a load is a handle holding a load counter and the cell centre.
  - `SetShouldBeLoaded(false)` is modelled only as an append to the `unloadSignals` log.
  - `GetPlayerPawn`/`GetActorLocation` become the `Tick` parameter.
  - `DrawDebugBox`, `PrintString`, `Super::` calls, the constructor's tick flag and `DeltaTime` are left out; none of them affects the state.
- The loader's `isSuccess` flag is ignored, as in the code: a handle is always stored.
- Float arithmetic: positions, sizes and the cell-size division use exact reals. Float rounding, including at cell edges, is not modelled.
- The Z coordinate takes no part in any decision and is left out.
- The cell table is heap-allocated and never freed in the source. It is an `array2` here, so that leak is not modelled.
- `UnloadAllOldLevels` removes map entries while iterating the same map, which the engine does not define. The model loops over a snapshot of the keys, so the order of the unload signals is left open.
- `UnloadAllOldLevels` passes the unsigned key components back as signed ints. The components are below `RowsCount` and `ColumnsCount`, at most 2^31 - 1, so the model passes them through unchanged.
- Even `NeighbourRange`: the constructor requires an odd range >= 1. With an even range the window has one more row than columns, and the incremental column shift loads a cell outside the window. `GridWindow.EvenRangeShiftLeavesWindow` shows this.
- `RowsCount` and `ColumnsCount` must be positive, since the cell-size division needs it. All three counts must fit in 32 bits.
- 32-bit overflow of the index arithmetic (`startCol + NeighbourRange`, `prevCell.X + (NeighbourRange / 2) * ...`) is not modelled. Model integers are unbounded.
- The full-grid and neighbour scans are split into read-only searches (`ScanGrid`, `ScanNeighbours`) plus the state update in their callers. The behaviour is the same, since the only other effect before a match is debug drawing.
- The two `if` blocks of the incremental branch of `ReloadAllLevels` are the methods `ShiftRows` and `ShiftColumns`, called in the same order. They are not separate methods in the source.
- UnloadRowLevels: states which handles are signalled (exactly the removed ones), not how often nor in what order.
- UnloadColumnLevels: states which handles are signalled (exactly the removed ones), not how often nor in what order.
- UnloadAllOldLevels: states which handles are signalled (exactly the old ones), not how often nor in what order.
- ShiftRows: states which handles are signalled (exactly the removed ones), not how often nor in what order.
- ShiftColumns: states which handles are signalled (exactly the removed ones), not how often nor in what order.
- ReloadAllLevels: in the incremental case states that every removed level is signalled and no level still loaded is, but not that every signalled level was loaded before the call; it states that every added handle is a new instance, not which serial number each key receives.
- LoadAllNewLevels: states the loaded keys, placement at cell centres and that each handle is new, not which serial number each key receives.
- CheckIfPlayerOverlappingInNeighbours: as for the incremental `ReloadAllLevels`, does not state that every signalled level was loaded before the call.
- Tick: in the neighbour case, as for `CheckIfPlayerOverlappingInNeighbours`, does not state that every signalled level was loaded before the call.
