# Falling-sand world: a verified Dafny model

This project models the simulation engine of an SDL2 falling-sand toy: the
`World` class. A world is a fixed `width` x `height` grid of cells, each
`kEmpty` or `kSand`, stored as a flat vector indexed `y * width + x`, together
with a running count of the Sand cells. Three operations change or read it:

- `SetCell(x, y, type)` ignores coordinates outside the grid. Otherwise it
  writes the cell when the type differs and adjusts the counter by one.
- `GetCell(x, y)` returns `kEmpty` outside the grid and the stored type inside it.
- `Update(frame_count)` is one tick. It scans rows from the bottom to the
  top, each row left to right on even frames and right to left on odd ones.
  A grain falls straight down if it can. Otherwise it slides down-left or
  down-right; the parity of `x + y + frame_count` picks the side it tries
  first. A grain on the bottom row never moves. Update writes the cells
  directly and never touches the counter.

The model has three layers:

- `grid.dfy` (module `Grid`): the cell type, the int32/uint32 ranges, the
  index arithmetic, the sand count, and the abstract value of a world
  (`WorldState`: cells and counter). It also gives the meaning of a read
  (`CellAt`) and of a write (`Write`) with their lemmas.
- `step.dfy` (module `Step`): the meaning of a tick. `Tick` is built from
  the rule for one cell (`Destination`, `VisitCell`), applied in scan order
  along a row (`VisitRow`) and row by row from the bottom (`VisitRows`).
  The lemmas about the tick live here: conservation, the floor rule,
  locality, dependence on frame parity only, and descent by at most one row.
- `world.dfy` (module `Simulation`): `class World`. It has `const` width,
  height and cell array, and a `nat` counter. The invariant `Valid()` ties
  the counter to the number of Sand cells. `Update` is a `while` loop over
  rows. Its inner loop over columns is the method `ScanRow`. The body of
  that inner loop is `VisitCellStep`, which writes each move through
  `MoveGrain`. Each of these methods is proved against the matching
  function in `Step`. `SetCell` is proved against `Write`, and `GetCell`
  against `CellAt`.
- `scenarios.dfy` (module `Scenarios`): ticks on concrete 3x3 and 3x2
  grids. They show the fall, a blocked grain, the tie-break flipping
  between frames, and the scan direction deciding which of two grains gets
  a contested cell.

## Model

| member | source | states |
|---|---|---|
| `Grid.CountSand` | core/include/world.h:43 | the sand count of a cell sequence is at most its length, and is 0 when every cell is Empty |
| `Grid.CountSandIsMultiplicity` | core/include/world.h:43 | the recursive count equals the multiplicity of Sand in the multiset of the cells (an independent definition of "number of Sand cells") |
| `Grid.CountSandUpdate` | core/src/world.cc:84-89 | overwriting one cell changes the count by the new cell's weight minus the old one's (+1 on Empty to Sand, -1 on Sand to Empty) |
| `Grid.IndexInGrid` | core/src/world.cc:24 | for an in-range (x, y) the index y*width+x lies inside the vector, within row y's block of width cells; so no access of the code leaves the vector |
| `Grid.IndexRoundTrip` | core/src/world.cc:24 | dividing the index y*width+x by width gives back y, and the remainder gives back x |
| `Grid.IndexInjective` | core/src/world.cc:82 | two in-range coordinates with the same index are the same coordinate, so a write at one index touches exactly one (x, y) |
| `Grid.CellAt` | core/src/world.cc:94-100 | reading a coordinate outside 0<=x<width, 0<=y<height yields Empty |
| `Grid.CellAtInRange` | core/src/world.cc:94-96 | reading an in-range coordinate returns the cell stored at index y*width+x, and that index lies inside the vector |
| `Grid.Write` | core/src/world.cc:80-92 | SetCell keeps the vector length; with an out-of-range coordinate it changes neither the cells nor the counter |
| `Grid.ReadAfterWrite` | core/src/world.cc:80-100 | after SetCell(x, y, t), GetCell(x, y) returns t when (x, y) is in range; every other coordinate reads as before |
| `Grid.WriteCountDelta` | core/src/world.cc:82-87 | SetCell adds 1 to the counter when an in-range cell becomes Sand, subtracts 1 when a Sand cell becomes Empty, and leaves it alone when the type is unchanged or the coordinate is out of range |
| `Grid.WriteKeepsCounter` | core/src/world.cc:80-92 | if the counter equals the number of Sand cells before SetCell, it still does afterwards |
| `Grid.WriteIdempotent` | core/include/world.h:26-29 | a second SetCell with the same coordinate and type is a no-op |
| `Step.Destination` | core/src/world.cc:26-70 | a grain moves only if it is Sand and not on the bottom row, and only into an in-range Empty cell of the row below at most one column away. It stays exactly when all three cells below are blocked. Straight down wins when free. The secondary diagonal is used only when the primary one is blocked |
| `Step.DestinationAtIndices` | core/src/world.cc:24-70 | the rule read off the flat vector with the code's index arithmetic (i, below_i, below_i +/- dx) agrees with the rule in coordinates, and every index the code reads is inside the vector |
| `Step.VisitCell` | core/src/world.cc:40-70 | visiting one cell keeps the vector length (what the visit does is stated by `Step.VisitCellAt` and `Step.VisitCellConservesSand`) |
| `Step.VisitRow` | core/src/world.cc:15-21 | visiting a row in scan order keeps the vector length |
| `Step.VisitRows` | core/src/world.cc:12 | processing rows bottom-up keeps the vector length |
| `Step.Tick` | core/src/world.cc:9-75 | a tick keeps the vector length (what it does to the grains is stated by the lemmas below) |
| `Step.VisitCellConservesSand` | core/src/world.cc:40-43 | a move pairs one Sand-to-Empty write with one Empty-to-Sand write, so visiting a cell keeps the sand count |
| `Step.TickConservesSand` | core/src/world.cc:40-68 | a whole tick keeps the number of Sand cells, so the untouched counter stays correct |
| `Step.FloorGrainsStay` | core/src/world.cc:33-34 | a grain on the bottom row is still there after the tick, whatever its neighbours |
| `Step.VisitCellAt` | core/src/world.cc:40-69 | visiting (x, y), in coordinates: a grain that moves leaves (x, y) Empty and makes its destination Sand; every other cell reads as before |
| `Step.VisitRowFrame` | core/src/world.cc:37-68 | processing row y changes no cell outside rows y and y+1 |
| `Step.VisitRowReadsTwoRows` | core/src/world.cc:24-68 | processing row y reads only rows y and y+1: two grids that agree there still agree there afterwards |
| `Step.TickDependsOnParityOnly` | core/src/world.cc:15-53 | two frame counters of the same parity give the same tick |
| `Step.TickPeriodTwo` | core/src/world.cc:48-53 | Update(f) and Update(f+2) act identically, also when f+2 wraps around the 32-bit counter |
| `Step.SandFromRowAntitone` | core/src/world.cc:12 | the grains at or below row t+1 are no more than those at or below row t |
| `Step.VisitCellSandFromRow` | core/src/world.cc:37-68 | visiting a cell of row y moves at most one grain, from row y into row y+1: the count at or below any row other than y+1 is unchanged, and no such count drops |
| `Step.VisitRowsSandFromRow` | core/src/world.cc:12-74 | while rows are processed bottom-up, the count at or below row t never drops. It stays unchanged until row t-1 is processed. From then on it is bounded by the original count at or below row t-1 |
| `Step.GrainsNeverRise` | core/src/world.cc:12-74 | after a tick, the number of grains at or below any row is at least what it was |
| `Step.GrainsFallAtMostOneRow` | core/src/world.cc:12-74 | after a tick, every grain at or below row t was at or below row t-1 before it: no grain descends more than one row per tick |
| `Scenarios.FallsStraightDown` | core/src/world.cc:40-43 | on a 3x3 grid a lone grain at (1,0) falls to (1,1) |
| `Scenarios.BlockedGrainStays` | core/src/world.cc:55-70 | with the floor full, the grain at (1,0) stays put |
| `Scenarios.SlidesLeftOnFrameZero` | core/src/world.cc:48-60 | on frame 0 a grain at (1,0) blocked below has odd parity, tries left first and slides to (0,1) |
| `Scenarios.SlidesRightOnFrameOne` | core/src/world.cc:48-60 | on frame 1 the same grain has even parity, tries right first and slides to (2,1) |
| `Scenarios.LeftGrainWinsOnEvenFrame` | core/src/world.cc:15-21 | two grains competing for (1,1): scanned left to right on frame 0, the left grain takes it and the right one stays |
| `Scenarios.RightGrainWinsOnOddFrame` | core/src/world.cc:15-21 | the same grid on frame 1, scanned right to left: the right grain takes (1,1) and the left one stays |
| `Scenarios.SlideTieBreakFlipsEachFrame` | core/src/world.cc:48-53 | a grain blocked below slides left on frame 0 and right on frame 1 |
| `Scenarios.ScanDirectionDecidesContest` | core/src/world.cc:15-21 | two grains competing for one cell: the left grain gets it on an even frame, the right grain on an odd frame |
| `Simulation.World.constructor` | core/src/world.cc:5-7 | a new world has the given dimensions, width*height cells all Empty, and a counter of 0 |
| `Simulation.World.IsValid` | core/src/world.cc:102-104 | holds exactly for 0<=x<width and 0<=y<height, and then width*y+x indexes the vector |
| `Simulation.World.GetCell` | core/src/world.cc:94-100 | returns the cell the abstract read CellAt gives: Empty for any out-of-range coordinate, the stored cell at index y*width+x otherwise |
| `Simulation.World.SetCell` | core/src/world.cc:80-92 | keeps the object invariant (counter equals the number of Sand cells) and changes the world exactly as Write says |
| `Simulation.World.Update` | core/src/world.cc:9-13 | keeps the object invariant and leaves exactly the cells Tick gives; the counter is outside its frame and so is unchanged |
| `Simulation.World.ScanRow` | core/src/world.cc:15-21 | the inner loop visits all width cells of row y in scan order, with the result VisitRow gives |
| `Simulation.World.VisitCellStep` | core/src/world.cc:23-71 | the in-place loop body leaves exactly the cells VisitCell gives |
| `Simulation.World.MoveGrain` | core/src/world.cc:40-43 | a move takes a grain from an occupied cell to a distinct empty one: Sand at the destination, then Empty at the source, nothing else; the cells after the move are a permutation of those before (same multiset), so the number of Sand cells is unchanged |
| `Simulation.World.GetWidth` | core/include/world.h:34 | returns the width, which is positive, and width*height is the vector length |
| `Simulation.World.GetHeight` | core/include/world.h:35 | returns the height, which is positive, and width*height is the vector length |
| `Simulation.World.GetSandCount` | core/include/world.h:36 | the reported count is the number of Sand cells |
| `Simulation.World.GetCells` | core/include/world.h:39 | the view has width*height cells, its sand count is the counter, and it agrees with GetCell at every coordinate |

## Left out

- Dimension validation: World::World checks nothing (core/src/world.cc:5-7);
  the model makes positive dimensions whose product fits in an int32 a
  precondition of the constructor (`ValidDimensions`).
- Counter width: `sand_count_` is a uint64. The model uses a `nat`. Under the
  invariant the counter never exceeds width*height < 2^31, so it never wraps,
  and the decrement in SetCell is proved never to go below zero.
- Frame counter arithmetic: the code computes `x + y + frame_count` in 32-bit
  unsigned arithmetic. The model uses the exact sum, because wrapping by 2^32
  does not change the parity, which is all the code uses.
- `GetCells` returns a const reference to the live vector. The model returns
  the vector's contents at the time of the call, so aliasing between that view
  and later updates is not modelled.
- Grid.CellAt: its own contract states only the out-of-range case. The
  in-range value is stated by the lemma `CellAtInRange`, kept separate so
  that the tick's proofs, which unfold `CellAt` many times, do not carry it.
- Step.VisitCell, Step.VisitRow, Step.VisitRows, Step.Tick: their own
  contracts state only that the vector length is kept. Their behaviour is
  stated by the lemmas about them: `VisitCellAt`, `VisitRowFrame`,
  `VisitRowReadsTwoRows`, `TickConservesSand`, `FloorGrainsStay`,
  `TickDependsOnParityOnly`, `GrainsNeverRise` and `GrainsFallAtMostOneRow`.
- The redundant second test `if (cells_[i] == kSand)` (core/src/world.cc:30)
  is a `match` on the two-valued cell type.
- The SDL layer (app/window, app/renderer, app/texture, app/input, app/app,
  app/main) is foreign calls into SDL, timing, and event polling. The brush
  operations of app/app.h are declared but have no implementation, so the
  circular brush has no code to model.
- tests/sanity_test.cpp asserts arithmetic facts unrelated to the world.
- Mirror symmetry between even and odd frames is not claimed. The code does
  not guarantee it, because the tie-break parity at the mirrored column
  depends on the parity of the width.
