# Diffusion-limited aggregation grid

This repository draws a branching shape by diffusion-limited aggregation (DLA).
A grid of 640 × 480 cells starts with one occupied cell in the centre. Each
simulation frame releases 60 particles. A particle starts at a random cell and
walks one random Moore step at a time. It stops in one of two ways:

- it is next to an occupied cell and a unit random draw falls below the
  stickiness, so it sticks and its cell becomes occupied;
- a step takes it outside the in-bounds box, so it escapes.

A fixed-timestep accumulator turns the elapsed time of each update into whole
frames of 0.1 seconds each.

The model covers the `Grid` engine of `src/main.rs`. It is split into six
modules:

- `Geometry`: the constants, the in-bounds test, row-major indexing and the
  table of eight directions.
- `Occupancy`: `test`, `is_adjacent` and `set`, stated over the contents of
  the cell vector (a `seq<bool>`).
- `Random`: the random source, an injected stream of words with a read
  position. Each draw consumes one word. The class `Rng` carries the stream
  and the position.
- `Aggregation`: one iteration of a walk (`Turn`), a whole walk (`Walk`,
  stated for any turn function), a particle, and a frame of 60 particles, all
  as functions. It also holds the lemmas about them.
- `Timing`: the accumulator as a function over cells, read position and
  clock, for any frame function.
- `Dla`: the class `Grid`. Its cells are an `array<bool>` that the methods
  update in place, and it has a clock, a random source, a stickiness and a
  pause flag. Every method is proved against the functions above. A method
  either returns exactly what the function computes, or leaves exactly the
  state that the function computes.

In-bounds rule. The code's `in_bounds` is strict on all four sides,
`0 < x < 640` and `0 < y < 480`. So column 0 and row 0 are out of bounds,
while column 639 and row 479 are in bounds. A description of the program
that puts both borders out of bounds disagrees with the code. The model
follows the code:

- `Occupancy.FarBorderCanBeOccupied` shows that a far-border cell is reported
  once it is set.
- `Occupancy.NearBorderNeverOccupied` shows that column 0 and row 0 never are.

Start points are drawn from `[0, 640) × [0, 480)`, which includes column 0
and row 0. A particle that starts there next to the cluster can stick. This
writes a cell that `test` never reports. The model keeps this behaviour. The
lemma `Aggregation.NearBorderStickIsLost` exhibits one such walk.

A step onto column 0, row 0, column 640 or row 480 ends the walk as an
escape before adjacency is tested again, even when the new position is next
to the cluster. So a stickiness of 1 makes a particle stick at the first
adjacent position it tests (its start or an in-bounds position), not at
every adjacent position it reaches. The lemma
`Aggregation.BorderStepEscapesBesideCluster` exhibits one such walk.

## Model

| member | source | states |
|---|---|---|
| `Geometry.DimensionsFromWindow` | src/main.rs:39-45 | The window sides divide exactly by the block size, as the startup assertions demand, and the grid's 640 × 480 cells are the window sides divided by the block size. |
| `Geometry.InBounds` | src/main.rs:74-79 | The strict box `0 < x < 640`, `0 < y < 480`. Its properties are stated by `Occupancy.NearBorderNeverOccupied` (column 0 and row 0 are out) and `Occupancy.FarBorderCanBeOccupied` (column 639 and row 479 are in). |
| `Geometry.Index` | src/main.rs:82 | The row-major index `y * 640 + x` of an on-grid cell lies in `[0, 307200)`. |
| `Geometry.IndexInjective` | src/main.rs:98 | Two on-grid cells with the same index are the same cell. |
| `Geometry.DirsAreMooreOffsets` | src/main.rs:110-113 | The direction table has 8 distinct entries, and they are exactly the non-zero offsets in {-1, 0, 1}². |
| `Occupancy.Test` | src/main.rs:81-83 | A coordinate reported occupied is in bounds. |
| `Occupancy.Set` | src/main.rs:97-99 | Setting makes the cell's index true and leaves every other index unchanged. |
| `Occupancy.IsAdjacent` | src/main.rs:86-95 | The eight `test` disjuncts in the source's order. Its meaning is stated by `Occupancy.IsAdjacentIffMoore` and `Occupancy.IsAdjacentIffSomeDir`, and `Occupancy.IsAdjacentIgnoresOwnCell` shows the cell itself is not read. |
| `Occupancy.IsAdjacentIffSomeDir` | src/main.rs:86-95 | Adjacency holds exactly when some direction-table entry leads to a cell that `test` reports. |
| `Occupancy.IsAdjacentIffMoore` | src/main.rs:86-95 | Adjacency holds exactly when some non-zero offset in {-1, 0, 1}² leads to a cell that `test` reports. |
| `Occupancy.IsAdjacentIgnoresOwnCell` | src/main.rs:86-95 | The cell's own value never changes whether it is adjacent. |
| `Occupancy.SetIdempotent` | src/main.rs:97-99 | Setting a cell twice gives the same vector as setting it once. |
| `Occupancy.SetCovers` | src/main.rs:97-99 | Setting a cell never clears a cell. |
| `Occupancy.TestAfterSet` | src/main.rs:81-83 | After setting (x, y), `test` reports (x, y) exactly when it is in bounds, and reports every other coordinate as before. |
| `Occupancy.NearBorderNeverOccupied` | src/main.rs:74-83 | Column 0 and row 0 are never reported occupied, whatever the vector holds. |
| `Occupancy.NearBorderWriteInvisible` | src/main.rs:97-99 | Writing a cell of column 0 or row 0 changes no `test` answer and no adjacency answer. |
| `Occupancy.FarBorderCanBeOccupied` | src/main.rs:74-79 | Cells of the last column and the last row are in bounds and are reported once set. |
| `Occupancy.Empty` | src/main.rs:60 | The fresh vector has 307200 cells, all unoccupied. |
| `Occupancy.EmptyHasNoOccupied` | src/main.rs:58-66 | No coordinate is reported occupied in a fresh empty grid. |
| `Occupancy.Seeded` | src/main.rs:68-72 | The seeded vector has 307200 cells; `Occupancy.SeededOnlyCentre` states that only the centre is occupied. |
| `Occupancy.SeededOnlyCentre` | src/main.rs:68-72 | In the seeded grid, `test` reports exactly the centre cell (320, 240). |
| `Random.Range` | src/main.rs:116-117 | A range draw lies in the half-open range `[lo, hi)`. |
| `Random.Unit` | src/main.rs:119 | A unit draw lies in `[0, 1)`. |
| `Random.Choice` | src/main.rs:123 | A table choice is a position of the table. |
| `Random.UnitAgainstExtremes` | src/main.rs:119 | A stickiness of at least 1 makes every stick test pass, and one of at most 0 makes every stick test fail. |
| `Random.Rng.constructor` | src/main.rs:190 | A generator starts at the beginning of its stream. |
| `Random.Rng.GenRange` | src/main.rs:116-117 | Returns the range draw at the read position and advances the position by one. |
| `Random.Rng.GenUnit` | src/main.rs:119 | Returns the unit draw at the read position and advances the position by one. |
| `Random.Rng.Choose` | src/main.rs:123 | Returns the choice at the read position and advances the position by one. |
| `Aggregation.Turn` | src/main.rs:119-128 | One iteration of the inner loop as a function of cells, inputs, read position and position. Its behaviour is stated by `Aggregation.TurnCases` and `Aggregation.TurnOfLawful`. |
| `Aggregation.TurnCases` | src/main.rs:119-128 | One iteration sticks exactly when the cell is adjacent and the unit draw is below the stickiness, and then it consumes only that draw. Otherwise it takes one direction-table step, consumes the direction draw after any unit draw, and continues exactly when the new position is in bounds. |
| `Aggregation.TurnOfLawful` | src/main.rs:119-128 | The engine's iteration has the shape every walk lemma relies on: a stick consumes one draw, and any other move is one table step that consumes draws and continues exactly when it lands in bounds. |
| `Aggregation.Walk` | src/main.rs:118-129 | A walk's path starts at its start point. |
| `Aggregation.WalkFuelMonotone` | src/main.rs:118-129 | A walk that sticks or escapes within a budget has the same outcome, read position and path under every larger budget, so the budget only cuts walks short. |
| `Aggregation.WalkPath` | src/main.rs:123-128 | Every step of a walk is a direction-table offset, and every position after the start is in bounds, except the last position of an escape. |
| `Aggregation.WalkEnds` | src/main.rs:118-129 | A stuck walk stops at its last position, which is on the grid when the start is. An escaped walk stops at the out-of-bounds position its last step reached. A walk whose budget ran out took every step of it. The read position never moves backwards. |
| `Aggregation.WalkStaysNearGrid` | src/main.rs:124-125 | Every position of a walk from the grid is within one cell of the grid's rectangle, so the 32-bit coordinates never overflow. |
| `Aggregation.TurnSticksOnlyWhenAdjacent` | src/main.rs:119 | The engine's iteration sticks only at a position adjacent to the cluster. |
| `Aggregation.TurnSticksOnContact` | src/main.rs:119 | With stickiness of at least 1, the engine's iteration sticks at every adjacent position. |
| `Aggregation.TurnNeverSticks` | src/main.rs:119 | With stickiness of at most 0, the engine's iteration never sticks. |
| `Aggregation.WalkSticksOnlyWhenAdjacent` | src/main.rs:118-122 | A walk whose iterations stick only at adjacent positions sticks, if at all, at an adjacent position. |
| `Aggregation.WalkCertainSticksOnContact` | src/main.rs:118-122 | A walk whose iterations stick at every adjacent position passes no adjacent position, and one that starts adjacent sticks there. |
| `Aggregation.WalkNeverSticks` | src/main.rs:118-129 | A walk whose iterations never stick never sticks. |
| `Aggregation.EngineWalkSticksNextToCluster` | src/main.rs:118-122 | The engine's walk from a grid cell sticks, if at all, at a grid cell adjacent to the cluster, so the index that `set` writes is in range. |
| `Aggregation.EngineWalkSticksOnContact` | src/main.rs:118-122 | With stickiness of at least 1, the engine's walk sticks at the first adjacent position it tests, which is the start or an in-bounds position; no position it tested before its last is adjacent. |
| `Aggregation.BorderStepEscapesBesideCluster` | src/main.rs:119-128 | With stickiness 1, a walk whose step lands on column 0 next to the cluster escapes there, because the in-bounds exit comes before the next adjacency test. |
| `Aggregation.NearBorderStickIsLost` | src/main.rs:116-120 | A particle that starts in column 0 next to the cluster can stick there. That changes the vector, yet no `test` answer changes. |
| `Aggregation.Settle` | src/main.rs:120 | The cells after a walk still number 307200. |
| `Aggregation.Particle` | src/main.rs:116-129 | A particle drawn from a start point sticks, if at all, on the grid and next to the cluster. |
| `Aggregation.Walks` | src/main.rs:115-130 | A run of k particles records k outcomes, and every stuck one is on the grid. |
| `Aggregation.ParticleFuelMonotone` | src/main.rs:116-129 | A particle whose walk sticks or escapes within a budget has the same result under every larger budget. |
| `Aggregation.WalksFuelMonotone` | src/main.rs:115-130 | When no walk of a run of k particles runs out of its budget, the run's cells, read position and outcomes are the same under every larger budget. |
| `Aggregation.Frame` | src/main.rs:109-131 | A frame keeps the vector's length. |
| `Aggregation.StuckCells` | src/main.rs:120 | The cells a run of walks sticks into are no more numerous than the walks. |
| `Aggregation.StuckCellsIff` | src/main.rs:120 | A cell is among those stuck into exactly when some walk sticks into it. |
| `Aggregation.WalksWrites` | src/main.rs:115-130 | After k walks, a cell is occupied exactly when it was occupied before or one of the walks stuck into it. |
| `Aggregation.FrameChangesAtMost` | src/main.rs:115-130 | A frame changes only cells its walks stuck into, so at most 60 cells. |
| `Aggregation.FrameCovers` | src/main.rs:109-131 | A frame never clears a cell. |
| `Aggregation.WalksIdleWhenNeverSticky` | src/main.rs:115-130 | With stickiness of at most 0, a frame leaves the cells as they are. |
| `Timing.PendingFramesDrop` | src/main.rs:103-105 | Each pass of the accumulator loop lowers a bound on the frames still due, so the loop ends. |
| `Timing.Tick` | src/main.rs:104-105 | One pass of the loop: one frame, then 0.1 off the clock. `Timing.PendingFramesDrop` shows it lowers the bound on the frames still due. |
| `Timing.Drain` | src/main.rs:103-106 | The `while` loop of `update`. `Timing.DrainIsFramesDueTicks` states the frames it runs, and `Timing.DrainClock` the clock it leaves. `Timing.DrainCovers` and `Timing.DrainKeepsCells` lift frame properties to it. |
| `Timing.DrainIsFramesDueTicks` | src/main.rs:103-106 | The loop's result is exactly `FramesDue` passes in a row, each running one frame from the cells and read position the previous pass left and taking 0.1 off the clock. `FramesDue` is the number of times the clock is found above 0.1. |
| `Timing.DrainClock` | src/main.rs:103-106 | After the loop, the clock is at most 0.1, positive when a frame ran, and equal to the starting clock less 0.1 for each of the `FramesDue` passes. |
| `Timing.Advance` | src/main.rs:101-107 | One update: the elapsed time is added, then the loop runs. `Timing.AdvanceSplit`, `Timing.AdvanceIdleBelowFrame` and `Timing.LargeUpdateRunsSeveralFrames` state its behaviour, and `Dla.Grid.Update` is proved equal to it. |
| `Timing.AdvanceIdleBelowFrame` | src/main.rs:101-107 | An update that leaves the clock at most 0.1 runs no frame. |
| `Timing.DrainThenAdd` | src/main.rs:101-107 | Adding time after running the loop ends where adding it before the loop ends. |
| `Timing.AdvanceSplit` | src/main.rs:101-107 | Two updates of a and b seconds end where one update of a + b seconds ends. |
| `Timing.HalfFramesMatchWholeFrame` | src/main.rs:101-107 | From a zero clock, two updates of 0.05 seconds match one of 0.1 seconds, and none of them runs a frame. |
| `Timing.LargeUpdateRunsSeveralFrames` | src/main.rs:101-107 | From a zero clock, an update of 0.35 seconds gives exactly three passes in a row from a clock of 0.35: three frames run, and 0.05 seconds are left. |
| `Timing.DrainCovers` | src/main.rs:103-106 | If no frame clears a cell, the loop never clears one. |
| `Timing.DrainKeepsCells` | src/main.rs:103-106 | If every frame keeps the cells, the loop keeps them. |
| `Dla.AdvanceCovers` | src/main.rs:101-107 | No update clears a cell. |
| `Dla.AdvanceIdleWhenNeverSticky` | src/main.rs:101-107 | With stickiness of at most 0, no update changes a cell, however many frames it runs. |
| `Dla.Grid.NewEmpty` | src/main.rs:58-66 | A fresh grid has every cell unoccupied, a zero clock, is running, and keeps the given random source and stickiness. |
| `Dla.Grid.New` | src/main.rs:68-72 | A new grid holds the seeded vector, with only the centre set, a zero clock and running. |
| `Dla.Grid.Set` | src/main.rs:97-99 | The array becomes the vector that `Occupancy.Set` gives. |
| `Dla.Grid.Occupied` | src/main.rs:81-83 | Reading one array entry behind the in-bounds test gives the answer `Occupancy.Test` gives on the array's contents. |
| `Dla.Grid.Adjacent` | src/main.rs:86-95 | Reading the eight neighbouring array entries gives the answer `Occupancy.IsAdjacent` gives on the array's contents. |
| `Dla.Grid.TakeTurn` | src/main.rs:119-128 | One loop iteration returns the move `Aggregation.Turn` gives at the random source's read position, and leaves the read position where that move says. |
| `Dla.Grid.RunParticle` | src/main.rs:118-129 | The inner loop returns the outcome and read position of `Aggregation.Walk`. A stuck particle is on the grid, and the array afterwards is the settled vector. |
| `Dla.Grid.DrawStart` | src/main.rs:116-117 | The start point is a range draw for x and then one for y, consuming two words. |
| `Dla.Grid.DropParticle` | src/main.rs:116-129 | One particle gives the outcome and read position of `Aggregation.Particle`, and the array becomes the settled vector. |
| `Dla.Grid.RunParticles` | src/main.rs:115-130 | k particles leave the array and read position that `Aggregation.Walks` gives. |
| `Dla.Grid.UpdateOneFrame` | src/main.rs:109-131 | One frame leaves the array and read position that `Aggregation.Frame` gives, clears no cell, and sets at most 60. |
| `Dla.Grid.Update` | src/main.rs:101-107 | An update leaves the array, read position and clock that `Timing.Advance` gives over the aggregation frame. The clock ends at most 0.1, the pause flag is unchanged, and no cell is cleared. |

## Left out

- `render`, `odd_grid` and `main` (window, event loop and key handling) are
  not part of this model. They are drawing, floating-point trigonometry and
  event dispatch.
- The `running` toggle on the space key and the grid replacement on the
  digit keys are simple assignments in `main`. Stickiness is a constant of a
  grid, since no code path changes it in place; the digit keys build a new
  grid through `Grid::new` or, for key 0, through `odd_grid`. `Update` does not test `running`, because its
  caller does.
- The concrete XorShift generator and the distributions of `gen_range`,
  `gen::<f64>` and `choose` are not modelled. Each draw reads one word of an
  arbitrary stream; only the range of each draw is promised, and nothing
  probabilistic is claimed.
- Floating point: the clock and the stickiness are exact reals, where the
  program uses `f64`, so rounding in `t += dt` and `t -= 0.1` is not modelled.
- `Aggregation.Walk`: carries a step budget and drops the particle when the
  budget runs out, where the engine's walk has no step limit. The budget is a
  parameter of every walk, particle, frame and update, and all results hold
  for every budget. `Aggregation.WalkFuelMonotone` shows that the budget only
  cuts a walk short: a walk that sticks or escapes within its budget has the
  result it has under every larger budget, which is the result of the
  engine's unbounded loop. `Aggregation.WalksFuelMonotone` lifts this to a run
  of walks and so to a frame. The further lift to an update of several
  frames, frame by frame through `Timing.DrainIsFramesDueTicks`, is not
  stated as a lemma.
- The 32-bit coordinate type and the `usize` index casts are not modelled as
  machine integers. `Aggregation.WalkStaysNearGrid` shows the coordinates
  stay within one cell of the grid, and `Geometry.Index` shows written
  indices are in range, so no wrap-around can occur.
