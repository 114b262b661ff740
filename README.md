# Game of Life on a 50 x 50 board — a Dafny model

This project models the simulation core of a Bevy Game of Life application.
The board is a bounded (non-wrapping) square of 50 x 50 cells, each Alive or
Dead. The model covers:

- the cell component and its state, with the colour each state is drawn in;
- the neighbour list of a position, built by conditional pushes;
- the row-major resolution of a position to an index of the board;
- the step-rate timer, with its doubling and halving speed commands;
- the `Playing` flag;
- the per-frame `step` system: it snapshots the board, gates on `Playing`
  and the timer, then applies Conway's rule B3/S23 to every cell, counting
  neighbours in the snapshot;
- the click handler, which toggles the clicked cell;
- the start-up system, which spawns an all-dead board in row-major order.

Modules follow the source:

- `Cells` (cell.dfy) models `src/components/cell.rs`.
- `Topology` (topology.dfy) models the `Position` methods of `src/game.rs`.
- `StepClock` (step_timer.dfy) models `StepTimer`.
- `Game` (game.dfy) models `Playing`, `step`, `clicked_on_cell` and
  `spawn_cells`.

The mutable entities are Dafny classes (`StepTimer`, `Playing`). The board is
an `array<Cell>` whose index i holds the cell with position
`PositionAt(i, SIZE)`, the order in which `spawn_cells` creates them. The
systems are methods with `modifies` clauses. Each method is proved against a
reference definition:

- `NeighborCoords` against `MooreNeighbours`, the on-board subset of the
  eight surrounding candidates;
- the neighbour count against `LiveNeighbours`;
- a generation against `NextGeneration`;
- the speed commands against `Adjusted`;
- the clicks against the parity of the clicks per cell.

Properties are then proved about those definitions:

- neighbour membership, increasing row-major order and the counts 8, 5 and 3;
- index round trips;
- rates being powers of two in [1, 512];
- still lifes;
- double clicks cancelling each other.

Rust's truncating `%` is written out as `RustRem`. The edge test
`side - c % side != 1` is proved equal to `c != side - 1` on the board.

src/components/cell.rs defines only `change` (lines 10-14) for `Cell`; no
source file of this model defines `Cell::toggle`, which src/game.rs calls at
lines 69, 217 and 220. `Cells.Cell.Toggle` models it as
swapping Alive and Dead, which is what those call sites rely on.

The rate commands double the rate only while it is below 500. The largest
reachable rate is therefore 512, not 500. The model follows the code:
`DoublingLimit` is 500 and `MaxRate` is 512.

## Model

| member | source | states |
|---|---|---|
| Cells.CellState.Color | src/components/cell.rs:22-29 | Alive is drawn in the live-cell colour and Dead in the dead-cell colour, both ways round |
| Cells.ColorIsInjective | src/components/cell.rs:23-28 | two states have the same colour exactly when they are the same state |
| Cells.Cell.Change | src/components/cell.rs:10-14 | after `change(s)` the cell's state is s |
| Cells.ChangeIsIdempotent | src/components/cell.rs:11-13 | changing to s twice equals changing once; changing to the current state changes nothing |
| Cells.Cell.Toggle | src/game.rs:69 | toggling always changes the state |
| Cells.ToggleIsInvolution | src/game.rs:69 | toggling twice gives back the cell |
| Topology.RustRem | src/game.rs:91 | is the remainder of truncating division (a == b * trunc(a / b) + r), with the sign of the dividend and magnitude below the divisor's |
| Topology.BeforeFarEdgeOnBoard | src/game.rs:91 | for 0 <= c < side, `side - c % side != 1` holds exactly when c is not side - 1 |
| Topology.BeforeFarEdgeIsPeriodic | src/game.rs:106 | the edge test repeats with period side, so it compares with side - 1 only on the board |
| Topology.BeforeFarEdge | src/game.rs:91 | Rust's truncating-remainder edge test, via RustRem: for c >= 0 it holds exactly when c % side is not side - 1, and for c < 0 (side > 1) it always holds |
| Topology.NeighborCoords | src/game.rs:77-133 | at most 8 positions, each adjacent to p; for p on the board, exactly the on-board surrounding positions in row-major order |
| Topology.MooreNeighboursMembers | src/game.rs:77-133 | q is in the neighbour list of p exactly when q is on the board and adjacent to p |
| Topology.MooreNeighboursIncreasing | src/game.rs:77-133 | the neighbour list has strictly increasing row-major indices, so it has no duplicates |
| Topology.MooreNeighboursCount | src/game.rs:77-133 | an on-board cell has (x-span * y-span - 1) neighbours: 8 inside, 5 on an edge, 3 in a corner |
| Topology.ToIndex | src/game.rs:135-142 | Some of the row-major index exactly when it lies in [0, size), else None; on the board see ToIndexOnBoard |
| Topology.ToIndexOnBoard | src/game.rs:135-142 | an on-board position resolves to Some of its row-major index, which lies in [0, side*side) |
| Topology.RowMajorInjective | src/game.rs:136 | distinct on-board positions have distinct indices |
| Topology.RowMajorRoundTrip | src/game.rs:135-142 | every index in [0, side*side) is the index of an on-board position stored there |
| Topology.PositionAtRowMajor | src/game.rs:22-46 | an on-board position is the one stored at its own index, matching the spawn order |
| StepClock.Adjusted | src/game.rs:158-170 | speed-up at most doubles and never lowers the rate; slow-down at most halves it and never raises it; the rate stays at least 1 and below 1000 |
| StepClock.PeriodMs | src/game.rs:173 | the period in whole milliseconds is the largest ms with ms * rate <= 1000 |
| StepClock.AdjustedKeepsReachable | src/game.rs:158-170 | one command keeps a power-of-two rate in [1, 512] |
| StepClock.RateAfterKeepsReachable | src/game.rs:158-170 | any command sequence keeps a power-of-two rate in [1, 512] |
| StepClock.RatesFromOneAreReachable | src/game.rs:158-170 | from the initial rate 1 every reachable rate is a power of two in [1, 512] |
| StepClock.ReachablePeriodIsPositive | src/game.rs:172-174 | every reachable rate gives a period between 1 and 1000 ms |
| StepClock.RateCommandExamples | src/game.rs:158-170 | 1 doubles to 32 in five speed-ups, reaches 512 after nine and stays there on the tenth; 1 does not halve; 500 and 512 do not double |
| StepClock.StepTimer.constructor | src/game.rs:151-156 | the new timer has the given positive rate, a period matching it and no ticks |
| StepClock.StepTimer.Inc | src/game.rs:158-163 | the rate doubles only when below 500; the period follows the rate; the tick count is unchanged |
| StepClock.StepTimer.Dec | src/game.rs:165-170 | the rate halves only when above 1; the period follows the rate; the tick count is unchanged |
| StepClock.StepTimer.UpdateDuration | src/game.rs:172-174 | the period becomes 1000 / rate milliseconds |
| StepClock.StepTimer.Tick | src/game.rs:189 | advancing the timer counts one tick and reports whether a period finished |
| Game.Playing.constructor | src/game.rs:17 | the flag starts false |
| Game.Playing.Toggle | src/game.rs:54-58 | the flag is negated |
| Game.Transition | src/game.rs:214-223 | the cell is alive afterwards exactly when it has 3 live neighbours, or 2 and was alive |
| Game.TransitionTable | src/game.rs:214-223 | birth on 3, survival on 2 or 3, death or staying dead otherwise |
| Game.LiveNeighbours | src/game.rs:193-213 | no cell has more than 8 live neighbours |
| Game.CountAliveMoore | src/game.rs:196-213 | counting live cells over the neighbour list gives the number of live cells surrounding p |
| Game.ResolveOnBoard | src/game.rs:197-207 | an on-board neighbour resolves to an index of the snapshot, so both error branches are unreachable |
| Game.CountLiveIn | src/game.rs:196-213 | the counting loop returns the number of live cells of the snapshot at the given on-board positions |
| Game.AliveNeighbours | src/game.rs:194-213 | the count `step` computes for a cell is its number of live neighbours in the snapshot |
| Game.Snapshot | src/game.rs:183-187 | the snapshot is a copy of every cell, in board order |
| Game.TransitionIsNextGeneration | src/game.rs:214-223 | the rule applied to cell i with its snapshot count is cell i of the next generation |
| Game.ApplyRule | src/game.rs:193-224 | visiting the cells in any order that covers each once, the board becomes the next generation of the snapshot |
| Game.Step | src/game.rs:177-225 | the timer ticks exactly when playing; the board becomes the next generation exactly when playing and a period finished, and is unchanged otherwise |
| Game.AllDeadIsStable | src/game.rs:214-223 | an all-dead board stays all dead |
| Game.BlockCellIsStable | src/game.rs:214-223 | each cell of a 2x2-block board keeps its state |
| Game.BlockIsStable | src/game.rs:193-224 | a 2x2 block anywhere on the board is a still life |
| Game.ToggledTimes | src/game.rs:67-73 | a cell toggled n times has its original state exactly when n is even |
| Game.ClickedOnCell | src/game.rs:66-74 | each cell ends toggled once per click on it; clicks on unresolved targets change nothing |
| Game.SingleClickTogglesTarget | src/game.rs:66-74 | one click toggles its own target and no other cell |
| Game.DoubleClickCancels | src/game.rs:66-74 | two more clicks on the same target leave every cell as it was |
| Game.SpawnCells | src/game.rs:22-46 | 2500 dead cells; the k-th has position PositionAt(k) and resolves back to index k |
| Game.Startup | src/game.rs:12-19 | the app starts with an all-dead board, paused, at one step per second with period 1000 ms |
| Game.PausePlayPauseKeepsBoard | src/game.rs:189-191 | play, a frame without a finished period, pause and another frame leave the board unchanged and tick once |
| Game.FreshSession | src/game.rs:12-19 | from start-up, one click on a cell brings exactly it to life and a second click clears the board again; `dec` at rate 1 keeps the 1000 ms period; nine `inc`s reach 512, and a tenth leaves it at 512 with a 1 ms period |

## Left out

- Topology.NeighborCoords: for a position off the board only the length bound and adjacency are stated, because `step` calls it only for positions on the board.
- Topology.NeighborCoords: integers are unbounded. i32 overflow of the neighbour coordinates `x - 1`, `x + 1`, `y - 1` and `y + 1` (src/game.rs:83-127) is not modelled; it cannot arise for board positions, which are all below 50.
- Topology.ToIndex: integers are unbounded. i32 overflow of `side * y + x` is not modelled; it cannot arise for board positions.
- StepClock.StepTimer: the u64 rate never exceeds 512, so its width is not modelled. `StepTimer::new(0)` would divide by zero; the constructor requires a positive rate instead.
- StepClock.StepTimer.Tick: the Bevy timer's elapsed time and delta are outside the model. Whether a period finished is the input `fired`. The effect of `set_duration` on a running timer is not modelled.
- Game.Snapshot: the sprite colour update in the first pass of `step` is rendering and is not modelled.
- Game.Step: the iteration order of the cell query is taken to be the spawn order. The snapshot index of a cell is its row-major index, and `positions` holds the spawned Position components. The second pass visits cells in a caller-given order.
- Game.CountLiveIn: the two "should not happen" branches of `step` are proved unreachable, so their error messages are not modelled.
- Game.ClickedOnCell: click events are given as cell indices. An index outside the board models the failed entity lookup; its error message is not modelled.
- Game.SpawnCells: the random initial state has probability 0.0, so every cell is modelled as Dead. Sprites and sizes are not modelled.
- `Color` values are abstract tokens; the floating-point RGB constants are not modelled.
- `ClickedCellEvent` is registered but never read, so it is not modelled.
- Rendering, sprite hit-testing, keyboard dispatch, file loading and the application entry point (src/render.rs, src/clickable.rs, src/controls.rs, src/loader.rs, src/main.rs) are not part of this model.
