# Conway's Game of Life engine, in Dafny

This project models the simulation engine of a small Game of Life program:
the `GameOfLife` class and the `PATTERNS` table in `game.py`.

The engine owns a `height x width` grid of integer cells and a `generation`
counter. A cell holding 0 is dead and a cell holding 1 is alive. The grid is
a torus: `count_neighbors` reads the eight cells around `(x, y)` at
`((x + dx) mod width, (y + dy) mod height)`, using Python's non-negative `%`.
`step` applies the B3/S23 rule to every cell. It reads the old grid, writes a
zeroed second buffer, and then swaps the buffer in. `set_pattern` copies a
stencil into a rectangle of the grid. `clear` and `randomize` replace the
whole grid and reset the counter.

The project has four files:

- `life.dfy` (module `Life`) holds the specification on values, with grids
  as `seq<seq<int>>`:
  - `Neighbors` is the neighbour sum, taken in the source's loop order.
  - `NextCell` and `StepGrid` are the transition. `NextCell` follows the
    source's branches, and `Rule` is the birth/survival rule on
    `Dead`/`Alive`, stated on its own.
  - `GridSum` is the alive count. `LiveCount`, the size of the set of live
    positions, is an independent definition of the same number on 0/1
    grids.
  - `Place` and `Region` are the slice write and the slice read.
  - `Draw` is the random fill, given its samples.
- `game.dfy` (module `Game`) holds the class `GameOfLife` over an
  `array2<int>`:
  - The methods update the fields in place, as the source does.
  - A ghost field `cells` mirrors the array. Each method is proved against
    the functions of `Life`.
  - `count_neighbors` and `step` keep their nested loops.
- `patterns.dfy` (module `Patterns`) holds the five stencils of `PATTERNS`
  and the table by name.
- `scenarios.dfy` (module `Scenarios`) places two of the stencils on small
  tori and evolves them with `StepGrid` and `StepN`. The blinker flips between horizontal and vertical on a
  5 x 5 grid. The glider moves by one column and one row in four steps on a
  10 x 10 grid and keeps five live cells throughout.

Some behaviour follows the code where the code differs from the engine's
documented intent:

- Cells are arbitrary integers, as the `int` array of the source allows.
  `Binary` (every cell 0 or 1) is a property the operations keep, not part of
  the class invariant. `step` turns any stray value into 0, because only
  `current == 1` can survive.
- The neighbour count sums the eight offsets, not eight distinct cells.
  - On a 1-wide or 2-wide grid the same cell is counted several times, and
    so can the cell itself.
  - A live 1 x 1 grid has 8 neighbours (`SingleCellSeesItself`). On a 1 x 2
    grid the other cell is counted six times and the cell itself twice
    (`TwoCellRow`).
  - The bound 0..8 holds on 0/1 grids of any shape.
- `set_pattern` does not clip. NumPy's slice assignment raises when the
  region leaves the grid, so the model requires the region to lie inside the
  grid.
- A grid of zero width or height can be constructed, because `np.zeros`
  accepts it. Only `count_neighbors` demands a non-empty grid, since `% 0`
  raises.

## Model

| member | source | states |
|---|---|---|
| Game.GameOfLife.constructor | game.py:15-25 | the grid has `height` rows of `width` columns, every cell is 0, the alive count is 0 and `generation` is 0 |
| Life.Zeros | game.py:24 | the zero grid has the requested shape and every cell dead |
| Game.GameOfLife.Randomize | game.py:27-35 | the grid is replaced by a fresh one whose cell is 1 exactly when its sample is at least `1 - probability`; the result is 0/1, all dead at probability 0 and all alive at probability 1; `generation` is 0 |
| Life.Draw | game.py:33-34 | the drawn grid has one cell per sample, in the shape of the samples |
| Life.DrawExtremes | game.py:33-34 | a random fill is 0/1 whatever the samples; probability 0 gives an all-dead grid and probability 1 an all-alive grid |
| Game.GameOfLife.SetPattern | game.py:37-46 | every pattern cell `p[i][j]` is now at `grid[y+i, x+j]`; every cell outside the region, the array itself and `generation` are unchanged |
| Life.PlaceInside | game.py:45-46 | after placement the cell at `(x+j, y+i)` holds `p[i][j]` |
| Life.PlaceShape | game.py:45-46 | placing a pattern keeps the grid's shape |
| Life.PlaceThenRead | game.py:45-46 | reading back the region a pattern was placed in gives the pattern, neither shifted nor transposed |
| Life.ReadThenPlace | game.py:45-46 | writing a region back where it was read changes nothing, for every region including empty ones, and the region always fits there |
| Life.PlaceIdempotent | game.py:45-46 | placing the same pattern twice at the same anchor is the same as placing it once |
| Life.PlaceBinary | game.py:45-46 | a 0/1 pattern placed on a 0/1 grid leaves a 0/1 grid |
| Game.GameOfLife.CountNeighbors | game.py:48-66 | the two nested loops return the sum of the eight wrapped reads around `(x, y)`, and on a 0/1 grid a value between 0 and 8 |
| Life.Wrap | game.py:63-64 | the wrapped index lies in `[0, n)` for every integer, negative ones included |
| Life.WrapEdges | game.py:63-64 | -1 wraps to the last index, `n` wraps to 0, and indices already in range are unchanged |
| Life.WrapNeighbours | game.py:63-64 | for an index inside `[0, n)`, one step back wraps only from 0 to `n - 1` and one step forward only from `n - 1` to 0 |
| Life.WrapShift | game.py:63-64 | shifting an index by one full period does not change where it wraps to |
| Life.NeighborsUnfolded | game.py:58-66 | the count is the sum of the eight cells at offsets `{-1,0,1}^2` minus the centre, each wrapped on the torus |
| Life.NeighborsRange | game.py:55-66 | on a 0/1 grid the count is between 0 and 8 |
| Life.NeighborsPeriodic | game.py:63-64 | the count is the same at `x` and `x + width`, and at `y` and `y + height` |
| Life.NeighborsOfDead | game.py:58-66 | every cell of an all-dead grid has 0 neighbours |
| Life.CornerWrapsToCorner | game.py:59-65 | on a 3 x 3 grid whose only live cell is (0, 0), cell (2, 2) has exactly one neighbour |
| Life.SingleCellSeesItself | game.py:59-65 | on a 1 x 1 grid all eight offsets read the cell itself, so the count is 8 times its value |
| Life.TwoCellRow | game.py:59-65 | on a 1 x 2 grid `[[a, b]]` the count at (0, 0) is `2a + 6b` |
| Game.GameOfLife.Step | game.py:68-84 | the nested loops fill a fresh buffer with the next value of every cell, computed from the grid before the step; the buffer becomes the grid; the result is 0/1, an all-dead grid stays all dead, and `generation` grows by exactly 1 |
| Life.StepFollowsRule | game.py:72-81 | on a 0/1 grid a cell's next state is the B3/S23 rule of the class comment: alive with 3 neighbours, unchanged with 2, dead otherwise; the next value is 0 or 1 |
| Life.StepShape | game.py:70-84 | a step keeps the grid's shape and always yields a 0/1 grid |
| Life.StrayValueDies | game.py:78-81 | a cell holding a value other than 0 or 1 is 0 after the step |
| Life.DeadIsFixed | game.py:78-81 | a step leaves an all-dead grid unchanged |
| Life.DeadForever | game.py:68-84 | any number of steps leaves an all-dead grid unchanged |
| Life.LoneCellDies | game.py:72-81 | on a grid at least 3 x 3 whose only live cell is `(x, y)`, that cell has 0 neighbours, and the next generation is all dead: the cell dies and no dead cell is born |
| Scenarios.BlinkerPlacement | game.py:103-105 | placing the blinker stencil at (1, 2) on a cleared 5 x 5 grid gives the horizontal blinker in row 2 |
| Scenarios.BlinkerOscillates | game.py:68-84 | the placed blinker becomes the vertical blinker in column 2 after one step and returns to its placed form after two |
| Scenarios.GliderPlacement | game.py:98-102 | placing the glider stencil at (1, 1) on a cleared 10 x 10 grid gives the glider's first phase |
| Scenarios.GliderSteps | game.py:72-81 | each of the glider's four phases steps to the next |
| Scenarios.GliderGlides | game.py:68-84 | four steps after placing the glider, the grid is the placed grid translated by one column and one row |
| Scenarios.GliderKeepsFive | game.py:86-88 | the alive count is 5 in each of the five generations from placement to the fourth step |
| Game.GameOfLife.GetAliveCount | game.py:86-88 | on a 0/1 grid the result is the number of live cells (`LiveCount`); it lies between 0 and `height * width`, is 0 exactly when every cell is dead, and is `height * width` exactly when every cell is alive |
| Life.GridSumCountsLive | game.py:86-88 | the sum of a 0/1 grid equals the number of its live positions, counted as a set |
| Life.RowSumCountsLive | game.py:88 | the sum of a 0/1 row equals the number of its live positions |
| Life.RowSumBinary | game.py:88 | a 0/1 row sums to between 0 and its length, to 0 exactly when all its cells are 0, and to its length exactly when all are 1 |
| Life.GridSumBounds | game.py:88 | a 0/1 grid sums to between 0 and `height * width` |
| Life.GridSumZero | game.py:88 | a 0/1 grid sums to 0 exactly when every cell is dead |
| Life.GridSumFull | game.py:88 | a 0/1 grid sums to `height * width` exactly when every cell is alive |
| Game.GameOfLife.Clear | game.py:90-93 | the grid is replaced by an all-zero grid of the same shape, the alive count is 0 and `generation` is 0, whatever the state before; so clearing twice is clearing once |
| Patterns.Table | game.py:96-131 | the table has exactly the keys glider, blinker, toad, beacon and pulsar; every entry is a rectangular, non-empty 0/1 stencil, of shape 3x3, 1x3, 2x4, 4x4 and 13x13 respectively |

## Left out

- `main.py` is not part of this model. It holds the window, event handling,
  drawing, frame pacing and console output, all of which are I/O. Its cell
  toggle writes `1 - v` into one cell.
- Randomize: the random generator is not modelled. The caller passes one
  uniform sample in [0, 1) per cell, and the model applies NumPy's
  cumulative-distribution choice to it. A probability outside [0, 1], which
  NumPy rejects with an error, is excluded by the precondition.
- Randomize: the probability and the samples are exact reals. NumPy builds
  the threshold `1 - probability` in 64-bit floating point and normalises
  the cumulative sums, so its threshold is rounded. That rounding is not
  modelled.
- SetPattern: a region that leaves the grid is excluded by the precondition.
  NumPy raises a broadcast error in that case. There is one exception: a
  pattern of height or width 1 broadcast onto an empty slice, which NumPy
  accepts silently and which writes nothing. Negative anchors, which Python
  slices read from the far end, are excluded too.
- CountNeighbors: a grid of width or height 0 is excluded by the
  precondition, because Python's `%` by zero raises `ZeroDivisionError`.
- GetAliveCount: its contract speaks only of 0/1 grids. On a grid holding
  other values the function still returns the sum of all cells, which is
  then not a count of live cells, and the contract does not bound it.
- NumPy details are not modelled: the 64-bit element type and its
  overflow, `zeros_like`, and the host aliasing `game.grid`. Integers in
  the model are unbounded, and cell values in a 0/1 grid never come near
  the limit.
- A negative width or height at construction is not modelled, because NumPy
  rejects it. The constructor takes natural numbers.
- The default arguments of the source (`width = 50`, `height = 50`,
  `probability = 0.3`, `x = y = 0`) are not modelled: every call in the
  model passes its arguments explicitly.
