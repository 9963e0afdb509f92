/** The `GameOfLife` class of game.py: a `height x width` grid of cells that
    the methods update in place or replace, and a generation counter. */
module Game {
  import opened Life

  class GameOfLife {
    const width: nat
    const height: nat
    /** `self.grid`, indexed `[y, x]` (row, column). */
    var grid: array2<int>
    var generation: nat
    /** The cells of `grid` as a value, row by row. */
    ghost var cells: Grid

    /** The grid has `height` rows of `width` columns and `cells` mirrors it. */
    ghost predicate Valid()
      reads this, grid
    {
      grid.Length0 == height && grid.Length1 == width &&
      HasShape(cells, height, width) &&
      forall y, x | 0 <= y < height && 0 <= x < width :: cells[y][x] == grid[y, x]
    }

    /** `__init__`: an all-dead grid of the given shape, at generation 0. */
    constructor (width: nat, height: nat)
      ensures Valid() && fresh(grid)
      ensures this.width == width && this.height == height
      ensures cells == Zeros(height, width) && generation == 0
      ensures GetAliveCount() == 0
    {
      this.width := width;
      this.height := height;
      grid := new int[height, width]((_, _) => 0);
      generation := 0;
      cells := Zeros(height, width);
    }

    /** `randomize(probability)`: a fresh grid with one draw per cell and the
        counter reset.  The random source is the parameter `samples`, one
        uniform value in [0, 1) per cell. */
    method Randomize(probability: real, samples: seq<seq<real>>)
      requires Valid()
      requires 0.0 <= probability <= 1.0
      requires HasShape(samples, height, width) && Uniform(samples)
      modifies this
      ensures Valid() && fresh(grid)
      ensures cells == Draw(samples, probability) && generation == 0
      ensures Binary(cells)
      ensures probability == 0.0 ==> AllDead(cells)
      ensures probability == 1.0 ==> AllAlive(cells)
    {
      grid := new int[height, width]((y, x) requires 0 <= y < |samples| && 0 <= x < |samples[y]| =>
        DrawCell(samples[y][x], probability));
      generation := 0;
      cells := Draw(samples, probability);
      DrawExtremes(samples, probability);
    }

    /** `set_pattern(pattern, x, y)`: the slice assignment
        `grid[y:y+h, x:x+w] = pattern`, for a region inside the grid.  The
        cells outside the region and the counter keep their values. */
    method SetPattern(pattern: Grid, x: int, y: int)
      requires Valid()
      requires Fits(cells, pattern, x, y)
      modifies this, grid
      ensures Valid() && grid == old(grid) && generation == old(generation)
      ensures cells == Place(old(cells), pattern, x, y)
      ensures forall i, j | 0 <= i < |pattern| && 0 <= j < Width(pattern) :: grid[y + i, x + j] == pattern[i][j]
      ensures forall i, j | 0 <= i < height && 0 <= j < width && !InRegion(j, i, x, y, |pattern|, Width(pattern)) ::
        grid[i, j] == old(grid[i, j])
    {
      var h, w := |pattern|, Width(pattern);
      forall i, j | 0 <= i < h && 0 <= j < w {
        grid[y + i, x + j] := pattern[i][j];
      }
      cells := Place(cells, pattern, x, y);
    }

    /** `count_neighbors(x, y)`: the eight wrapped reads around `(x, y)`,
        summed in the order of the source's two loops. */
    method CountNeighbors(x: int, y: int) returns (count: int)
      requires Valid() && width > 0 && height > 0
      ensures count == Neighbors(cells, x, y)
      ensures Binary(cells) ==> 0 <= count <= 8
    {
      count := 0;
      for dy := -1 to 2
        invariant count == BlockCount(cells, x, y, dy + 1)
      {
        for dx := -1 to 2
          invariant count == BlockCount(cells, x, y, dy + 1) + RowCount(cells, x, y, dy, dx + 1)
        {
          if dx == 0 && dy == 0 {
            continue;
          }
          var nx := (x + dx) % width;
          var ny := (y + dy) % height;
          count := count + grid[ny, nx];
        }
      }
      if Binary(cells) {
        NeighborsRange(cells, x, y);
      }
    }

    /** `step()`: every cell's next value is written into a zeroed buffer,
        computed from the grid as it was before the step; the buffer then
        replaces the grid and the counter advances by one. */
    method Step()
      requires Valid()
      modifies this
      ensures Valid() && fresh(grid)
      ensures cells == StepGrid(old(cells))
      ensures generation == old(generation) + 1
      ensures Binary(cells)
      ensures AllDead(old(cells)) ==> AllDead(cells)
    {
      ghost var g := cells;
      var newGrid := new int[height, width]((_, _) => 0);
      for y := 0 to height
        modifies newGrid
        invariant forall i, j | 0 <= i < y && 0 <= j < width :: newGrid[i, j] == NextCell(g, j, i)
        invariant forall i, j | y <= i < height && 0 <= j < width :: newGrid[i, j] == 0
      {
        for x := 0 to width
          modifies newGrid
          invariant forall i, j | 0 <= i < y && 0 <= j < width :: newGrid[i, j] == NextCell(g, j, i)
          invariant forall j | 0 <= j < x :: newGrid[y, j] == NextCell(g, j, y)
          invariant forall j | x <= j < width :: newGrid[y, j] == 0
          invariant forall i, j | y < i < height && 0 <= j < width :: newGrid[i, j] == 0
        {
          var neighbors := CountNeighbors(x, y);
          var current := grid[y, x];
          if current == 1 && (neighbors == 2 || neighbors == 3) {
            newGrid[y, x] := 1;
          } else if current == 0 && neighbors == 3 {
            newGrid[y, x] := 1;
          }
          assert newGrid[y, x] == NextCell(g, x, y);
        }
      }
      grid := newGrid;
      generation := generation + 1;
      cells := StepGrid(g);
      assert forall i, j | 0 <= i < height && 0 <= j < width :: cells[i][j] == NextCell(g, j, i);
      StepShape(g);
      if AllDead(g) {
        DeadIsFixed(g);
      }
    }

    /** The cells of `grid`, read from the array. */
    function Cells(): (c: Grid)
      reads this, grid
      ensures HasShape(c, grid.Length0, grid.Length1)
      ensures forall y, x | 0 <= y < grid.Length0 && 0 <= x < grid.Length1 :: c[y][x] == grid[y, x]
    {
      var a := grid;
      seq(a.Length0, y requires 0 <= y < a.Length0 reads a =>
        seq(a.Length1, x requires 0 <= x < a.Length1 reads a => a[y, x]))
    }

    /** Reading the array back gives the mirrored cells. */
    lemma CellsMirror()
      requires Valid()
      ensures Cells() == cells
    {
      SameCells(Cells(), cells);
    }

    /** `get_alive_count()`: the sum of all cells.  On a 0/1 grid it is the
        number of live cells: between 0 and `height * width`, 0 exactly when
        every cell is dead. */
    function GetAliveCount(): (n: int)
      requires Valid()
      reads this, grid
      ensures Binary(cells) ==> 0 <= n <= height * width
      ensures Binary(cells) ==> (n == 0 <==> AllDead(cells))
      ensures Binary(cells) ==> (n == height * width <==> AllAlive(cells))
      ensures Binary(cells) ==> n == LiveCount(cells)
    {
      CellsMirror();
      var c := Cells();
      if Binary(c) then
        GridSumBounds(c, width); GridSumZero(c, width); GridSumFull(c, width); GridSumCountsLive(c);
        GridSum(c)
      else
        GridSum(c)
    }

    /** `clear()`: a fresh all-dead grid and the counter back at 0, whatever
        the state was before, so clearing twice is clearing once. */
    method Clear()
      requires Valid()
      modifies this
      ensures Valid() && fresh(grid)
      ensures cells == Zeros(height, width) && generation == 0
      ensures GetAliveCount() == 0
    {
      grid := new int[height, width]((_, _) => 0);
      generation := 0;
      cells := Zeros(height, width);
    }
  }
}
