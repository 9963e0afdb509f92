/** The rules of the engine in game.py, stated on values.

    A grid is a sequence of rows: `g[y][x]` is the cell in row `y`, column `x`,
    as `self.grid[y, x]` is in the source.  Cells hold the integers the source
    stores (0 dead, 1 alive); that every cell is 0 or 1 is the predicate
    `Binary`, which the transitions below establish or preserve. */
module Life {

  type Grid = seq<seq<int>>

  // ---------------------------------------------------------------------------
  // Shape

  /** `g` has `height` rows of `width` cells each (the shape of a 2-D array). */
  predicate HasShape<T>(g: seq<seq<T>>, height: nat, width: nat)
  {
    |g| == height && forall y | 0 <= y < |g| :: |g[y]| == width
  }

  /** Number of columns of a rectangular grid; a grid without rows has none. */
  function Width<T>(g: seq<seq<T>>): nat
  {
    if |g| == 0 then 0 else |g[0]|
  }

  /** Every row is as long as the first. */
  predicate IsGrid<T>(g: seq<seq<T>>)
  {
    HasShape(g, |g|, Width(g))
  }

  /** Every cell is 0 (dead) or 1 (alive). */
  predicate Binary(g: Grid)
  {
    forall y, x | 0 <= y < |g| && 0 <= x < |g[y]| :: g[y][x] == 0 || g[y][x] == 1
  }

  predicate AllDead(g: Grid)
  {
    forall y, x | 0 <= y < |g| && 0 <= x < |g[y]| :: g[y][x] == 0
  }

  predicate AllAlive(g: Grid)
  {
    forall y, x | 0 <= y < |g| && 0 <= x < |g[y]| :: g[y][x] == 1
  }

  /** The grid `np.zeros((height, width))` builds. */
  function Zeros(height: nat, width: nat): (g: Grid)
    ensures HasShape(g, height, width) && AllDead(g)
  {
    seq(height, _ => seq(width, _ => 0))
  }

  /** Two grids with the same shape and the same cells are equal. */
  lemma SameCells(a: Grid, b: Grid)
    requires |a| == |b|
    requires forall y | 0 <= y < |a| :: |a[y]| == |b[y]|
    requires forall y, x | 0 <= y < |a| && 0 <= x < |a[y]| :: a[y][x] == b[y][x]
    ensures a == b
  {
    forall y | 0 <= y < |a|
      ensures a[y] == b[y]
    {
      assert forall x | 0 <= x < |a[y]| :: a[y][x] == b[y][x];
    }
  }

  // ---------------------------------------------------------------------------
  // Toroidal indexing

  /** Python's `a % n` for a positive `n`: the remainder takes the sign of the
      divisor, so it is never negative and column -1 wraps to column n - 1. */
  function Wrap(a: int, n: int): (r: int)
    requires n > 0
    ensures 0 <= r < n
  {
    a % n
  }

  /** The wrap-around at both edges and the identity inside. */
  lemma WrapEdges(n: int)
    requires n > 0
    ensures Wrap(-1, n) == n - 1
    ensures Wrap(n, n) == 0
    ensures forall a | 0 <= a < n :: Wrap(a, n) == a
  {
  }

  /** Wrapping forgets a whole turn around the torus. */
  lemma WrapShift(a: int, n: int)
    requires n > 0
    ensures Wrap(a + n, n) == Wrap(a, n)
  {
    var q, r := a / n, a % n;
    assert a == q * n + r;
    assert a + n == (q + 1) * n + r;
    RemainderUnique(a + n, n, q + 1, r);
  }

  /** Inside `[0, n)`, stepping one index back or forward wraps only at the
      two edges. */
  lemma WrapNeighbours(a: int, n: int)
    requires 0 <= a < n
    ensures Wrap(a, n) == a
    ensures Wrap(a - 1, n) == if a == 0 then n - 1 else a - 1
    ensures Wrap(a + 1, n) == if a == n - 1 then 0 else a + 1
  {
    RemainderUnique(a, n, 0, a);
    if a == 0 {
      RemainderUnique(a - 1, n, -1, n - 1);
    } else {
      RemainderUnique(a - 1, n, 0, a - 1);
    }
    if a == n - 1 {
      RemainderUnique(a + 1, n, 1, 0);
    } else {
      RemainderUnique(a + 1, n, 0, a + 1);
    }
  }

  /** Euclidean division is unique: a remainder in [0, n) fixes the quotient. */
  lemma RemainderUnique(a: int, n: int, q: int, r: int)
    requires n > 0 && 0 <= r < n && a == q * n + r
    ensures a % n == r
  {
    var q', r' := a / n, a % n;
    assert a == q' * n + r';
    if q' > q {
      MulMonotone(q + 1, q', n);
      assert false;
    } else if q' < q {
      MulMonotone(q' + 1, q, n);
      assert false;
    }
  }

  lemma MulMonotone(i: int, j: int, n: int)
    requires i <= j && n > 0
    ensures i * n <= j * n
  {
    assert j * n - i * n == (j - i) * n;
  }

  /** The cell at `(x, y)` read through the torus, as `self.grid[ny, nx]` with
      `nx = x % width` and `ny = y % height`. */
  function At(g: Grid, x: int, y: int): int
    requires IsGrid(g) && |g| > 0 && Width(g) > 0
  {
    g[Wrap(y, |g|)][Wrap(x, Width(g))]
  }

  // ---------------------------------------------------------------------------
  // Neighbour count

  /** What the offset `(dx, dy)` adds to the count: nothing for the cell itself. */
  function OffsetTerm(g: Grid, x: int, y: int, dx: int, dy: int): int
    requires IsGrid(g) && |g| > 0 && Width(g) > 0
  {
    if dx == 0 && dy == 0 then 0 else At(g, x + dx, y + dy)
  }

  /** The terms of the first `k` offsets `dx = -1, 0, 1` of row offset `dy`. */
  function RowCount(g: Grid, x: int, y: int, dy: int, k: nat): int
    requires IsGrid(g) && |g| > 0 && Width(g) > 0
    requires k <= 3
  {
    if k == 0 then 0 else RowCount(g, x, y, dy, k - 1) + OffsetTerm(g, x, y, k - 2, dy)
  }

  /** The terms of the first `k` row offsets `dy = -1, 0, 1`. */
  function BlockCount(g: Grid, x: int, y: int, k: nat): int
    requires IsGrid(g) && |g| > 0 && Width(g) > 0
    requires k <= 3
  {
    if k == 0 then 0 else BlockCount(g, x, y, k - 1) + RowCount(g, x, y, k - 2, 3)
  }

  /** `count_neighbors(x, y)`: the sum of the cells at the eight offsets
      around `(x, y)`, each read through the torus.  It is a sum over offsets,
      not over distinct cells: on a grid one or two cells wide the same cell,
      or the cell itself, is counted more than once. */
  function Neighbors(g: Grid, x: int, y: int): int
    requires IsGrid(g) && |g| > 0 && Width(g) > 0
  {
    BlockCount(g, x, y, 3)
  }

  /** The count written out as the eight wrapped reads. */
  lemma NeighborsUnfolded(g: Grid, x: int, y: int)
    requires IsGrid(g) && |g| > 0 && Width(g) > 0
    ensures Neighbors(g, x, y) ==
      At(g, x - 1, y - 1) + At(g, x, y - 1) + At(g, x + 1, y - 1) +
      At(g, x - 1, y) + At(g, x + 1, y) +
      At(g, x - 1, y + 1) + At(g, x, y + 1) + At(g, x + 1, y + 1)
  {
    forall dy | -1 <= dy <= 1
      ensures RowCount(g, x, y, dy, 3) ==
        OffsetTerm(g, x, y, -1, dy) + OffsetTerm(g, x, y, 0, dy) + OffsetTerm(g, x, y, 1, dy)
    {
      assert RowCount(g, x, y, dy, 1) == OffsetTerm(g, x, y, -1, dy);
      assert RowCount(g, x, y, dy, 2) == RowCount(g, x, y, dy, 1) + OffsetTerm(g, x, y, 0, dy);
    }
    assert BlockCount(g, x, y, 1) == RowCount(g, x, y, -1, 3);
    assert BlockCount(g, x, y, 2) == BlockCount(g, x, y, 1) + RowCount(g, x, y, 0, 3);
  }

  /** On a 0/1 grid a wrapped read is 0 or 1. */
  lemma AtBinary(g: Grid, x: int, y: int)
    requires IsGrid(g) && |g| > 0 && Width(g) > 0 && Binary(g)
    ensures At(g, x, y) == 0 || At(g, x, y) == 1
  {
    var ny, nx := Wrap(y, |g|), Wrap(x, Width(g));
    assert |g[ny]| == Width(g);
  }

  /** On a 0/1 grid the count lies in [0, 8]. */
  lemma NeighborsRange(g: Grid, x: int, y: int)
    requires IsGrid(g) && |g| > 0 && Width(g) > 0 && Binary(g)
    ensures 0 <= Neighbors(g, x, y) <= 8
  {
    NeighborsUnfolded(g, x, y);
    AtBinary(g, x - 1, y - 1); AtBinary(g, x, y - 1); AtBinary(g, x + 1, y - 1);
    AtBinary(g, x - 1, y); AtBinary(g, x + 1, y);
    AtBinary(g, x - 1, y + 1); AtBinary(g, x, y + 1); AtBinary(g, x + 1, y + 1);
  }

  /** The count of a cell does not change when its coordinates go once more
      around the torus. */
  lemma NeighborsPeriodic(g: Grid, x: int, y: int)
    requires IsGrid(g) && |g| > 0 && Width(g) > 0
    ensures Neighbors(g, x + Width(g), y) == Neighbors(g, x, y)
    ensures Neighbors(g, x, y + |g|) == Neighbors(g, x, y)
  {
    var w, h := Width(g), |g|;
    NeighborsUnfolded(g, x, y);
    NeighborsUnfolded(g, x + w, y);
    NeighborsUnfolded(g, x, y + h);
    AtShift(g, x - 1, y - 1); AtShift(g, x, y - 1); AtShift(g, x + 1, y - 1);
    AtShift(g, x - 1, y); AtShift(g, x + 1, y);
    AtShift(g, x - 1, y + 1); AtShift(g, x, y + 1); AtShift(g, x + 1, y + 1);
  }

  lemma AtShift(g: Grid, x: int, y: int)
    requires IsGrid(g) && |g| > 0 && Width(g) > 0
    ensures At(g, x + Width(g), y) == At(g, x, y)
    ensures At(g, x, y + |g|) == At(g, x, y)
  {
    WrapShift(x, Width(g));
    WrapShift(y, |g|);
  }

  /** On a dead grid every count is 0. */
  lemma NeighborsOfDead(g: Grid, x: int, y: int)
    requires IsGrid(g) && |g| > 0 && Width(g) > 0 && AllDead(g)
    ensures Neighbors(g, x, y) == 0
  {
    NeighborsUnfolded(g, x, y);
    AtDead(g, x - 1, y - 1); AtDead(g, x, y - 1); AtDead(g, x + 1, y - 1);
    AtDead(g, x - 1, y); AtDead(g, x + 1, y);
    AtDead(g, x - 1, y + 1); AtDead(g, x, y + 1); AtDead(g, x + 1, y + 1);
  }

  lemma AtDead(g: Grid, x: int, y: int)
    requires IsGrid(g) && |g| > 0 && Width(g) > 0 && AllDead(g)
    ensures At(g, x, y) == 0
  {
    var ny, nx := Wrap(y, |g|), Wrap(x, Width(g));
    assert |g[ny]| == Width(g);
  }

  /** Wrap-around at every edge and corner: on a 3 x 3 grid whose only live
      cell is (0, 0), the opposite corner (2, 2) has exactly one neighbour. */
  lemma CornerWrapsToCorner()
    ensures Neighbors([[1, 0, 0], [0, 0, 0], [0, 0, 0]], 2, 2) == 1
  {
    var g: Grid := [[1, 0, 0], [0, 0, 0], [0, 0, 0]];
    NeighborsUnfolded(g, 2, 2);
    assert At(g, 3, 3) == g[0][0] == 1;
  }

  /** On a 1 x 1 grid all eight offsets land on the cell itself. */
  lemma SingleCellSeesItself(v: int)
    ensures Neighbors([[v]], 0, 0) == 8 * v
  {
    var g: Grid := [[v]];
    NeighborsUnfolded(g, 0, 0);
    forall dx, dy | -1 <= dx <= 1 && -1 <= dy <= 1
      ensures At(g, dx, dy) == v
    {
      assert Wrap(dx, 1) == 0 && Wrap(dy, 1) == 0;
    }
  }

  /** On a 1 x 2 grid the offsets -1 and +1 land on the same column, so the
      other cell is counted six times and the cell itself twice. */
  lemma TwoCellRow(a: int, b: int)
    ensures Neighbors([[a, b]], 0, 0) == 2 * a + 6 * b
  {
    var g: Grid := [[a, b]];
    NeighborsUnfolded(g, 0, 0);
    forall dx, dy | -1 <= dx <= 1 && -1 <= dy <= 1
      ensures At(g, dx, dy) == if dx == 0 then a else b
    {
      assert Wrap(dy, 1) == 0;
      assert Wrap(dx, 2) == if dx == 0 then 0 else 1;
    }
  }

  // ---------------------------------------------------------------------------
  // The transition

  datatype State = Dead | Alive

  /** How the engine reads a stored cell value. */
  function StateOf(v: int): State
  {
    if v == 1 then Alive else Dead
  }

  /** Conway's B3/S23 rule in its birth/survival form: three live neighbours
      make a cell alive, two keep it as it is, any other count leaves it dead. */
  function Rule(s: State, n: int): State
  {
    if n == 3 then Alive else if n == 2 then s else Dead
  }

  /** The value `step` writes into `new_grid[y, x]`: 1 where a live cell has
      2 or 3 neighbours or a dead cell has exactly 3, and the 0 of the zeroed
      buffer everywhere else. */
  function NextCell(g: Grid, x: int, y: int): int
    requires IsGrid(g) && 0 <= y < |g| && 0 <= x < Width(g)
  {
    var neighbors := Neighbors(g, x, y);
    var current := g[y][x];
    if current == 1 && (neighbors == 2 || neighbors == 3) then 1
    else if current == 0 && neighbors == 3 then 1
    else 0
  }

  /** One generation: every cell's next value, all computed from `g`. */
  function StepGrid(g: Grid): Grid
    requires IsGrid(g)
  {
    seq(|g|, y requires 0 <= y < |g| =>
      seq(Width(g), x requires 0 <= x < Width(g) => NextCell(g, x, y)))
  }

  /** A step keeps the shape and leaves only 0s and 1s, whatever the input held. */
  lemma StepShape(g: Grid)
    requires IsGrid(g)
    ensures HasShape(StepGrid(g), |g|, Width(g))
    ensures Binary(StepGrid(g))
  {
  }

  /** On a 0/1 grid each new cell follows B3/S23, with the neighbours counted
      on the grid before the step. */
  lemma StepFollowsRule(g: Grid, x: int, y: int)
    requires IsGrid(g) && Binary(g) && 0 <= y < |g| && 0 <= x < Width(g)
    ensures StepGrid(g)[y][x] == 0 || StepGrid(g)[y][x] == 1
    ensures StateOf(StepGrid(g)[y][x]) == Rule(StateOf(g[y][x]), Neighbors(g, x, y))
  {
    assert |g[y]| == Width(g);
  }

  /** A cell holding anything but 0 or 1 is dead after the step. */
  lemma StrayValueDies(g: Grid, x: int, y: int)
    requires IsGrid(g) && 0 <= y < |g| && 0 <= x < Width(g)
    requires g[y][x] != 0 && g[y][x] != 1
    ensures StepGrid(g)[y][x] == 0
  {
  }

  /** A dead grid is a fixed point of the step. */
  lemma DeadIsFixed(g: Grid)
    requires IsGrid(g) && AllDead(g)
    ensures StepGrid(g) == g
  {
    var s := StepGrid(g);
    forall y, x | 0 <= y < |g| && 0 <= x < |g[y]|
      ensures s[y][x] == g[y][x]
    {
      assert |g[y]| == Width(g);
      NeighborsOfDead(g, x, y);
    }
    SameCells(s, g);
  }

  /** Two grids of the same shape are one step apart when every cell of the
      second is the next value of the same cell of the first. */
  lemma StepMatches(g: Grid, next: Grid)
    requires IsGrid(g) && HasShape(next, |g|, Width(g))
    requires forall y, x | 0 <= y < |g| && 0 <= x < Width(g) :: NextCell(g, x, y) == next[y][x]
    ensures StepGrid(g) == next
  {
    SameCells(StepGrid(g), next);
  }

  /** On a grid at least 3 x 3, a single live cell has no live neighbour and
      dies, and no dead cell around it sees three: the next generation is
      all dead. */
  lemma LoneCellDies(g: Grid, x: int, y: int)
    requires IsGrid(g) && |g| >= 3 && Width(g) >= 3
    requires 0 <= y < |g| && 0 <= x < Width(g) && g[y][x] == 1
    requires forall i, j | 0 <= i < |g| && 0 <= j < |g[i]| && (i, j) != (y, x) :: g[i][j] == 0
    ensures Neighbors(g, x, y) == 0
    ensures AllDead(StepGrid(g))
  {
    LoneCellIsolated(g, x, y);
    var s := StepGrid(g);
    forall i, j | 0 <= i < |s| && 0 <= j < |s[i]|
      ensures s[i][j] == 0
    {
      LoneCellNeighbourhood(g, x, y, j, i);
    }
  }

  /** Next to a lone live cell every cell, the live one included, is dead in
      the next generation. */
  lemma LoneCellNeighbourhood(g: Grid, x: int, y: int, j: int, i: int)
    requires IsGrid(g) && |g| >= 3 && Width(g) >= 3
    requires 0 <= y < |g| && 0 <= x < Width(g) && g[y][x] == 1
    requires forall r, c | 0 <= r < |g| && 0 <= c < |g[r]| && (r, c) != (y, x) :: g[r][c] == 0
    requires 0 <= i < |g| && 0 <= j < Width(g)
    ensures NextCell(g, j, i) == 0
  {
    NeighborsUnfolded(g, j, i);
    WrapNeighbours(j, Width(g));
    WrapNeighbours(i, |g|);
    assert |g[i]| == Width(g);
  }

  /** The eight wrapped reads around a lone live cell all miss it. */
  lemma LoneCellIsolated(g: Grid, x: int, y: int)
    requires IsGrid(g) && |g| >= 3 && Width(g) >= 3
    requires 0 <= y < |g| && 0 <= x < Width(g) && g[y][x] == 1
    requires forall i, j | 0 <= i < |g| && 0 <= j < |g[i]| && (i, j) != (y, x) :: g[i][j] == 0
    ensures Neighbors(g, x, y) == 0
  {
    NeighborsUnfolded(g, x, y);
    WrapNeighbours(x, Width(g));
    WrapNeighbours(y, |g|);
    assert forall i | 0 <= i < |g| :: |g[i]| == Width(g);
  }

  /** `n` generations. */
  function StepN(g: Grid, n: nat): (r: Grid)
    requires IsGrid(g)
    ensures IsGrid(r) && |r| == |g| && Width(r) == Width(g)
    decreases n
  {
    if n == 0 then g else StepN(StepGrid(g), n - 1)
  }

  /** A dead grid stays dead for any number of generations. */
  lemma {:induction false} DeadForever(g: Grid, n: nat)
    requires IsGrid(g) && AllDead(g)
    ensures StepN(g, n) == g
  {
    if n > 0 {
      DeadIsFixed(g);
      DeadForever(g, n - 1);
    }
  }

  // ---------------------------------------------------------------------------
  // Alive count

  /** `np.sum` of one row. */
  function RowSum(r: seq<int>): int
  {
    if |r| == 0 then 0 else RowSum(r[..|r| - 1]) + r[|r| - 1]
  }

  /** `np.sum(self.grid)`: the sum of every cell. */
  function GridSum(g: Grid): int
  {
    if |g| == 0 then 0 else GridSum(g[..|g| - 1]) + RowSum(g[|g| - 1])
  }

  /** A 0/1 row sums to its number of live cells: at most its length, and 0
      exactly when every cell is dead. */
  lemma {:induction false} RowSumBinary(r: seq<int>)
    requires forall i | 0 <= i < |r| :: r[i] == 0 || r[i] == 1
    ensures 0 <= RowSum(r) <= |r|
    ensures RowSum(r) == 0 <==> forall i | 0 <= i < |r| :: r[i] == 0
    ensures RowSum(r) == |r| <==> forall i | 0 <= i < |r| :: r[i] == 1
  {
    if |r| > 0 {
      var p := r[..|r| - 1];
      assert forall i | 0 <= i < |p| :: p[i] == r[i];
      RowSumBinary(p);
    }
  }

  /** The alive count of a 0/1 grid lies between 0 and the number of cells. */
  lemma {:induction false} GridSumBounds(g: Grid, width: nat)
    requires HasShape(g, |g|, width) && Binary(g)
    ensures 0 <= GridSum(g) <= |g| * width
  {
    if |g| > 0 {
      var p, last := g[..|g| - 1], g[|g| - 1];
      assert forall y | 0 <= y < |p| :: p[y] == g[y];
      assert HasShape(p, |p|, width) && Binary(p);
      assert forall i | 0 <= i < |last| :: last[i] == 0 || last[i] == 1;
      GridSumBounds(p, width);
      RowSumBinary(last);
      assert |p| * width + width == |g| * width by {
        MulSucc(|p|, width);
      }
      assert GridSum(g) == GridSum(p) + RowSum(last);
    }
  }

  /** The alive count of a 0/1 grid is 0 exactly when every cell is dead. */
  lemma {:induction false} GridSumZero(g: Grid, width: nat)
    requires HasShape(g, |g|, width) && Binary(g)
    ensures GridSum(g) == 0 <==> AllDead(g)
  {
    if |g| > 0 {
      var p, last := g[..|g| - 1], g[|g| - 1];
      assert forall y | 0 <= y < |p| :: p[y] == g[y];
      GridSumZero(p, width);
      GridSumBounds(p, width);
      RowSumBinary(last);
      if GridSum(g) == 0 {
        forall y, x | 0 <= y < |g| && 0 <= x < |g[y]| ensures g[y][x] == 0 {
          if y < |p| { assert g[y][x] == p[y][x]; }
        }
      }
      if AllDead(g) {
        assert AllDead(p);
      }
    }
  }

  /** The live cells of `g`, as (row, column) pairs. */
  function LiveCells(g: Grid): set<(int, int)>
  {
    set y, x | 0 <= y < |g| && 0 <= x < |g[y]| && g[y][x] == 1 :: (y, x)
  }

  /** The number of living cells, counted as a set rather than summed. */
  function LiveCount(g: Grid): nat
  {
    |LiveCells(g)|
  }

  /** The live cells of a row `r` standing at row index `y`. */
  function RowLive(r: seq<int>, y: int): set<(int, int)>
  {
    set x | 0 <= x < |r| && r[x] == 1 :: (y, x)
  }

  /** A 0/1 row sums to the number of its live cells. */
  lemma {:induction false} RowSumCountsLive(r: seq<int>, y: int)
    requires forall i | 0 <= i < |r| :: r[i] == 0 || r[i] == 1
    ensures RowSum(r) == |RowLive(r, y)|
  {
    if |r| == 0 {
      assert RowLive(r, y) == {};
    } else {
      var p := r[..|r| - 1];
      assert forall i | 0 <= i < |p| :: p[i] == r[i];
      RowSumCountsLive(p, y);
      if r[|r| - 1] == 1 {
        assert RowLive(r, y) == RowLive(p, y) + {(y, |r| - 1)};
        assert (y, |r| - 1) !in RowLive(p, y);
      } else {
        assert RowLive(r, y) == RowLive(p, y);
      }
    }
  }

  /** `np.sum` of a 0/1 grid is the number of living cells. */
  lemma {:induction false} GridSumCountsLive(g: Grid)
    requires Binary(g)
    ensures GridSum(g) == LiveCount(g)
  {
    if |g| == 0 {
      assert LiveCells(g) == {};
    } else {
      var p, last := g[..|g| - 1], g[|g| - 1];
      assert forall y | 0 <= y < |p| :: p[y] == g[y];
      GridSumCountsLive(p);
      RowSumCountsLive(last, |p|);
      assert LiveCells(g) == LiveCells(p) + RowLive(last, |p|);
      assert LiveCells(p) !! RowLive(last, |p|);
    }
  }

  /** The alive count of a 0/1 grid is the number of cells exactly when every
      cell is alive. */
  lemma {:induction false} GridSumFull(g: Grid, width: nat)
    requires HasShape(g, |g|, width) && Binary(g)
    ensures GridSum(g) == |g| * width <==> AllAlive(g)
  {
    if |g| > 0 {
      var p, last := g[..|g| - 1], g[|g| - 1];
      assert forall y | 0 <= y < |p| :: p[y] == g[y];
      assert HasShape(p, |p|, width) && Binary(p);
      assert forall i | 0 <= i < |last| :: last[i] == 0 || last[i] == 1;
      GridSumFull(p, width);
      GridSumBounds(p, width);
      RowSumBinary(last);
      var full := |p| * width;
      assert |g| * width == full + width by {
        MulSucc(|p|, width);
      }
      assert GridSum(g) == GridSum(p) + RowSum(last);
      if GridSum(g) == full + width {
        assert AllAlive(p) && forall i | 0 <= i < |last| :: last[i] == 1;
        forall y, x | 0 <= y < |g| && 0 <= x < |g[y]| ensures g[y][x] == 1 {
          if y < |p| { assert g[y][x] == p[y][x]; }
        }
      }
      if AllAlive(g) {
        assert AllAlive(p);
        assert forall i | 0 <= i < |last| :: last[i] == 1;
      }
    }
  }

  lemma MulSucc(n: int, w: int)
    ensures (n + 1) * w == n * w + w
  {
  }

  // ---------------------------------------------------------------------------
  // Pattern placement

  /** `(x, y)` lies in the `h x w` rectangle whose top-left corner is `(x0, y0)`. */
  predicate InRegion(x: int, y: int, x0: int, y0: int, h: int, w: int)
  {
    y0 <= y < y0 + h && x0 <= x < x0 + w
  }

  /** `p` fits in `g` with its top-left corner at `(x, y)`. */
  predicate Fits(g: Grid, p: Grid, x: int, y: int)
  {
    IsGrid(g) && IsGrid(p) && 0 <= x && 0 <= y &&
    y + |p| <= |g| && x + Width(p) <= Width(g)
  }

  /** `grid[y:y+h, x:x+w] = p` for a region inside the grid: the region takes
      the pattern's values, every other cell keeps its own. */
  function Place(g: Grid, p: Grid, x: int, y: int): Grid
    requires Fits(g, p, x, y)
  {
    seq(|g|, i requires 0 <= i < |g| =>
      seq(|g[i]|, j requires 0 <= j < |g[i]| =>
        if InRegion(j, i, x, y, |p|, Width(p)) then p[i - y][j - x] else g[i][j]))
  }

  /** The `h x w` block of `g` whose top-left corner is `(x, y)`:
      `grid[y:y+h, x:x+w]` read back. */
  function Region(g: Grid, x: int, y: int, h: nat, w: nat): (r: Grid)
    requires IsGrid(g) && 0 <= x && 0 <= y && y + h <= |g| && x + w <= Width(g)
    ensures HasShape(r, h, w)
  {
    seq(h, i requires 0 <= i < h => g[y + i][x .. x + w])
  }

  /** Placing keeps the shape of the grid. */
  lemma PlaceShape(g: Grid, p: Grid, x: int, y: int)
    requires Fits(g, p, x, y)
    ensures HasShape(Place(g, p, x, y), |g|, Width(g))
  {
  }

  /** Round trip: the region a pattern was placed in reads back as the
      pattern, unrotated and unreflected. */
  lemma PlaceThenRead(g: Grid, p: Grid, x: int, y: int)
    requires Fits(g, p, x, y)
    ensures Region(Place(g, p, x, y), x, y, |p|, Width(p)) == p
  {
    var q := Place(g, p, x, y);
    PlaceShape(g, p, x, y);
    var r := Region(q, x, y, |p|, Width(p));
    forall i, j | 0 <= i < |r| && 0 <= j < |r[i]|
      ensures r[i][j] == p[i][j]
    {
      RegionCell(q, x, y, |p|, Width(p), i, j);
      PlaceInside(g, p, x, y, i, j);
    }
    SameCells(r, p);
  }

  lemma RegionCell(g: Grid, x: int, y: int, h: nat, w: nat, i: int, j: int)
    requires IsGrid(g) && 0 <= x && 0 <= y && y + h <= |g| && x + w <= Width(g)
    requires 0 <= i < h && 0 <= j < w
    ensures Region(g, x, y, h, w)[i][j] == g[y + i][x + j]
  {
    assert |g[y + i]| == Width(g);
  }

  lemma PlaceInside(g: Grid, p: Grid, x: int, y: int, i: int, j: int)
    requires Fits(g, p, x, y) && 0 <= i < |p| && 0 <= j < Width(p)
    ensures Place(g, p, x, y)[y + i][x + j] == p[i][j]
  {
    assert |g[y + i]| == Width(g);
    assert InRegion(x + j, y + i, x, y, |p|, Width(p));
  }

  /** Round trip the other way: writing back a region read from the grid
      changes nothing. */
  lemma ReadThenPlace(g: Grid, x: int, y: int, h: nat, w: nat)
    requires IsGrid(g) && 0 <= x && 0 <= y && y + h <= |g| && x + w <= Width(g)
    ensures Fits(g, Region(g, x, y, h, w), x, y)
    ensures Place(g, Region(g, x, y, h, w), x, y) == g
  {
    var r := Region(g, x, y, h, w);
    var q := Place(g, r, x, y);
    forall i, j | 0 <= i < |q| && 0 <= j < |q[i]|
      ensures q[i][j] == g[i][j]
    {
      if InRegion(j, i, x, y, |r|, Width(r)) {
        assert |g[i]| == Width(g);
        assert r[i - y][j - x] == g[i][j];
      }
    }
    SameCells(q, g);
  }

  /** Placing the same pattern twice at the same place is placing it once. */
  lemma PlaceIdempotent(g: Grid, p: Grid, x: int, y: int)
    requires Fits(g, p, x, y)
    ensures Fits(Place(g, p, x, y), p, x, y)
    ensures Place(Place(g, p, x, y), p, x, y) == Place(g, p, x, y)
  {
    var q := Place(g, p, x, y);
    PlaceShape(g, p, x, y);
    var qq := Place(q, p, x, y);
    SameCells(qq, q);
  }

  /** A 0/1 pattern placed on a 0/1 grid leaves a 0/1 grid. */
  lemma PlaceBinary(g: Grid, p: Grid, x: int, y: int)
    requires Fits(g, p, x, y) && Binary(g) && Binary(p)
    ensures Binary(Place(g, p, x, y))
  {
    var q := Place(g, p, x, y);
    forall i, j | 0 <= i < |q| && 0 <= j < |q[i]|
      ensures q[i][j] == 0 || q[i][j] == 1
    {
      if InRegion(j, i, x, y, |p|, Width(p)) {
        assert |p[i - y]| == Width(p);
      }
    }
  }

  // ---------------------------------------------------------------------------
  // Random fill

  /** `np.random.choice([0, 1], p=[1 - probability, probability])` for one
      cell, given the uniform sample `u` in [0, 1) it draws: the cumulative
      distribution is [1 - probability, 1], and the first entry above `u`
      picks the value. */
  function DrawCell(u: real, probability: real): int
  {
    if u < 1.0 - probability then 0 else 1
  }

  /** The grid `randomize` builds from one sample per cell. */
  function Draw(samples: seq<seq<real>>, probability: real): (g: Grid)
    ensures |g| == |samples|
    ensures forall y | 0 <= y < |g| :: |g[y]| == |samples[y]|
  {
    seq(|samples|, y requires 0 <= y < |samples| =>
      seq(|samples[y]|, x requires 0 <= x < |samples[y]| => DrawCell(samples[y][x], probability)))
  }

  predicate Uniform(samples: seq<seq<real>>)
  {
    forall y, x | 0 <= y < |samples| && 0 <= x < |samples[y]| :: 0.0 <= samples[y][x] < 1.0
  }

  /** A random fill is always 0/1; at probability 0 it is all dead and at
      probability 1 all alive, whatever the samples. */
  lemma DrawExtremes(samples: seq<seq<real>>, probability: real)
    requires Uniform(samples) && 0.0 <= probability <= 1.0
    ensures Binary(Draw(samples, probability))
    ensures probability == 0.0 ==> AllDead(Draw(samples, probability))
    ensures probability == 1.0 ==> AllAlive(Draw(samples, probability))
  {
  }
}
