/** Stencils of the `PATTERNS` table placed on small tori and evolved: the
    blinker's period-2 oscillation and the glider's diagonal travel. */
module Scenarios {
  import opened Life
  import opened Patterns

  /** The grid shifted by `(dx, dy)` on the torus: its cell `(x, y)` shows
      what `g` holds at `(x - dx, y - dy)`. */
  function Translate(g: Grid, dx: int, dy: int): (r: Grid)
    requires IsGrid(g) && |g| > 0 && Width(g) > 0
    ensures HasShape(r, |g|, Width(g))
  {
    seq(|g|, y => seq(Width(g), x => At(g, x - dx, y - dy)))
  }

  // ---------------------------------------------------------------------------
  // Blinker on a 5 x 5 grid

  /** The blinker lying in row 2, columns 1 to 3. */
  const Horizontal: Grid := seq(5, y => seq(5, x => if y == 2 && (x == 1 || x == 2 || x == 3) then 1 else 0))

  /** The blinker standing in column 2, rows 1 to 3. */
  const Vertical: Grid := seq(5, y => seq(5, x => if x == 2 && (y == 1 || y == 2 || y == 3) then 1 else 0))

  /** `set_pattern(PATTERNS['blinker'], 1, 2)` on a cleared 5 x 5 grid lays
      the blinker down in the middle row. */
  lemma BlinkerPlacement()
    ensures Fits(Zeros(5, 5), Blinker, 1, 2)
    ensures Place(Zeros(5, 5), Blinker, 1, 2) == Horizontal
  {
    SameCells(Place(Zeros(5, 5), Blinker, 1, 2), Horizontal);
  }

  lemma HorizontalCell(x: int, y: int)
    requires 0 <= x < 5 && 0 <= y < 5
    ensures NextCell(Horizontal, x, y) == Vertical[y][x]
  {
    NeighborsUnfolded(Horizontal, x, y);
    WrapNeighbours(x, 5);
    WrapNeighbours(y, 5);
  }

  lemma VerticalCell(x: int, y: int)
    requires 0 <= x < 5 && 0 <= y < 5
    ensures NextCell(Vertical, x, y) == Horizontal[y][x]
  {
    NeighborsUnfolded(Vertical, x, y);
    WrapNeighbours(x, 5);
    WrapNeighbours(y, 5);
  }

  /** The placed blinker stands up after one step, lies down again after the
      next, and so has period 2. */
  lemma BlinkerOscillates()
    ensures Fits(Zeros(5, 5), Blinker, 1, 2)
    ensures StepGrid(Place(Zeros(5, 5), Blinker, 1, 2)) == Vertical
    ensures StepGrid(Vertical) == Place(Zeros(5, 5), Blinker, 1, 2)
    ensures StepN(Place(Zeros(5, 5), Blinker, 1, 2), 2) == Place(Zeros(5, 5), Blinker, 1, 2)
  {
    BlinkerPlacement();
    forall y, x | 0 <= y < 5 && 0 <= x < 5
      ensures NextCell(Horizontal, x, y) == Vertical[y][x]
    {
      HorizontalCell(x, y);
    }
    StepMatches(Horizontal, Vertical);
    forall y, x | 0 <= y < 5 && 0 <= x < 5
      ensures NextCell(Vertical, x, y) == Horizontal[y][x]
    {
      VerticalCell(x, y);
    }
    StepMatches(Vertical, Horizontal);
    assert StepN(Horizontal, 2) == StepN(Vertical, 1) == StepN(Horizontal, 0);
  }

  // ---------------------------------------------------------------------------
  // Glider on a 10 x 10 grid

  /** The glider of the table with its top-left corner at (1, 1). */
  const Glide0: Grid := seq(10, y => seq(10, x =>
    if (y == 1 && x == 2) || (y == 2 && x == 3) || (y == 3 && (x == 1 || x == 2 || x == 3)) then 1 else 0))

  const Glide1: Grid := seq(10, y => seq(10, x =>
    if (y == 2 && (x == 1 || x == 3)) || (y == 3 && (x == 2 || x == 3)) || (y == 4 && x == 2) then 1 else 0))

  const Glide2: Grid := seq(10, y => seq(10, x =>
    if (y == 2 && x == 3) || (y == 3 && (x == 1 || x == 3)) || (y == 4 && (x == 2 || x == 3)) then 1 else 0))

  const Glide3: Grid := seq(10, y => seq(10, x =>
    if (y == 2 && x == 2) || (y == 3 && (x == 3 || x == 4)) || (y == 4 && (x == 2 || x == 3)) then 1 else 0))

  /** The first phase again, one cell further right and one further down. */
  const Glide4: Grid := seq(10, y => seq(10, x =>
    if (y == 2 && x == 3) || (y == 3 && x == 4) || (y == 4 && (x == 2 || x == 3 || x == 4)) then 1 else 0))

  lemma GliderPlacement()
    ensures Fits(Zeros(10, 10), Glider, 1, 1)
    ensures Place(Zeros(10, 10), Glider, 1, 1) == Glide0
  {
    SameCells(Place(Zeros(10, 10), Glider, 1, 1), Glide0);
  }

  lemma Glide01Cell(x: int, y: int)
    requires 0 <= x < 10 && 0 <= y < 10
    ensures NextCell(Glide0, x, y) == Glide1[y][x]
  {
    NeighborsUnfolded(Glide0, x, y);
    WrapNeighbours(x, 10);
    WrapNeighbours(y, 10);
  }

  lemma Glide12Cell(x: int, y: int)
    requires 0 <= x < 10 && 0 <= y < 10
    ensures NextCell(Glide1, x, y) == Glide2[y][x]
  {
    NeighborsUnfolded(Glide1, x, y);
    WrapNeighbours(x, 10);
    WrapNeighbours(y, 10);
  }

  lemma Glide23Cell(x: int, y: int)
    requires 0 <= x < 10 && 0 <= y < 10
    ensures NextCell(Glide2, x, y) == Glide3[y][x]
  {
    NeighborsUnfolded(Glide2, x, y);
    WrapNeighbours(x, 10);
    WrapNeighbours(y, 10);
  }

  lemma Glide34Cell(x: int, y: int)
    requires 0 <= x < 10 && 0 <= y < 10
    ensures NextCell(Glide3, x, y) == Glide4[y][x]
  {
    NeighborsUnfolded(Glide3, x, y);
    WrapNeighbours(x, 10);
    WrapNeighbours(y, 10);
  }

  /** The four generations of the glider, one step apart. */
  lemma GliderSteps()
    ensures StepGrid(Glide0) == Glide1 && StepGrid(Glide1) == Glide2
    ensures StepGrid(Glide2) == Glide3 && StepGrid(Glide3) == Glide4
  {
    forall y, x | 0 <= y < 10 && 0 <= x < 10
      ensures NextCell(Glide0, x, y) == Glide1[y][x]
    {
      Glide01Cell(x, y);
    }
    StepMatches(Glide0, Glide1);
    forall y, x | 0 <= y < 10 && 0 <= x < 10
      ensures NextCell(Glide1, x, y) == Glide2[y][x]
    {
      Glide12Cell(x, y);
    }
    StepMatches(Glide1, Glide2);
    forall y, x | 0 <= y < 10 && 0 <= x < 10
      ensures NextCell(Glide2, x, y) == Glide3[y][x]
    {
      Glide23Cell(x, y);
    }
    StepMatches(Glide2, Glide3);
    forall y, x | 0 <= y < 10 && 0 <= x < 10
      ensures NextCell(Glide3, x, y) == Glide4[y][x]
    {
      Glide34Cell(x, y);
    }
    StepMatches(Glide3, Glide4);
  }

  /** The last phase is the first moved by (1, 1). */
  lemma GliderDisplaced()
    ensures Glide4 == Translate(Glide0, 1, 1)
  {
    var t := Translate(Glide0, 1, 1);
    forall y, x | 0 <= y < 10 && 0 <= x < 10
      ensures t[y][x] == Glide4[y][x]
    {
      WrapNeighbours(x, 10);
      WrapNeighbours(y, 10);
    }
    SameCells(t, Glide4);
  }

  /** A set of positions is the set of live cells when each of them is alive
      and every live cell is among them. */
  lemma LiveCellsExactly(g: Grid, live: set<(int, int)>)
    requires forall p | p in live :: 0 <= p.0 < |g| && 0 <= p.1 < |g[p.0]| && g[p.0][p.1] == 1
    requires forall y, x | 0 <= y < |g| && 0 <= x < |g[y]| && g[y][x] == 1 :: (y, x) in live
    ensures LiveCells(g) == live
  {
  }

  /** A 0/1 grid whose live cells are exactly the positions in `live` sums
      to the number of those positions. */
  lemma PopulationOf(g: Grid, live: set<(int, int)>)
    requires Binary(g)
    requires forall p | p in live :: 0 <= p.0 < |g| && 0 <= p.1 < |g[p.0]| && g[p.0][p.1] == 1
    requires forall y, x | 0 <= y < |g| && 0 <= x < |g[y]| && g[y][x] == 1 :: (y, x) in live
    ensures GridSum(g) == |live|
  {
    LiveCellsExactly(g, live);
    GridSumCountsLive(g);
  }

  lemma Population0()
    ensures GridSum(Glide0) == 5
  {
    var live := {(1, 2), (2, 3), (3, 1), (3, 2), (3, 3)};
    assert |live| == 5;
    PopulationOf(Glide0, live);
  }

  lemma Population1()
    ensures GridSum(Glide1) == 5
  {
    var live := {(2, 1), (2, 3), (3, 2), (3, 3), (4, 2)};
    assert |live| == 5;
    PopulationOf(Glide1, live);
  }

  lemma Population2()
    ensures GridSum(Glide2) == 5
  {
    var live := {(2, 3), (3, 1), (3, 3), (4, 2), (4, 3)};
    assert |live| == 5;
    PopulationOf(Glide2, live);
  }

  lemma Population3()
    ensures GridSum(Glide3) == 5
  {
    var live := {(2, 2), (3, 3), (3, 4), (4, 2), (4, 3)};
    assert |live| == 5;
    PopulationOf(Glide3, live);
  }

  lemma Population4()
    ensures GridSum(Glide4) == 5
  {
    var live := {(2, 3), (3, 4), (4, 2), (4, 3), (4, 4)};
    assert |live| == 5;
    PopulationOf(Glide4, live);
  }

  lemma StepNFirst(g: Grid, n: nat)
    requires IsGrid(g)
    ensures StepN(g, n + 1) == StepN(StepGrid(g), n)
  {
  }

  /** The generations of the glider reached from its first phase. */
  lemma GliderRuns()
    ensures StepN(Glide0, 0) == Glide0 && StepN(Glide0, 1) == Glide1
    ensures StepN(Glide0, 2) == Glide2 && StepN(Glide0, 3) == Glide3
    ensures StepN(Glide0, 4) == Glide4
  {
    GliderSteps();
    StepNFirst(Glide3, 0);
    StepNFirst(Glide2, 0);
    StepNFirst(Glide2, 1);
    StepNFirst(Glide1, 0);
    StepNFirst(Glide1, 1);
    StepNFirst(Glide1, 2);
    StepNFirst(Glide0, 0);
    StepNFirst(Glide0, 1);
    StepNFirst(Glide0, 2);
    StepNFirst(Glide0, 3);
  }

  /** `set_pattern(PATTERNS['glider'], 1, 1)` on a cleared 10 x 10 grid:
      after four steps the glider reappears shifted by one column and one
      row. */
  lemma GliderGlides()
    ensures Fits(Zeros(10, 10), Glider, 1, 1)
    ensures StepN(Place(Zeros(10, 10), Glider, 1, 1), 4) == Translate(Place(Zeros(10, 10), Glider, 1, 1), 1, 1)
  {
    GliderPlacement();
    GliderRuns();
    GliderDisplaced();
  }

  lemma PopulationRuns(k: int)
    requires 0 <= k <= 4
    ensures GridSum(StepN(Glide0, k)) == 5
  {
    GliderRuns();
    if k == 0 {
      Population0();
    } else if k == 1 {
      Population1();
    } else if k == 2 {
      Population2();
    } else if k == 3 {
      Population3();
    } else {
      Population4();
    }
  }

  /** On the way, `get_alive_count()` is 5 in every generation. */
  lemma GliderKeepsFive()
    ensures Fits(Zeros(10, 10), Glider, 1, 1)
    ensures forall k | 0 <= k <= 4 :: GridSum(StepN(Place(Zeros(10, 10), Glider, 1, 1), k)) == 5
  {
    GliderPlacement();
    forall k | 0 <= k <= 4
      ensures GridSum(StepN(Glide0, k)) == 5
    {
      PopulationRuns(k);
    }
  }
}
