/** The occupancy (belief) map of a target as a value: `m[x][y]` is the
    probability that the target stands in cell (x, y). This module holds
    the functions the map operations of UGATargetComponent are proved
    against, and what is proved about them: total mass, the harvest of
    visible cells, renormalisation, the 3x3 diffusion and the arg-max
    extraction. */
module Occupancy {
  import opened Grid

  /** The sum of a row, last element last. */
  function RowTotal(r: seq<real>): real
  {
    if r == [] then 0.0 else RowTotal(r[..|r| - 1]) + r[|r| - 1]
  }

  /** The total probability mass of a map. */
  function Total(m: seq<seq<real>>): real
  {
    if m == [] then 0.0 else Total(m[..|m| - 1]) + RowTotal(m[|m| - 1])
  }

  /** Writing one value into a row changes its sum by the difference. */
  lemma {:induction false} RowTotalUpdate(r: seq<real>, y: int, v: real)
    requires 0 <= y < |r|
    ensures RowTotal(r[y := v]) == RowTotal(r) - r[y] + v
    decreases |r|
  {
    var n := |r| - 1;
    if y == n {
      assert r[y := v][..n] == r[..n];
    } else {
      assert r[y := v][..n] == r[..n][y := v];
      RowTotalUpdate(r[..n], y, v);
    }
  }

  /** Replacing one row changes the total by the difference of the row sums. */
  lemma {:induction false} TotalRowUpdate(m: seq<seq<real>>, x: int, row: seq<real>)
    requires 0 <= x < |m|
    ensures Total(m[x := row]) == Total(m) - RowTotal(m[x]) + RowTotal(row)
    decreases |m|
  {
    var n := |m| - 1;
    if x == n {
      assert m[x := row][..n] == m[..n];
    } else {
      assert m[x := row][..n] == m[..n][x := row];
      TotalRowUpdate(m[..n], x, row);
    }
  }

  /** Writing one cell changes the total by the difference. */
  lemma TotalUpdate(m: seq<seq<real>>, x: int, y: int, v: real)
    requires 0 <= x < |m| && 0 <= y < |m[x]|
    ensures Total(m[x := m[x][y := v]]) == Total(m) - m[x][y] + v
  {
    RowTotalUpdate(m[x], y, v);
    TotalRowUpdate(m, x, m[x][y := v]);
  }

  /** Every value of the map lies in [0, 1]. */
  ghost predicate UnitRange(m: seq<seq<real>>)
  {
    forall x, y :: 0 <= x < |m| && 0 <= y < |m[x]| ==> 0.0 <= m[x][y] <= 1.0
  }

  // ---------------------------------------------------------------------
  // Resetting to a single cell (OccupancyMapSetPosition)

  /** A w-by-h map holding 1 at `c` when `c` is one of its cells and 0
      everywhere else. */
  function Delta(w: nat, h: nat, c: CellRef): (r: seq<seq<real>>)
    ensures IsRect(r, w, h)
  {
    seq(w, x requires 0 <= x < w => seq(h, y requires 0 <= y < h => if c == Cell(x, y) then 1.0 else 0.0))
  }

  function Zero(w: nat, h: nat): (r: seq<seq<real>>)
    ensures IsRect(r, w, h)
  {
    seq(w, x requires 0 <= x < w => seq(h, y requires 0 <= y < h => 0.0))
  }

  lemma {:induction false} ZeroRowTotal(h: nat)
    ensures RowTotal(seq(h, y requires 0 <= y < h => 0.0)) == 0.0
  {
    if h > 0 {
      assert seq(h, y requires 0 <= y < h => 0.0)[..h - 1] == seq(h - 1, y requires 0 <= y < h - 1 => 0.0);
      ZeroRowTotal(h - 1);
    }
  }

  lemma {:induction false} ZeroTotal(w: nat, h: nat)
    ensures Total(Zero(w, h)) == 0.0
  {
    if w > 0 {
      assert Zero(w, h)[..w - 1] == Zero(w - 1, h);
      ZeroTotal(w - 1, h);
      ZeroRowTotal(h);
      assert Zero(w, h)[w - 1] == seq(h, y requires 0 <= y < h => 0.0);
    }
  }

  /** A delta placed inside the map is a probability distribution; one
      placed outside leaves the map empty. */
  lemma DeltaTotal(w: nat, h: nat, c: CellRef)
    ensures Total(Delta(w, h, c)) == if c.Cell? && 0 <= c.x < w && 0 <= c.y < h then 1.0 else 0.0
    ensures UnitRange(Delta(w, h, c))
  {
    var z := Zero(w, h);
    ZeroTotal(w, h);
    var d := Delta(w, h, c);
    if c.Cell? && 0 <= c.x < w && 0 <= c.y < h {
      var z' := z[c.x := z[c.x][c.y := 1.0]];
      forall x | 0 <= x < w
        ensures d[x] == z'[x]
      {
        assert forall y :: 0 <= y < h ==> d[x][y] == z'[x][y];
      }
      assert d == z';
      TotalUpdate(z, c.x, c.y, 1.0);
    } else {
      forall x | 0 <= x < w
        ensures d[x] == z[x]
      {
        assert forall y :: 0 <= y < h ==> d[x][y] == z[x][y];
      }
      assert d == z;
    }
  }

  // ---------------------------------------------------------------------
  // Harvesting the visible cells (step 2 of OccupancyMapUpdate)

  /** Row x of a map, keeping only the cells in `s`. */
  function MaskRow(r: seq<real>, x: int, s: set<CellRef>): (r': seq<real>)
    ensures |r'| == |r| && forall y :: 0 <= y < |r| ==> r'[y] == if Cell(x, y) in s then r[y] else 0.0
  {
    seq(|r|, y requires 0 <= y < |r| => if Cell(x, y) in s then r[y] else 0.0)
  }

  /** Row x of a map, with the cells in `s` zeroed. */
  function ClearRow(r: seq<real>, x: int, s: set<CellRef>): (r': seq<real>)
    ensures |r'| == |r| && forall y :: 0 <= y < |r| ==> r'[y] == if Cell(x, y) in s then 0.0 else r[y]
  {
    seq(|r|, y requires 0 <= y < |r| => if Cell(x, y) in s then 0.0 else r[y])
  }

  /** The values of the cells in `s`, zero elsewhere: the mass harvested. */
  function Masked(m: seq<seq<real>>, s: set<CellRef>): (r: seq<seq<real>>)
    ensures |r| == |m| && forall x :: 0 <= x < |m| ==> r[x] == MaskRow(m[x], x, s)
  {
    seq(|m|, x requires 0 <= x < |m| => MaskRow(m[x], x, s))
  }

  /** The map with the cells in `s` zeroed: the mass that is left. */
  function Cleared(m: seq<seq<real>>, s: set<CellRef>): (r: seq<seq<real>>)
    ensures |r| == |m| && forall x :: 0 <= x < |m| ==> r[x] == ClearRow(m[x], x, s)
  {
    seq(|m|, x requires 0 <= x < |m| => ClearRow(m[x], x, s))
  }

  /** Cell (x, y) is visible to one of the first k observers; `sight[o]` is
      observer o's visibility test of a world point. */
  ghost predicate SeenBy(grid: Grid, sight: seq<Vec3 -> bool>, k: int, x: int, y: int)
    requires 0 <= k <= |sight|
  {
    exists o :: 0 <= o < k && sight[o](grid.GetCellPosition(x, y))
  }

  /** Cell (x, y) has been collected by the harvest when it is at observer o,
      cell (xs, ys): seen by an earlier observer, or by observer o at a cell
      already scanned in X-outer, Y-inner order. */
  ghost predicate Scanned(grid: Grid, sight: seq<Vec3 -> bool>, o: int, xs: int, ys: int, x: int, y: int)
    requires 0 <= o < |sight|
  {
    grid.IsValidCell(x, y) &&
    (SeenBy(grid, sight, o, x, y) || (ColumnMajorBefore(x, y, xs, ys) && sight[o](grid.GetCellPosition(x, y))))
  }

  /** Scanned, for a cell reference. */
  ghost predicate Collected(grid: Grid, sight: seq<Vec3 -> bool>, o: int, xs: int, ys: int, c: CellRef)
    requires 0 <= o < |sight|
  {
    c.Cell? && Scanned(grid, sight, o, xs, ys, c.x, c.y)
  }

  /** Before observer o's scan, the cells collected are those earlier observers see. */
  lemma CollectedStart(grid: Grid, sight: seq<Vec3 -> bool>, o: int)
    requires 0 <= o < |sight|
    ensures forall c :: Collected(grid, sight, o, 0, 0, c) <==>
      c.Cell? && grid.IsValidCell(c.x, c.y) && SeenBy(grid, sight, o, c.x, c.y)
  {
  }

  /** Scanning cell (xs, ys) collects it exactly when observer o sees it. */
  lemma CollectedStep(grid: Grid, sight: seq<Vec3 -> bool>, o: int, xs: int, ys: int)
    requires 0 <= o < |sight| && grid.IsValidCell(xs, ys)
    ensures forall c :: Collected(grid, sight, o, xs, ys + 1, c) <==>
      Collected(grid, sight, o, xs, ys, c) || (c == Cell(xs, ys) && sight[o](grid.GetCellPosition(xs, ys)))
  {
    forall c: CellRef
      ensures Collected(grid, sight, o, xs, ys + 1, c) <==>
        Collected(grid, sight, o, xs, ys, c) || (c == Cell(xs, ys) && sight[o](grid.GetCellPosition(xs, ys)))
    {
      if c.Cell? {
        assert ColumnMajorBefore(c.x, c.y, xs, ys + 1) <==> ColumnMajorBefore(c.x, c.y, xs, ys) || (c.x == xs && c.y == ys);
      }
    }
  }

  /** The end of a column is the start of the next. */
  lemma CollectedColumnEnd(grid: Grid, sight: seq<Vec3 -> bool>, o: int, xs: int)
    requires 0 <= o < |sight|
    ensures forall c :: Collected(grid, sight, o, xs, grid.yCount, c) <==> Collected(grid, sight, o, xs + 1, 0, c)
  {
  }

  /** After observer o's scan, the cells collected are those observers up to o see. */
  lemma CollectedEnd(grid: Grid, sight: seq<Vec3 -> bool>, o: int)
    requires 0 <= o < |sight|
    ensures forall c :: Collected(grid, sight, o, grid.xCount, 0, c) <==>
      c.Cell? && grid.IsValidCell(c.x, c.y) && SeenBy(grid, sight, o + 1, c.x, c.y)
  {
    forall c: CellRef | c.Cell? && grid.IsValidCell(c.x, c.y)
      ensures SeenBy(grid, sight, o + 1, c.x, c.y) <==>
        SeenBy(grid, sight, o, c.x, c.y) || sight[o](grid.GetCellPosition(c.x, c.y))
    {
      if sight[o](grid.GetCellPosition(c.x, c.y)) {
        assert 0 <= o < o + 1;
      }
    }
  }

  /** The cells of the grid some observer sees. */
  ghost function VisibleCells(grid: Grid, sight: seq<Vec3 -> bool>): set<CellRef>
  {
    set x, y | 0 <= x < grid.xCount && 0 <= y < grid.yCount && SeenBy(grid, sight, |sight|, x, y) :: Cell(x, y)
  }

  lemma VisibleCellsMembers(grid: Grid, sight: seq<Vec3 -> bool>)
    ensures forall c: CellRef :: c in VisibleCells(grid, sight) <==>
      c.Cell? && grid.IsValidCell(c.x, c.y) && SeenBy(grid, sight, |sight|, c.x, c.y)
  {
    forall c: CellRef | c.Cell? && grid.IsValidCell(c.x, c.y) && SeenBy(grid, sight, |sight|, c.x, c.y)
      ensures c in VisibleCells(grid, sight)
    {
      assert c == Cell(c.x, c.y);
    }
  }

  /** Nothing is harvested before the first cell is. */
  lemma MaskedNothing(m: seq<seq<real>>)
    ensures Total(Masked(m, {})) == 0.0
  {
    var c := Cleared(m, {});
    forall x | 0 <= x < |m|
      ensures c[x] == m[x]
    {
      assert forall y :: 0 <= y < |m[x]| ==> c[x][y] == m[x][y];
    }
    assert c == m;
    SplitMass(m, {});
  }

  /** Harvesting one more cell adds its value to what was harvested. */
  lemma HarvestStep(m: seq<seq<real>>, s: set<CellRef>, x: int, y: int)
    requires 0 <= x < |m| && 0 <= y < |m[x]| && Cell(x, y) !in s
    ensures Total(Masked(m, s + {Cell(x, y)})) == Total(Masked(m, s)) + m[x][y]
  {
    var a := Masked(m, s);
    var b := Masked(m, s + {Cell(x, y)});
    var a' := a[x := a[x][y := m[x][y]]];
    forall x' | 0 <= x' < |m|
      ensures b[x'] == a'[x']
    {
      assert forall y' :: 0 <= y' < |m[x']| ==> b[x'][y'] == a'[x'][y'];
    }
    assert b == a';
    TotalUpdate(a, x, y, m[x][y]);
  }

  lemma {:induction false} RowSplit(r: seq<real>, x: int, s: set<CellRef>)
    ensures RowTotal(MaskRow(r, x, s)) + RowTotal(ClearRow(r, x, s)) == RowTotal(r)
    decreases |r|
  {
    if r != [] {
      var n := |r| - 1;
      assert MaskRow(r, x, s)[..n] == MaskRow(r[..n], x, s);
      assert ClearRow(r, x, s)[..n] == ClearRow(r[..n], x, s);
      RowSplit(r[..n], x, s);
    }
  }

  /** The harvested mass and the mass left add up to the mass before. */
  lemma {:induction false} SplitMass(m: seq<seq<real>>, s: set<CellRef>)
    ensures Total(Masked(m, s)) + Total(Cleared(m, s)) == Total(m)
    decreases |m|
  {
    if m != [] {
      var n := |m| - 1;
      assert Masked(m, s)[..n] == Masked(m[..n], s);
      assert Cleared(m, s)[..n] == Cleared(m[..n], s);
      SplitMass(m[..n], s);
      RowSplit(m[n], n, s);
    }
  }

  /** As written, OccupancyMapUpdate leaves the map as it was after the
      harvest, because its renormalising loop never stores what it computes.
      So from a distribution, the map afterwards carries only 1 - h, and
      it is no longer a distribution as soon as anything was harvested. */
  lemma UpdateLosesMass(m: seq<seq<real>>, s: set<CellRef>)
    requires Total(m) == 1.0
    ensures Total(Cleared(m, s)) == 1.0 - Total(Masked(m, s))
    ensures Total(Masked(m, s)) > 0.0 ==> Total(Cleared(m, s)) < 1.0
  {
    SplitMass(m, s);
  }

  // ---------------------------------------------------------------------
  // Renormalising (step 3 of OccupancyMapUpdate, as evidently intended)

  /** The product a * c. Naming it keeps every product one term to the
      solver, so equal factors give equal products by congruence alone. */
  function Times(a: real, c: real): real
  {
    a * c
  }

  /** Every value of a row multiplied by `c`. */
  function ScaleRow(r: seq<real>, c: real): seq<real>
  {
    seq(|r|, y requires 0 <= y < |r| => Times(r[y], c))
  }

  /** Every value multiplied by `c`. */
  function Scale(m: seq<seq<real>>, c: real): seq<seq<real>>
  {
    seq(|m|, x requires 0 <= x < |m| => ScaleRow(m[x], c))
  }

  /** Multiplication distributes over the sum `s` of `a` and `b`. */
  lemma Distribute(s: real, a: real, b: real, c: real)
    requires s == a + b
    ensures Times(s, c) == Times(a, c) + Times(b, c)
  {
  }

  /** If t splits into t1 and t2, then t scaled by c splits into their
      scaled values u1 and u2. */
  lemma ScaledSum(t: real, t1: real, t2: real, u1: real, u2: real, c: real)
    requires t == t1 + t2 && u1 == Times(t1, c) && u2 == Times(t2, c)
    ensures u1 + u2 == Times(t, c)
  {
    Distribute(t, t1, t2, c);
  }

  /** Scaling commutes with taking a prefix of a row. */
  lemma ScaleRowPrefix(r: seq<real>, c: real, n: nat)
    requires n <= |r|
    ensures ScaleRow(r, c)[..n] == ScaleRow(r[..n], c)
  {
    forall y | 0 <= y < n
      ensures ScaleRow(r, c)[..n][y] == ScaleRow(r[..n], c)[y]
    {
    }
  }

  /** Scaling commutes with taking a prefix of the rows. */
  lemma ScalePrefix(m: seq<seq<real>>, c: real, n: nat)
    requires n <= |m|
    ensures Scale(m, c)[..n] == Scale(m[..n], c)
  {
    forall x | 0 <= x < n
      ensures Scale(m, c)[..n][x] == Scale(m[..n], c)[x]
    {
    }
  }

  lemma {:induction false} RowScale(r: seq<real>, c: real)
    ensures RowTotal(ScaleRow(r, c)) == Times(RowTotal(r), c)
    decreases |r|
  {
    if r != [] {
      var n := |r| - 1;
      ScaleRowPrefix(r, c, n);
      assert ScaleRow(r, c)[n] == Times(r[n], c);
      RowScale(r[..n], c);
      ScaledSum(RowTotal(r), RowTotal(r[..n]), r[n], RowTotal(ScaleRow(r[..n], c)), Times(r[n], c), c);
    } else {
      assert ScaleRow(r, c) == [];
    }
  }

  /** The mass of a scaled map is the mass of its scaled prefix plus that
      of its scaled last row. */
  lemma ScaledTotalSplit(m: seq<seq<real>>, c: real)
    requires m != []
    ensures Total(Scale(m, c)) == Total(Scale(m[..|m| - 1], c)) + RowTotal(ScaleRow(m[|m| - 1], c))
  {
    ScalePrefix(m, c, |m| - 1);
    assert Scale(m, c)[|m| - 1] == ScaleRow(m[|m| - 1], c);
  }

  lemma {:induction false} TotalScale(m: seq<seq<real>>, c: real)
    ensures Total(Scale(m, c)) == Times(Total(m), c)
    decreases |m|
  {
    if m != [] {
      var n := |m| - 1;
      ScaledTotalSplit(m, c);
      TotalScale(m[..n], c);
      RowScale(m[n], c);
      ScaledSum(Total(m), Total(m[..n]), RowTotal(m[n]), Total(Scale(m[..n], c)), RowTotal(ScaleRow(m[n], c)), c);
    } else {
      assert Scale(m, c) == [];
    }
  }

  /** The rescaling the renormalising loop computes for each value: by
      1 / (1 - h), where h is the harvested mass. */
  function Renormalised(m: seq<seq<real>>, harvested: real): seq<seq<real>>
    requires harvested != 1.0
  {
    Scale(m, 1.0 / (1.0 - harvested))
  }

  /** Had the rescaled values been stored, a distribution harvested of h < 1
      would be a distribution again. */
  lemma RenormalisedRestoresMass(m: seq<seq<real>>, s: set<CellRef>)
    requires Total(m) == 1.0 && Total(Masked(m, s)) != 1.0
    ensures Total(Renormalised(Cleared(m, s), Total(Masked(m, s)))) == 1.0
  {
    var h := Total(Masked(m, s));
    SplitMass(m, s);
    TotalScale(Cleared(m, s), 1.0 / (1.0 - h));
  }

  // ---------------------------------------------------------------------
  // Extracting the estimate (step 4 of OccupancyMapUpdate)

  /** (x, y) holds the largest value of the w-by-h map and no cell after it
      in X-outer, Y-inner order holds that value: the cell the extraction
      loop, which keeps overwriting on every match, settles on. */
  ghost predicate IsLastMax(m: seq<seq<real>>, w: nat, h: nat, x: int, y: int)
    requires IsRect(m, w, h)
  {
    && 0 <= x < w && 0 <= y < h
    && (forall x', y' :: 0 <= x' < w && 0 <= y' < h ==> m[x'][y'] <= m[x][y])
    && (forall x', y' :: 0 <= x' < w && 0 <= y' < h && ColumnMajorBefore(x, y, x', y') ==> m[x'][y'] != m[x][y])
  }

  /** The extracted cell is determined by the map. */
  lemma LastMaxUnique(m: seq<seq<real>>, w: nat, h: nat, x1: int, y1: int, x2: int, y2: int)
    requires IsRect(m, w, h)
    requires IsLastMax(m, w, h, x1, y1) && IsLastMax(m, w, h, x2, y2)
    ensures x1 == x2 && y1 == y2
  {
    assert m[x1][y1] == m[x2][y2];
  }

  // ---------------------------------------------------------------------
  // Diffusing (OccupancyMapDiffuse)

  /** The offsets of the 3x3 neighbourhood in the order the diffusion visits
      them: horizontal offset outer, vertical offset inner. */
  const HorizontalOffsets: seq<int> := [-1, -1, -1, 0, 0, 0, 1, 1, 1]
  const VerticalOffsets: seq<int> := [-1, 0, 1, -1, 0, 1, -1, 0, 1]

  /** The k-th cell of the 3x3 neighbourhood of (x, y). */
  function Neighbour(x: int, y: int, k: int): CellRef
    requires 0 <= k < 9
  {
    Cell(x + HorizontalOffsets[k], y + VerticalOffsets[k])
  }

  /** The neighbour visited at horizontal step i and vertical step j. */
  lemma NeighbourAt(x: int, y: int, i: int, j: int)
    requires 0 <= i < 3 && 0 <= j < 3
    ensures Neighbour(x, y, 3 * i + j) == Cell(x - 1 + i, y - 1 + j)
  {
  }

  /** FGAGridMap::GetValue, reading 0 outside the map. */
  function ValueAt(m: seq<seq<real>>, x: int, y: int): real
  {
    if 0 <= x < |m| && 0 <= y < |m[x]| then m[x][y] else 0.0
  }

  /** How many of the first k neighbours of (x, y) are exactly traversable. */
  function NeighbourCount(grid: Grid, x: int, y: int, k: nat): nat
    requires k <= 9
  {
    if k == 0 then 0
    else
      var c := Neighbour(x, y, k - 1);
      NeighbourCount(grid, x, y, k - 1) + if grid.OnlyTraversable(c.x, c.y) then 1 else 0
  }

  /** The mass on the first k neighbours of (x, y) that are exactly traversable. */
  function NeighbourTotal(grid: Grid, m: seq<seq<real>>, x: int, y: int, k: nat): real
    requires k <= 9
  {
    if k == 0 then 0.0
    else
      var c := Neighbour(x, y, k - 1);
      NeighbourTotal(grid, m, x, y, k - 1) + if grid.OnlyTraversable(c.x, c.y) then ValueAt(m, c.x, c.y) else 0.0
  }

  /** The running count and mass of the neighbourhood harvest of (x, y)
      after k neighbours: the first k exactly traversable neighbours for a
      cell on the grid, nothing for a cell off it. */
  ghost predicate Tallied(grid: Grid, m: seq<seq<real>>, x: int, y: int, k: nat, count: nat, total: real)
    requires k <= 9
  {
    if grid.IsValidCell(x, y) then count == NeighbourCount(grid, x, y, k) && total == NeighbourTotal(grid, m, x, y, k)
    else count == 0 && total == 0.0
  }

  /** Visiting neighbour (x - 1 + i, y - 1 + j), the (3i + j)-th, adds it to
      the tally when (x, y) is on the grid and the neighbour is exactly
      traversable. */
  lemma TalliedStep(grid: Grid, m: seq<seq<real>>, x: int, y: int, i: int, j: int, count: nat, total: real)
    requires 0 <= i < 3 && 0 <= j < 3
    requires Tallied(grid, m, x, y, 3 * i + j, count, total)
    ensures var h, v := x - 1 + i, y - 1 + j;
      var counted := grid.IsValidCell(x, y) && grid.OnlyTraversable(h, v);
      Tallied(grid, m, x, y, 3 * i + j + 1,
        count + (if counted then 1 else 0), total + (if counted then ValueAt(m, h, v) else 0.0))
  {
    NeighbourAt(x, y, i, j);
  }

  lemma {:induction false} NeighbourCountGrows(grid: Grid, x: int, y: int, k: nat, k': nat)
    requires k <= k' <= 9
    ensures NeighbourCount(grid, x, y, k) <= NeighbourCount(grid, x, y, k')
    decreases k'
  {
    if k < k' {
      NeighbourCountGrows(grid, x, y, k, k' - 1);
    }
  }

  /** A traversable cell is its own neighbour, so the divisor of its mean is
      at least 1. */
  lemma CentreCounted(grid: Grid, x: int, y: int)
    requires grid.OnlyTraversable(x, y)
    ensures NeighbourCount(grid, x, y, 9) >= 1
  {
    assert Neighbour(x, y, 4) == Cell(x, y);
    assert NeighbourCount(grid, x, y, 5) >= 1;
    NeighbourCountGrows(grid, x, y, 5, 9);
  }

  /** The value a cell gets from the diffusion: the mean of its exactly
      traversable neighbours, itself included, when it is itself exactly
      traversable and inside the grid; 0 otherwise. */
  function DiffusedCell(grid: Grid, m: seq<seq<real>>, x: int, y: int): real
  {
    if grid.OnlyTraversable(x, y) && grid.IsValidCell(x, y) then
      CentreCounted(grid, x, y);
      NeighbourTotal(grid, m, x, y, 9) / NeighbourCount(grid, x, y, 9) as real
    else 0.0
  }

  /** The buffer the diffusion fills, over the whole grid. */
  function Diffused(grid: Grid, m: seq<seq<real>>): (r: seq<seq<real>>)
    ensures IsRect(r, grid.xCount, grid.yCount)
  {
    seq(grid.xCount, x requires 0 <= x < grid.xCount =>
      seq(grid.yCount, y requires 0 <= y < grid.yCount => DiffusedCell(grid, m, x, y)))
  }

  lemma {:induction false} NeighbourTotalBounds(grid: Grid, m: seq<seq<real>>, x: int, y: int, k: nat)
    requires k <= 9 && UnitRange(m)
    ensures 0.0 <= NeighbourTotal(grid, m, x, y, k) <= NeighbourCount(grid, x, y, k) as real
  {
    if k > 0 {
      NeighbourTotalBounds(grid, m, x, y, k - 1);
      var c := Neighbour(x, y, k - 1);
      assert 0.0 <= ValueAt(m, c.x, c.y) <= 1.0;
    }
  }

  lemma MeanInUnitRange(total: real, count: real)
    requires 0.0 <= total <= count && count >= 1.0
    ensures 0.0 <= total / count <= 1.0
  {
    assert total / count * count == total;
  }

  /** Diffusion keeps every value in [0, 1]. */
  lemma DiffusedInUnitRange(grid: Grid, m: seq<seq<real>>)
    requires UnitRange(m)
    ensures UnitRange(Diffused(grid, m))
  {
    var r := Diffused(grid, m);
    forall x, y | 0 <= x < |r| && 0 <= y < |r[x]|
      ensures 0.0 <= r[x][y] <= 1.0
    {
      if grid.OnlyTraversable(x, y) && grid.IsValidCell(x, y) {
        CentreCounted(grid, x, y);
        NeighbourTotalBounds(grid, m, x, y, 9);
        MeanInUnitRange(NeighbourTotal(grid, m, x, y, 9), NeighbourCount(grid, x, y, 9) as real);
      }
    }
  }

  lemma {:induction false} NeighbourTotalUniform(grid: Grid, m: seq<seq<real>>, v: real, x: int, y: int, k: nat)
    requires k <= 9
    requires forall x', y' :: grid.OnlyTraversable(x', y') ==> ValueAt(m, x', y') == v
    ensures NeighbourTotal(grid, m, x, y, k) == Times(NeighbourCount(grid, x, y, k) as real, v)
  {
    if k > 0 {
      NeighbourTotalUniform(grid, m, v, x, y, k - 1);
      var c := Neighbour(x, y, k - 1);
      var n := NeighbourCount(grid, x, y, k - 1);
      var t := NeighbourTotal(grid, m, x, y, k - 1);
      if grid.OnlyTraversable(c.x, c.y) {
        var value := ValueAt(m, c.x, c.y);
        assert value == v;
        assert NeighbourTotal(grid, m, x, y, k) == t + value;
        assert NeighbourCount(grid, x, y, k) == n + 1;
        Distribute(n as real + 1.0, n as real, 1.0, v);
      } else {
        assert NeighbourTotal(grid, m, x, y, k) == t;
        assert NeighbourCount(grid, x, y, k) == n;
      }
    }
  }

  /** Diffusion leaves a map that is uniform over the traversable cells as
      it was there. */
  lemma DiffusedUniform(grid: Grid, m: seq<seq<real>>, v: real, x: int, y: int)
    requires forall x', y' :: grid.OnlyTraversable(x', y') ==> ValueAt(m, x', y') == v
    requires grid.OnlyTraversable(x, y)
    ensures DiffusedCell(grid, m, x, y) == v
  {
    OnlyTraversableIsValid(grid, x, y);
    CentreCounted(grid, x, y);
    NeighbourTotalUniform(grid, m, v, x, y, 9);
  }
}
