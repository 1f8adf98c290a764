/** The grid the tactical reasoning runs on: cell references, rectangular cell
    bounds, per-cell flags, and the two-dimensional maps of values laid over
    cells (FGAGridMap). A map is an `array2<real>` whose element `[i, j]` holds
    the value of cell (minX + i, minY + j) of its bounds. */
module Grid {

  /** A world-space point or direction. */
  datatype Vec3 = Vec3(x: real, y: real, z: real)

  const Origin: Vec3 := Vec3(0.0, 0.0, 0.0)

  /** A cell reference; `Invalid` is the distinguished "no cell". */
  datatype CellRef = Cell(x: int, y: int) | Invalid

  /** The per-cell flag set (ECellData); only the traversable bit is named here. */
  type CellData = bv8

  const CellDataNone: CellData := 0
  const CellDataTraversable: CellData := 1

  /** EnumHasAllFlags. */
  predicate HasAllFlags(data: CellData, flags: CellData)
  {
    data & flags == flags
  }

  /** An inclusive rectangle of cells (FGridBox / FIntRect). */
  datatype GridBox = GridBox(minX: int, minY: int, maxX: int, maxY: int)
  {
    function Width(): nat
    {
      if maxX < minX then 0 else maxX - minX + 1
    }

    function Height(): nat
    {
      if maxY < minY then 0 else maxY - minY + 1
    }

    predicate Contains(x: int, y: int)
    {
      minX <= x <= maxX && minY <= y <= maxY
    }
  }

  /** An axis-aligned world-space rectangle (FBox2D). */
  datatype WorldBox = WorldBox(minX: real, minY: real, maxX: real, maxY: real)

  /** The grid actor, reduced to what the core consults: its extent, the flags
      of each cell (`cells[x][y]`), and the cell <-> world conversions, which are
      engine calls and stand here as oracles. */
  datatype Grid = Grid(
    xCount: nat,
    yCount: nat,
    cells: seq<seq<CellData>>,
    cellPosition: (int, int) -> Vec3,
    cellRefOf: Vec3 -> CellRef)
  {
    predicate IsValidCell(x: int, y: int)
    {
      0 <= x < xCount && 0 <= y < yCount
    }

    /** The flags of a cell; a cell outside the grid has no flags. */
    function GetCellData(x: int, y: int): (d: CellData)
      ensures !IsValidCell(x, y) ==> d == CellDataNone
    {
      if IsValidCell(x, y) && x < |cells| && y < |cells[x]| then cells[x][y] else CellDataNone
    }

    /** The test used when scoring cells: the traversable bit is set. */
    predicate Traversable(x: int, y: int)
    {
      HasAllFlags(GetCellData(x, y), CellDataTraversable)
    }

    /** The test used when diffusing belief: the flags are exactly
        "traversable", no other bit. */
    predicate OnlyTraversable(x: int, y: int)
    {
      GetCellData(x, y) == CellDataTraversable
    }

    function GetCellRef(p: Vec3): CellRef
    {
      cellRefOf(p)
    }

    function GetCellPosition(x: int, y: int): Vec3
    {
      cellPosition(x, y)
    }
  }

  /** Every cell that is exactly traversable lies inside the grid, so reading
      its value from a full-grid map is in bounds. */
  lemma OnlyTraversableIsValid(grid: Grid, x: int, y: int)
    requires grid.OnlyTraversable(x, y)
    ensures grid.IsValidCell(x, y)
  {
  }

  /** (x1, y1) is visited before (x2, y2) by a scan with Y outer and X inner. */
  predicate RowMajorBefore(x1: int, y1: int, x2: int, y2: int)
  {
    y1 < y2 || (y1 == y2 && x1 < x2)
  }

  /** (x1, y1) is visited before (x2, y2) by a scan with X outer and Y inner. */
  predicate ColumnMajorBefore(x1: int, y1: int, x2: int, y2: int)
  {
    x1 < x2 || (x1 == x2 && y1 < y2)
  }

  /** `m` is a w-by-h rectangle of values. */
  ghost predicate IsRect<T>(m: seq<seq<T>>, w: nat, h: nat)
  {
    |m| == w && forall i :: 0 <= i < w ==> |m[i]| == h
  }

  /** Two rectangles with the same values everywhere are the same. */
  lemma SameRect<T>(a: seq<seq<T>>, b: seq<seq<T>>, w: nat, h: nat)
    requires IsRect(a, w, h) && IsRect(b, w, h)
    requires forall i, j :: 0 <= i < w && 0 <= j < h ==> a[i][j] == b[i][j]
    ensures a == b
  {
    forall i | 0 <= i < w
      ensures a[i] == b[i]
    {
      assert forall j :: 0 <= j < h ==> a[i][j] == b[i][j];
    }
  }

  /** The values of a map as a value, for stating what a method did to it. */
  ghost function Snapshot<T>(a: array2<T>): (s: seq<seq<T>>)
    reads a
    ensures IsRect(s, a.Length0, a.Length1)
    ensures forall i, j :: 0 <= i < a.Length0 && 0 <= j < a.Length1 ==> s[i][j] == a[i, j]
  {
    seq(a.Length0, i requires 0 <= i < a.Length0 reads a =>
      seq(a.Length1, j requires 0 <= j < a.Length1 reads a => a[i, j]))
  }

  /** FGAGridMap::GetMaxValue: the largest value held by a non-empty map.
      An empty map has no maximum. */
  method GetMaxValue(a: array2<real>) returns (found: bool, m: real)
    ensures found <==> a.Length0 > 0 && a.Length1 > 0
    ensures found ==> exists i, j :: 0 <= i < a.Length0 && 0 <= j < a.Length1 && a[i, j] == m
    ensures found ==> forall i, j :: 0 <= i < a.Length0 && 0 <= j < a.Length1 ==> a[i, j] <= m
  {
    found := a.Length0 > 0 && a.Length1 > 0;
    m := 0.0;
    if !found {
      return;
    }
    m := a[0, 0];
    ghost var wi, wj := 0, 0;
    var i := 0;
    while i < a.Length0
      invariant 0 <= i <= a.Length0
      invariant 0 <= wi < a.Length0 && 0 <= wj < a.Length1 && a[wi, wj] == m
      invariant forall i', j' :: 0 <= i' < i && 0 <= j' < a.Length1 ==> a[i', j'] <= m
    {
      var j := 0;
      while j < a.Length1
        invariant 0 <= j <= a.Length1
        invariant 0 <= wi < a.Length0 && 0 <= wj < a.Length1 && a[wi, wj] == m
        invariant forall i', j' :: 0 <= i' < i && 0 <= j' < a.Length1 ==> a[i', j'] <= m
        invariant forall j' :: 0 <= j' < j ==> a[i, j'] <= m
      {
        if a[i, j] > m {
          m := a[i, j];
          wi, wj := i, j;
        }
        j := j + 1;
      }
      i := i + 1;
    }
  }
}
