/**
 * The raster at the centre of the program: a dense grid of cells with a cell
 * size and the coordinates of its west and south borders. Rows are counted
 * from north to south, so row 0 is the northern edge.
 */
module Grids {
  import opened Wrappers
  import opened Cells

  /** Cells in row-major order: `m[row][col]`. */
  type Raster = seq<seq<Cell>>

  predicate IsRaster(m: Raster, cols: int, rows: int) {
    |m| == rows && forall r :: 0 <= r < rows ==> |m[r]| == cols
  }

  /** The value held by a grid object: what a copy of it reproduces. */
  datatype GridValue = GridValue(cellSize: real, west: real, south: real, cells: Raster)
  {
    function Rows(): int { |cells| }

    function Cols(): int { if |cells| == 0 then 0 else |cells[0]| }

    /** What every constructed grid satisfies. */
    predicate Valid() {
      Rows() >= 3 && Cols() >= 3 && IsRaster(cells, Cols(), Rows()) && cellSize > 0.0
    }

    predicate SameShape(other: GridValue) {
      Cols() == other.Cols() && Rows() == other.Rows() && cellSize == other.cellSize
    }
  }

  /** The cells of a two-dimensional array, `a[row, col]`, as a raster. */
  function RasterOf(a: array2<Cell>): (m: Raster)
    reads a
    ensures IsRaster(m, a.Length1, a.Length0)
    ensures forall r, c :: 0 <= r < a.Length0 && 0 <= c < a.Length1 ==> m[r][c] == a[r, c]
  {
    seq(a.Length0, (r: int) requires 0 <= r < a.Length0 reads a => RowOf(a, r))
  }

  /** Row r of `a`. */
  function RowOf(a: array2<Cell>, r: int): (row: seq<Cell>)
    reads a
    requires 0 <= r < a.Length0
    ensures |row| == a.Length1 && forall c :: 0 <= c < a.Length1 ==> row[c] == a[r, c]
  {
    seq(a.Length1, (c: int) requires 0 <= c < a.Length1 reads a => a[r, c])
  }

  /** An array whose cells agree with a raster of its shape has that raster as its cells. */
  lemma RasterOfEq(a: array2<Cell>, m: Raster)
    requires IsRaster(m, a.Length1, a.Length0)
    requires forall r, c :: 0 <= r < a.Length0 && 0 <= c < a.Length1 ==> a[r, c] == m[r][c]
    ensures RasterOf(a) == m
  {
    var ma := RasterOf(a);
    forall r | 0 <= r < a.Length0
      ensures ma[r] == m[r]
    {
      assert forall c :: 0 <= c < a.Length1 ==> ma[r][c] == m[r][c];
    }
  }

  /** True when no cell of `m` is void. */
  predicate VoidFree(m: Raster) {
    forall r, c :: 0 <= r < |m| && 0 <= c < |m[r]| ==> m[r][c].Val?
  }

  /**
   * The checks of the constructors `Grid(cols, rows)` and
   * `Grid(cols, rows, cellSize)`: the dimension check runs first.
   */
  function ConstructorCheck(cols: int, rows: int, cellSize: real): (err: Option<Failure>)
    ensures err.None? <==> cols >= 3 && rows >= 3 && cellSize > 0.0
    ensures (cols < 3 || rows < 3) ==> err == Some(IllegalArgument("Not enough data points."))
    ensures cols >= 3 && rows >= 3 && cellSize <= 0.0 ==> err == Some(IllegalArgument("Negative cell size"))
  {
    if cols < 3 || rows < 3 then Some(IllegalArgument("Not enough data points."))
    else if cellSize <= 0.0 then Some(IllegalArgument("Negative cell size"))
    else None
  }

  /** The bilinear blend of the four corner values of a grid window. */
  function Bilinear(h1: Cell, h2: Cell, h3: Cell, h4: Cell, relX: real, relY: real): (v: Cell)
    ensures v.Val? <==> h1.Val? && h2.Val? && h3.Val? && h4.Val?
    ensures v.Val? && relX == 0.0 && relY == 1.0 ==> v == h3
    ensures v.Val? && relX == 0.0 && relY == 0.0 ==> v == h1
  {
    if h1.Val? && h2.Val? && h3.Val? && h4.Val? then
      Val(h1.r + (h2.r - h1.r) * relX + (h3.r - h1.r) * relY
          + (h1.r - h2.r - h3.r + h4.r) * relX * relY)
    else Void
  }

  /** The slope formula of getSlope and getSlopeInsideGrid on a 3x3 neighbourhood. */
  function SlopeOf(a: Cell, b: Cell, c: Cell, d: Cell, f: Cell, g: Cell, h: Cell, i: Cell,
                   cellSize: real, sqrt: real -> real): (s: Cell)
    requires cellSize > 0.0
    ensures s.Val? <==> a.Val? && b.Val? && c.Val? && d.Val? && f.Val? && g.Val? && h.Val? && i.Val?
  {
    if a.Val? && b.Val? && c.Val? && d.Val? && f.Val? && g.Val? && h.Val? && i.Val? then
      var dZdX := ((c.r + 2.0 * f.r + i.r) - (a.r + 2.0 * d.r + g.r)) / (8.0 * cellSize);
      var dZdY := ((g.r + 2.0 * h.r + i.r) - (a.r + 2.0 * b.r + c.r)) / (8.0 * cellSize);
      Val(sqrt(dZdX * dZdX + dZdY * dZdY))
    else Void
  }

  /** The neighbour index before `i`, clamped at the first index. */
  function ClampPrev(i: int): (j: int)
    requires i >= 0
    ensures 0 <= j <= i && (i > 0 ==> j == i - 1)
  {
    if i > 0 then i - 1 else 0
  }

  /** The neighbour index after `i`, clamped at the last index `n - 1`. */
  function ClampNext(i: int, n: int): (j: int)
    requires 0 <= i < n
    ensures i <= j < n && (i < n - 1 ==> j == i + 1)
  {
    if i < n - 1 then i + 1 else n - 1
  }

  class Grid {
    /** The distance between two neighbouring columns or rows. */
    const cellSize: real
    /** Horizontal coordinate of the west border. */
    var west: real
    /** Vertical coordinate of the south border. */
    var south: real
    /** The cells, `data[row, col]`. */
    const data: array2<Cell>

    ghost predicate Valid()
      reads this
    {
      data.Length0 >= 3 && data.Length1 >= 3 && cellSize > 0.0
    }

    function Cols(): int
      reads this
    {
      data.Length1
    }

    function Rows(): int
      reads this
    {
      data.Length0
    }

    function Value(col: int, row: int): Cell
      reads this, data
      requires 0 <= col < Cols() && 0 <= row < Rows()
    {
      data[row, col]
    }

    /** The cells as a row-major raster. */
    function Cells(): (m: Raster)
      reads this, data
      ensures IsRaster(m, Cols(), Rows())
      ensures forall r, c :: 0 <= r < Rows() && 0 <= c < Cols() ==> m[r][c] == data[r, c]
    {
      RasterOf(data)
    }

    /** Everything a copy of this grid reproduces. */
    function Snapshot(): (v: GridValue)
      reads this, data
      ensures v.cellSize == cellSize && v.west == west && v.south == south && v.cells == Cells()
      ensures Valid() ==> v.Valid() && v.Cols() == Cols() && v.Rows() == Rows()
    {
      GridValue(cellSize, west, south, Cells())
    }

    /** Allocation of a grid whose constructor checks have passed; cells start at 0. */
    constructor (cols: int, rows: int, cellSize: real)
      requires cols >= 3 && rows >= 3 && cellSize > 0.0
      ensures Valid() && Cols() == cols && Rows() == rows
      ensures this.cellSize == cellSize && west == 0.0 && south == 0.0
      ensures fresh(data)
      ensures forall r, c :: 0 <= r < rows && 0 <= c < cols ==> data[r, c] == Val(0.0)
    {
      this.cellSize := cellSize;
      west := 0.0;
      south := 0.0;
      data := new Cell[rows, cols]((_, _) => Val(0.0));
    }

    /** `Grid(cols, rows, cellSize)`, which throws when a check fails. */
    static method Create(cols: int, rows: int, cellSize: real) returns (r: Result<Grid, Failure>)
      ensures r.Failure? <==> ConstructorCheck(cols, rows, cellSize).Some?
      ensures r.Failure? ==> r.error == ConstructorCheck(cols, rows, cellSize).value
      ensures r.Success? ==> fresh(r.value) && fresh(r.value.data) && r.value.Valid()
      ensures r.Success? ==> r.value.Cols() == cols && r.value.Rows() == rows
      ensures r.Success? ==> r.value.cellSize == cellSize && r.value.west == 0.0 && r.value.south == 0.0
      ensures r.Success? ==> forall row, col :: 0 <= row < rows && 0 <= col < cols ==> r.value.data[row, col] == Val(0.0)
    {
      var err := ConstructorCheck(cols, rows, cellSize);
      if err.Some? {
        return Failure(err.value);
      }
      var g := new Grid(cols, rows, cellSize);
      return Success(g);
    }

    /** `Grid(cols, rows)`: the same checks, with cell size 1. */
    static method CreateUnit(cols: int, rows: int) returns (r: Result<Grid, Failure>)
      ensures r.Failure? <==> cols < 3 || rows < 3
      ensures r.Failure? ==> r.error == IllegalArgument("Not enough data points.")
      ensures r.Success? ==> fresh(r.value) && fresh(r.value.data) && r.value.Valid()
      ensures r.Success? ==> r.value.Cols() == cols && r.value.Rows() == rows && r.value.cellSize == 1.0
      ensures r.Success? ==> r.value.west == 0.0 && r.value.south == 0.0
      ensures r.Success? ==> forall row, col :: 0 <= row < rows && 0 <= col < cols ==> r.value.data[row, col] == Val(0.0)
    {
      r := Create(cols, rows, 1.0);
    }

    /** The copy constructor `Grid(Grid template)`: a deep copy, row by row. */
    constructor Copy(template: Grid)
      requires template.Valid()
      ensures Valid()
      ensures Snapshot() == template.Snapshot()
      ensures fresh(data)
    {
      cellSize := template.cellSize;
      west := template.west;
      south := template.south;
      data := new Cell[template.Rows(), template.Cols()]((_, _) => Val(0.0));
      new;
      var nRows := template.Rows();
      var nCols := template.Cols();
      for row := 0 to nRows
        invariant west == template.west && south == template.south
        invariant forall r, c :: 0 <= r < row && 0 <= c < nCols ==> data[r, c] == template.data[r, c]
      {
        // System.arraycopy of one row
        for col := 0 to nCols
          invariant west == template.west && south == template.south
          invariant forall r, c :: 0 <= r < row && 0 <= c < nCols ==> data[r, c] == template.data[r, c]
          invariant forall c :: 0 <= c < col ==> data[row, c] == template.data[row, c]
        {
          data[row, col] := template.data[row, col];
        }
      }
      RasterOfEq(data, template.Cells());
    }

    /** A grid holding the value `v`, as a grid operator outside the model would produce it. */
    constructor FromValue(v: GridValue)
      requires v.Valid()
      ensures Valid() && Snapshot() == v
      ensures fresh(data)
    {
      cellSize := v.cellSize;
      west := v.west;
      south := v.south;
      data := new Cell[v.Rows(), v.Cols()]((r, c) requires 0 <= r < v.Rows() && 0 <= c < v.Cols() => v.cells[r][c]);
      new;
      RasterOfEq(data, v.cells);
    }

    /** `setValue`: one cell changes, every other cell keeps its value. */
    method SetValue(value: Cell, col: int, row: int)
      requires 0 <= col < Cols() && 0 <= row < Rows()
      modifies data
      ensures data[row, col] == value
      ensures forall r, c :: 0 <= r < Rows() && 0 <= c < Cols() && (r != row || c != col) ==>
        data[r, c] == old(data[r, c])
    {
      data[row, col] := value;
    }

    /** The northern border. */
    function North(): (n: real)
      reads this
      ensures Valid() ==> n > south
    {
      south + (Rows() - 1) as real * cellSize
    }

    /** `isWellFormed`: every constructed grid is well formed (reals have no NaN). */
    function IsWellFormed(): (b: bool)
      reads this
      ensures Valid() ==> b
    {
      Cols() > 0 && Rows() > 0 && cellSize > 0.0
    }

    /** `isIdenticalInSize`: same number of columns and rows and the same cell size. */
    function IsIdenticalInSize(grid: Grid?): (b: bool)
      reads this, grid
      ensures b ==> grid != null
      ensures grid == this ==> b
      ensures Valid() && grid != null && grid.Valid() ==> (b <==> Snapshot().SameShape(grid.Snapshot()))
    {
      grid != null && Cols() == grid.Cols() && Rows() == grid.Rows() && cellSize == grid.cellSize
    }

    /** The column of the top left corner of the interpolation window at x. */
    function WindowCol(x: real): int
      reads this
      requires Valid()
    {
      Trunc((x - west) / cellSize)
    }

    /** The row of the top left corner of the interpolation window at y. */
    function WindowRow(y: real): int
      reads this
      requires Valid()
    {
      Trunc((North() - y) / cellSize)
    }

    predicate InWindow(x: real, y: real)
      reads this
      requires Valid()
    {
      0 <= WindowCol(x) && WindowCol(x) + 1 < Cols() && 0 <= WindowRow(y) && WindowRow(y) + 1 < Rows()
    }

    /** `getBilinearInterpol`: void outside the grid, otherwise a blend of four cells. */
    function BilinearInterpol(x: real, y: real): (v: Cell)
      reads this, data
      requires Valid()
      ensures !InWindow(x, y) ==> v == Void
      ensures InWindow(x, y) ==> (v.Val? <==>
        data[WindowRow(y) + 1, WindowCol(x)].Val? && data[WindowRow(y) + 1, WindowCol(x) + 1].Val? &&
        data[WindowRow(y), WindowCol(x)].Val? && data[WindowRow(y), WindowCol(x) + 1].Val?)
    {
      var col := WindowCol(x);
      var row := WindowRow(y);
      if col < 0 || col + 1 >= Cols() || row < 0 || row + 1 >= Rows() then Void
      else
        Bilinear(data[row + 1, col], data[row + 1, col + 1], data[row, col], data[row, col + 1], RelX(x), RelY(y))
    }

    /** Horizontal position inside the window, 0 at its west edge. */
    function RelX(x: real): real
      reads this
      requires Valid()
    {
      (x - west) / cellSize - WindowCol(x) as real
    }

    /** Vertical position inside the window, 0 at its south edge. */
    function RelY(y: real): real
      reads this
      requires Valid()
    {
      (y - south) / cellSize - Rows() as real + WindowRow(y) as real + 2.0
    }

    /** `getMinMax`: NaN comparisons are false, so void cells are skipped. */
    method GetMinMax() returns (min: real, max: real)
      requires Valid()
      ensures forall r, c :: 0 <= r < Rows() && 0 <= c < Cols() && data[r, c].Val? ==> min <= data[r, c].r <= max
      ensures min <= FloatMax && -FloatMax <= max
      ensures min == FloatMax || exists r, c :: 0 <= r < Rows() && 0 <= c < Cols() && data[r, c] == Val(min)
      ensures max == -FloatMax || exists r, c :: 0 <= r < Rows() && 0 <= c < Cols() && data[r, c] == Val(max)
      ensures (forall r, c :: 0 <= r < Rows() && 0 <= c < Cols() ==> data[r, c] == Void) ==>
        min == FloatMax && max == -FloatMax
    {
      min := FloatMax;
      max := -FloatMax;
      var rows := Rows();
      var cols := Cols();
      for r := 0 to rows
        invariant forall r', c' :: 0 <= r' < r && 0 <= c' < cols && data[r', c'].Val? ==> min <= data[r', c'].r <= max
        invariant min <= FloatMax && -FloatMax <= max
        invariant min == FloatMax || exists r', c' :: 0 <= r' < rows && 0 <= c' < cols && data[r', c'] == Val(min)
        invariant max == -FloatMax || exists r', c' :: 0 <= r' < rows && 0 <= c' < cols && data[r', c'] == Val(max)
      {
        for c := 0 to cols
          invariant forall r', c' :: 0 <= r' < r && 0 <= c' < cols && data[r', c'].Val? ==> min <= data[r', c'].r <= max
          invariant forall c' :: 0 <= c' < c && data[r, c'].Val? ==> min <= data[r, c'].r <= max
          invariant min <= FloatMax && -FloatMax <= max
          invariant min == FloatMax || exists r', c' :: 0 <= r' < rows && 0 <= c' < cols && data[r', c'] == Val(min)
          invariant max == -FloatMax || exists r', c' :: 0 <= r' < rows && 0 <= c' < cols && data[r', c'] == Val(max)
        {
          var v := data[r, c];
          if v.Val? && v.r < min {
            min := v.r;
          }
          if v.Val? && v.r > max {
            max := v.r;
          }
        }
      }
    }

    /** `getSlopeInsideGrid`, for 1 <= col <= cols-2 and 1 <= row <= rows-2. */
    function SlopeInsideGrid(col: int, row: int, sqrt: real -> real): (s: Cell)
      reads this, data
      requires Valid() && 1 <= col < Cols() - 1 && 1 <= row < Rows() - 1
    {
      SlopeOf(data[row - 1, col - 1], data[row - 1, col], data[row - 1, col + 1], data[row, col - 1],
              data[row, col + 1], data[row + 1, col - 1], data[row + 1, col], data[row + 1, col + 1],
              cellSize, sqrt)
    }

    /** `getSlope`: the same formula with every neighbour index clamped into the grid. */
    function Slope(col: int, row: int, sqrt: real -> real): (s: Cell)
      reads this, data
      requires Valid() && 0 <= col < Cols() && 0 <= row < Rows()
      ensures 1 <= col < Cols() - 1 && 1 <= row < Rows() - 1 ==> s == SlopeInsideGrid(col, row, sqrt)
    {
      var colLeft := ClampPrev(col);
      var colRight := ClampNext(col, Cols());
      var rowTop := ClampPrev(row);
      var rowBottom := ClampNext(row, Rows());
      SlopeOf(data[rowTop, colLeft], data[rowTop, col], data[rowTop, colRight], data[row, colLeft],
              data[row, colRight], data[rowBottom, colLeft], data[rowBottom, col], data[rowBottom, colRight],
              cellSize, sqrt)
    }

    /** `getAspect(col, row)`: atan2 of the north-south and east-west differences. */
    function Aspect(col: int, row: int, atan2: (real, real) -> real): (a: Cell)
      reads this, data
      requires 1 <= col < Cols() - 1 && 1 <= row < Rows() - 1
      ensures a.Val? <==> data[row, col - 1].Val? && data[row, col + 1].Val? && data[row + 1, col].Val? && data[row - 1, col].Val?
    {
      var w := data[row, col - 1];
      var e := data[row, col + 1];
      var s := data[row + 1, col];
      var n := data[row - 1, col];
      if w.Val? && e.Val? && s.Val? && n.Val? then Val(atan2(n.r - s.r, e.r - w.r)) else Void
    }
  }

  /** isIdenticalInSize is symmetric. */
  lemma IdenticalInSizeSymmetric(a: Grid, b: Grid)
    ensures a.IsIdenticalInSize(b) == b.IsIdenticalInSize(a)
  {
  }

  /**
   * At a grid node (x = west + col*cellSize, y = north - row*cellSize) the
   * interpolation weights are relX = 0 and relY = 1, so the result is that
   * node's value when the window holds no void.
   */
  lemma {:induction false} BilinearAtNode(g: Grid, col: int, row: int)
    requires g.Valid()
    requires 0 <= col < g.Cols() - 1 && 0 <= row < g.Rows() - 1
    ensures var x, y := g.west + col as real * g.cellSize, g.North() - row as real * g.cellSize;
      g.InWindow(x, y) && g.WindowCol(x) == col && g.WindowRow(y) == row &&
      g.BilinearInterpol(x, y) == (if g.data[row + 1, col].Val? && g.data[row + 1, col + 1].Val? &&
                                       g.data[row, col].Val? && g.data[row, col + 1].Val?
                                    then g.data[row, col] else Void)
  {
    var x := g.west + col as real * g.cellSize;
    var y := g.North() - row as real * g.cellSize;
    NodeColumn(g, col, x);
    NodeRow(g, row, y);
  }

  lemma {:induction false} NodeColumn(g: Grid, col: int, x: real)
    requires g.Valid()
    requires x == g.west + col as real * g.cellSize
    ensures g.WindowCol(x) == col && g.RelX(x) == 0.0
  {
    DivideMultiple(col as real, g.cellSize);
    assert (x - g.west) / g.cellSize == col as real;
    TruncOfInt(col);
  }

  lemma {:induction false} NodeRow(g: Grid, row: int, y: real)
    requires g.Valid()
    requires y == g.North() - row as real * g.cellSize
    ensures g.WindowRow(y) == row && g.RelY(y) == 1.0
  {
    var cs := g.cellSize;
    DivideMultiple(row as real, cs);
    assert (g.North() - y) / cs == row as real;
    TruncOfInt(row);
    var k := g.Rows() - 1 - row;
    assert y - g.south == k as real * cs;
    DivideMultiple(k as real, cs);
    assert (y - g.south) / cs == k as real;
  }

  lemma TruncOfInt(n: int)
    ensures Trunc(n as real) == n
  {
  }

  lemma DivideMultiple(a: real, cs: real)
    requires cs > 0.0
    ensures (a * cs) / cs == a
  {
  }

  /**
   * The window index is an int cast, which truncates toward zero: a point
   * less than one cell west of the grid still falls into column 0.
   */
  lemma {:induction false} BilinearTruncatesTowardZero(g: Grid, x: real)
    requires g.Valid()
    requires g.west - g.cellSize < x < g.west
    ensures g.WindowCol(x) == 0
  {
    var dx := (x - g.west) / g.cellSize;
    assert dx * g.cellSize == x - g.west;
    assert -1.0 < dx < 0.0 by {
      if dx <= -1.0 {
        MulLeq(dx, -1.0, g.cellSize);
      }
    }
  }

  /** Column c of row r of a rows x cols grid lies inside its row-major order. */
  lemma RowMajorInRange(r: int, c: int, cols: int, rows: int)
    requires 0 <= r < rows && 0 <= c < cols
    ensures 0 <= r * cols + c < rows * cols
  {
    assert r * cols <= (rows - 1) * cols by { IntMulLeq(r, rows - 1, cols); }
    assert (rows - 1) * cols == rows * cols - cols;
  }

  /** Multiplying by a non-negative integer keeps the order. */
  lemma IntMulLeq(a: int, b: int, n: int)
    requires a <= b && n >= 0
    ensures a * n <= b * n
  {
    assert b * n - a * n == (b - a) * n;
  }

  /** Row-major positions are unique: column c of row r is value k exactly when r = k / cols and c = k % cols. */
  lemma RowMajorUnique(k: int, cols: int, r: int, c: int)
    requires cols > 0 && 0 <= c < cols && r * cols + c == k
    ensures r == k / cols && c == k % cols
  {
    var q, m := k / cols, k % cols;
    assert k == q * cols + m;
    if r > q {
      IntMulLeq(q + 1, r, cols);
      assert false;
    } else if r < q {
      IntMulLeq(r + 1, q, cols);
      assert false;
    }
  }

  /** Value k of a grid with rows * cols cells lies in column k % cols of row k / cols. */
  lemma PositionInRange(k: int, cols: int, rows: int)
    requires cols > 0 && 0 <= k < rows * cols
    ensures 0 <= k / cols < rows && 0 <= k % cols < cols
  {
    var q := k / cols;
    assert k == q * cols + k % cols;
    if q >= rows {
      IntMulLeq(rows, q, cols);
    }
  }
}
