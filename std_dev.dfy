/**
 * The local standard-deviation operator: every output cell is the root mean
 * square of the high-pass band of a Laplacian pyramid over a square window
 * of 16 * levels + 1 cells, computed in 32-bit arithmetic. Cells closer to
 * the edge than half a window use a border rule that skips neighbours
 * outside the grid and neighbours whose source cell is void; interior cells
 * sum the whole window without a test.
 */
module GridStandardDeviationOperators {
  import opened Wrappers
  import opened Cells
  import opened Grids

  /** FILTER_SIZE_SCALE: window cells per pyramid level. */
  const FilterSizeScale: int := 16

  /**
   * `filterSize()`: the window's side, `levels * 16 + 1` in 32-bit `int`
   * arithmetic. It is always odd; it grows with `levels` only while the
   * product fits, and wraps around for larger level counts.
   */
  function FilterSize(levels: int): (fs: int)
    ensures fs % 2 == 1 && IntMin <= fs <= IntMax
    ensures -0x800_0000 <= levels < 0x800_0000 ==> fs == levels * FilterSizeScale + 1 && (levels >= 0 <==> fs >= 1)
  {
    ParityShift(1, levels * 8);
    Wrap32(levels * FilterSizeScale + 1)
  }

  /** From 2^27 levels on the product wraps: at 2^28 levels the window is a single cell. */
  lemma FilterSizeWraps()
    ensures FilterSize(0x800_0000) == IntMin + 1
    ensures FilterSize(0x1000_0000) == 1
  {
  }

  /** `filterSize / 2` with Java's division, which truncates toward zero. */
  function HalfFilterSize(levels: int): (h: int)
    ensures FilterSize(levels) >= 0 ==> FilterSize(levels) == 2 * h + 1 && h >= 0
    ensures FilterSize(levels) < 0 ==> FilterSize(levels) == 2 * h - 1 && h < 0
    ensures 0 <= levels < 0x800_0000 ==> h == 8 * levels
  {
    var fs := FilterSize(levels);
    if fs >= 0 then fs / 2 else -((-fs) / 2)
  }

  /** The weights that select the high-pass band: 1 for the first `levels` pyramid levels, 0 after. */
  function HighPassWeights(levels: int, levelCount: nat): (w: seq<real>)
    ensures |w| == levelCount
  {
    seq(levelCount, i => if i < levels then 1.0 else 0.0)
  }

  /**
   * The weights loop of `operate`: constant weights 0, then 1 for every
   * index below min(levels, levelCount).
   */
  method CreateHighPassWeights(levels: int, levelCount: nat) returns (weights: array<real>)
    ensures fresh(weights) && weights.Length == levelCount
    ensures forall i :: 0 <= i < levelCount ==> weights[i] == (if i < levels then 1.0 else 0.0)
    ensures weights[..] == HighPassWeights(levels, levelCount)
  {
    weights := new real[levelCount](_ => 0.0);
    var n := if levels < levelCount then levels else levelCount;
    var i := 0;
    while i < n
      invariant 0 <= i <= levelCount && (n >= 0 ==> i <= n) && (n < 0 ==> i == 0)
      invariant forall j :: 0 <= j < i ==> weights[j] == 1.0
      invariant forall j :: i <= j < levelCount ==> weights[j] == 0.0
    {
      weights[i] := 1.0;
      i := i + 1;
    }
  }

  /** `dif * dif`. */
  function Square(d: Cell): (s: Cell)
    ensures s.Val? <==> d.Val?
    ensures s.Val? ==> s.r >= 0.0
  {
    Mul(d, d)
  }

  /** Every cell of row `r` of `hp` in columns [cLo, cHi) has a value. */
  ghost predicate RowDefined(hp: Raster, r: int, cLo: int, cHi: int)
    requires 0 <= r < |hp| && 0 <= cLo && cHi <= |hp[r]|
  {
    forall c :: cLo <= c < cHi ==> hp[r][c].Val?
  }

  /**
   * `sqDif` after adding, to `acc`, the squares of the cells of row `r` in
   * columns [cLo, cHi), from left to right. Void poisons the sum, and a sum
   * of squares started from a non-negative value stays non-negative.
   */
  function RowSquares(acc: Cell, hp: Raster, r: int, cLo: int, cHi: int): (s: Cell)
    requires 0 <= r < |hp| && 0 <= cLo && cHi <= |hp[r]|
    ensures s.Val? <==> acc.Val? && RowDefined(hp, r, cLo, cHi)
    ensures s.Val? && acc.r >= 0.0 ==> s.r >= 0.0
    decreases cHi - cLo
  {
    if cHi <= cLo then acc
    else Add(RowSquares(acc, hp, r, cLo, cHi - 1), Square(hp[r][cHi - 1]))
  }

  /** Every cell of the window rows [rLo, rHi) x columns [cLo, cHi) of `hp` has a value. */
  ghost predicate WindowDefined(hp: Raster, cols: int, rLo: int, rHi: int, cLo: int, cHi: int)
    requires IsRaster(hp, cols, |hp|) && 0 <= rLo && rHi <= |hp| && 0 <= cLo && cHi <= cols
  {
    forall r, c :: rLo <= r < rHi && cLo <= c < cHi ==> hp[r][c].Val?
  }

  /**
   * The interior sum: the squares of every cell of the window rows
   * [rLo, rHi) x columns [cLo, cHi), row by row, with no void test. It has a
   * value exactly when every cell of the window has one, and it is never
   * negative.
   */
  function WindowSquares(hp: Raster, cols: int, rLo: int, rHi: int, cLo: int, cHi: int): (s: Cell)
    requires IsRaster(hp, cols, |hp|) && 0 <= rLo && rHi <= |hp| && 0 <= cLo && cHi <= cols
    ensures s.Val? <==> WindowDefined(hp, cols, rLo, rHi, cLo, cHi)
    ensures s.Val? ==> s.r >= 0.0
    decreases rHi - rLo
  {
    if rHi <= rLo then Val(0.0)
    else
      var above := WindowSquares(hp, cols, rLo, rHi - 1, cLo, cHi);
      var s := RowSquares(above, hp, rHi - 1, cLo, cHi);
      assert s.Val? <==> above.Val? && RowDefined(hp, rHi - 1, cLo, cHi);
      s
  }

  /** The border rule's test for neighbour (r, c): inside the grid but not in row 0 or column 0, with a source value. */
  predicate Counted(m: Raster, cols: int, r: int, c: int)
    requires IsRaster(m, cols, |m|)
  {
    0 < r < |m| && 0 < c < cols && m[r][c].Val?
  }

  /** One row of `operateBorder`'s window: the squares of the counted neighbours in columns [cLo, cHi). */
  function BorderRowSquares(acc: Cell, m: Raster, hp: Raster, cols: int, r: int, cLo: int, cHi: int): (s: Cell)
    requires IsRaster(m, cols, |m|) && IsRaster(hp, cols, |m|) && 0 <= r < |m|
    ensures s.Val? ==> acc.Val?
    ensures s.Val? && acc.r >= 0.0 ==> s.r >= 0.0
    decreases cHi - cLo
  {
    if cHi <= cLo then acc
    else
      var sum := BorderRowSquares(acc, m, hp, cols, r, cLo, cHi - 1);
      if Counted(m, cols, r, cHi - 1) then Add(sum, Square(hp[r][cHi - 1])) else sum
  }

  /** `operateBorder`'s sum over the window rows [rLo, rHi) x columns [cLo, cHi), never negative. */
  function BorderWindowSquares(m: Raster, hp: Raster, cols: int, rLo: int, rHi: int, cLo: int, cHi: int): (s: Cell)
    requires IsRaster(m, cols, |m|) && IsRaster(hp, cols, |m|)
    ensures s.Val? ==> s.r >= 0.0
    decreases rHi - rLo
  {
    if rHi <= rLo then Val(0.0)
    else
      var sum := BorderWindowSquares(m, hp, cols, rLo, rHi - 1, cLo, cHi);
      if 0 < rHi - 1 < |m| then BorderRowSquares(sum, m, hp, cols, rHi - 1, cLo, cHi) else sum
  }

  /**
   * `(float) Math.sqrt(sqDif / npts)` with npts = filterSize * filterSize:
   * the root of the mean square over the whole window, void when the sum is.
   */
  function Deviation(sqDif: Cell, filterSize: int, sqrt: real -> real): (d: Cell)
    requires filterSize % 2 == 1
    ensures d.Val? <==> sqDif.Val?
    ensures d.Val? ==> d.r == sqrt(sqDif.r / WindowCells(filterSize) as real)
  {
    if sqDif.Val? then Val(sqrt(sqDif.r / WindowCells(filterSize) as real)) else Void
  }

  /**
   * `npts = filterSize * filterSize` in 32-bit `int` arithmetic: the number
   * of window cells while the square fits, and never 0, since the square of
   * an odd number is odd.
   */
  function WindowCells(filterSize: int): (npts: int)
    requires filterSize % 2 == 1
    ensures npts % 2 == 1 && npts != 0
    ensures -46340 <= filterSize <= 46340 ==> npts == filterSize * filterSize
  {
    OddSquare(filterSize);
    assert -46340 <= filterSize <= 46340 ==> 0 <= filterSize * filterSize <= IntMax by {
      if -46340 <= filterSize <= 46340 {
        SquareBound(filterSize);
      }
    }
    Wrap32(filterSize * filterSize)
  }

  lemma OddSquare(x: int)
    requires x % 2 == 1
    ensures (x * x) % 2 == 1
  {
    var k := (x - 1) / 2;
    assert x == 2 * k + 1;
    assert x * x == 2 * (x * k) + x;
    ParityShift(x, x * k);
  }

  lemma SquareBound(x: int)
    requires -46340 <= x <= 46340
    ensures 0 <= x * x <= IntMax
  {
    var a := if x < 0 then -x else x;
    assert x * x == a * a;
    IntMulLeq(a, 46340, a);
    IntMulLeq(a, 46340, 46340);
    assert a * 46340 == 46340 * a;
  }

  /** Within one row, a window whose columns are all counted gives the interior sum. */
  lemma {:induction false} BorderRowAgrees(acc: Cell, m: Raster, hp: Raster, cols: int, r: int, cLo: int, cHi: int)
    requires IsRaster(m, cols, |m|) && IsRaster(hp, cols, |m|) && 0 <= r < |m| && 0 <= cLo && cHi <= cols
    requires forall c :: cLo <= c < cHi ==> Counted(m, cols, r, c)
    ensures BorderRowSquares(acc, m, hp, cols, r, cLo, cHi) == RowSquares(acc, hp, r, cLo, cHi)
    decreases cHi - cLo
  {
    if cLo < cHi {
      BorderRowAgrees(acc, m, hp, cols, r, cLo, cHi - 1);
    }
  }

  /**
   * The two rules agree on a window away from row 0 and column 0 whose
   * source cells all have values: there the border rule skips nothing.
   */
  lemma {:induction false} BorderAgreesWithInterior(m: Raster, hp: Raster, cols: int, rLo: int, rHi: int, cLo: int, cHi: int)
    requires IsRaster(m, cols, |m|) && IsRaster(hp, cols, |m|)
    requires 0 < rLo && rHi <= |m| && 0 < cLo && cHi <= cols
    requires forall r, c :: rLo <= r < rHi && cLo <= c < cHi ==> m[r][c].Val?
    ensures BorderWindowSquares(m, hp, cols, rLo, rHi, cLo, cHi) == WindowSquares(hp, cols, rLo, rHi, cLo, cHi)
    decreases rHi - rLo
  {
    if rLo < rHi {
      BorderAgreesWithInterior(m, hp, cols, rLo, rHi - 1, cLo, cHi);
      var above := WindowSquares(hp, cols, rLo, rHi - 1, cLo, cHi);
      BorderRowAgrees(above, m, hp, cols, rHi - 1, cLo, cHi);
    }
  }

  /** Two high-pass bands that agree on the counted neighbours give the same border row sum. */
  lemma {:induction false} BorderRowIgnores(acc: Cell, m: Raster, hp: Raster, hp': Raster, cols: int, r: int, cLo: int, cHi: int)
    requires IsRaster(m, cols, |m|) && IsRaster(hp, cols, |m|) && IsRaster(hp', cols, |m|) && 0 <= r < |m|
    requires forall c :: cLo <= c < cHi && Counted(m, cols, r, c) ==> hp[r][c] == hp'[r][c]
    ensures BorderRowSquares(acc, m, hp, cols, r, cLo, cHi) == BorderRowSquares(acc, m, hp', cols, r, cLo, cHi)
    decreases cHi - cLo
  {
    if cLo < cHi {
      BorderRowIgnores(acc, m, hp, hp', cols, r, cLo, cHi - 1);
    }
  }

  /**
   * The border rule reads the high-pass band only at counted neighbours:
   * row 0, column 0 and cells whose source is void never contribute.
   */
  lemma {:induction false} BorderIgnoresUncounted(m: Raster, hp: Raster, hp': Raster, cols: int, rLo: int, rHi: int, cLo: int, cHi: int)
    requires IsRaster(m, cols, |m|) && IsRaster(hp, cols, |m|) && IsRaster(hp', cols, |m|)
    requires forall r, c :: 0 <= r < |m| && 0 <= c < cols && Counted(m, cols, r, c) ==> hp[r][c] == hp'[r][c]
    ensures BorderWindowSquares(m, hp, cols, rLo, rHi, cLo, cHi) == BorderWindowSquares(m, hp', cols, rLo, rHi, cLo, cHi)
    decreases rHi - rLo
  {
    if rLo < rHi {
      BorderIgnoresUncounted(m, hp, hp', cols, rLo, rHi - 1, cLo, cHi);
      if 0 < rHi - 1 < |m| {
        BorderRowIgnores(BorderWindowSquares(m, hp, cols, rLo, rHi - 1, cLo, cHi), m, hp, hp', cols, rHi - 1, cLo, cHi);
      }
    }
  }

  /**
   * An output cell whose window stays off row 0 and column 0 and over
   * source values gets the same value from either rule: the border rule
   * differs only where it skips neighbours.
   */
  lemma BorderValueMatchesInterior(m: Raster, hp: Raster, cols: int, levels: int, sqrt: real -> real, row: int, col: int)
    requires IsRaster(m, cols, |m|) && IsRaster(hp, cols, |m|) && FilterSize(levels) >= 1
    requires 0 < row - HalfFilterSize(levels) && row + HalfFilterSize(levels) < |m|
    requires 0 < col - HalfFilterSize(levels) && col + HalfFilterSize(levels) < cols
    requires forall r, c :: 0 <= r < |m| && 0 <= c < cols ==> m[r][c].Val?
    ensures BorderValue(m, hp, cols, levels, sqrt, row, col) == InteriorValue(hp, cols, levels, sqrt, row, col)
  {
    var h := HalfFilterSize(levels);
    BorderAgreesWithInterior(m, hp, cols, row - h, row + h + 1, col - h, col + h + 1);
  }

  /** The interior rule has no void test: a single void high-pass cell in the window voids the result. */
  lemma InteriorVoidSpreads(hp: Raster, cols: int, levels: int, sqrt: real -> real, row: int, col: int, r: int, c: int)
    requires IsRaster(hp, cols, |hp|)
    requires 0 <= row - HalfFilterSize(levels) && row + HalfFilterSize(levels) < |hp|
    requires 0 <= col - HalfFilterSize(levels) && col + HalfFilterSize(levels) < cols
    requires row - HalfFilterSize(levels) <= r <= row + HalfFilterSize(levels)
    requires col - HalfFilterSize(levels) <= c <= col + HalfFilterSize(levels)
    requires hp[r][c].Void?
    ensures InteriorValue(hp, cols, levels, sqrt, row, col).Void?
  {
  }

  /** The output cells the border loops assign: the rows and columns closer to an edge than half a window. */
  predicate IsBorderCell(h: int, cols: int, rows: int, row: int, col: int) {
    row < h || row >= rows - h || col < h || col >= cols - h
  }

  /** `operateBorder(src, dst, col, row, highPass)`: the value it stores at (row, col). */
  function BorderValue(m: Raster, hp: Raster, cols: int, levels: int, sqrt: real -> real, row: int, col: int): Cell
    requires IsRaster(m, cols, |m|) && IsRaster(hp, cols, |m|)
  {
    var h := HalfFilterSize(levels);
    Deviation(BorderWindowSquares(m, hp, cols, row - h, row + h + 1, col - h, col + h + 1), FilterSize(levels), sqrt)
  }

  /** The value the interior loop stores at (row, col), whose window lies inside the grid. */
  function InteriorValue(hp: Raster, cols: int, levels: int, sqrt: real -> real, row: int, col: int): Cell
    requires IsRaster(hp, cols, |hp|)
    requires 0 <= row - HalfFilterSize(levels) && row + HalfFilterSize(levels) < |hp|
    requires 0 <= col - HalfFilterSize(levels) && col + HalfFilterSize(levels) < cols
  {
    var h := HalfFilterSize(levels);
    Deviation(WindowSquares(hp, cols, row - h, row + h + 1, col - h, col + h + 1), FilterSize(levels), sqrt)
  }

  /** The output cell at (row, col): the border rule near an edge, the interior rule elsewhere. */
  function DeviationCell(m: Raster, hp: Raster, cols: int, levels: int, sqrt: real -> real, row: int, col: int): Cell
    requires IsRaster(m, cols, |m|) && IsRaster(hp, cols, |m|) && FilterSize(levels) >= 1
    requires 0 <= row < |m| && 0 <= col < cols
  {
    var h := HalfFilterSize(levels);
    if IsBorderCell(h, cols, |m|, row, col) then BorderValue(m, hp, cols, levels, sqrt, row, col)
    else InteriorValue(hp, cols, levels, sqrt, row, col)
  }

  /** The cells of the output grid. */
  function DeviationCells(m: Raster, hp: Raster, cols: int, levels: int, sqrt: real -> real): (d: Raster)
    requires cols >= 0 && IsRaster(m, cols, |m|) && IsRaster(hp, cols, |m|) && FilterSize(levels) >= 1
    ensures IsRaster(d, cols, |m|)
    ensures forall r, c :: 0 <= r < |m| && 0 <= c < cols ==> d[r][c] == DeviationCell(m, hp, cols, levels, sqrt, r, c)
  {
    seq(|m|, r requires 0 <= r < |m| => seq(cols, c requires 0 <= c < cols => DeviationCell(m, hp, cols, levels, sqrt, r, c)))
  }

  /**
   * When the loops of `operate` index outside the output grid: a negative
   * half window (the interior loop starts at a negative row), a half window
   * taller than the grid (the top or bottom rows), or, when there are rows
   * left between top and bottom, a half window wider than the grid (the
   * left and right columns).
   */
  predicate IndexFails(h: int, cols: int, rows: int) {
    h < 0 || h > rows || (rows > 2 * h && h > cols)
  }

  /**
   * `operate(grid)`. A null grid is an IllegalArgumentException; a window
   * that does not fit makes a loop index out of bounds. Otherwise a new grid
   * of the input's shape, cell size and position holds the local standard
   * deviation of the high-pass band `sumLevels(weights)`. The high-pass band
   * has the input's shape.
   */
  method Operate(grid: Grid?, levels: int, levelCount: nat, sumLevels: seq<real> -> Raster, sqrt: real -> real)
    returns (res: Result<Grid, Failure>)
    requires grid != null ==> grid.Valid() && IsRaster(sumLevels(HighPassWeights(levels, levelCount)), grid.Cols(), grid.Rows())
    ensures grid == null <==> res == Failure(IllegalArgument(""))
    ensures grid != null ==> (res == Failure(IndexOutOfBounds) <==> IndexFails(HalfFilterSize(levels), grid.Cols(), grid.Rows()))
    ensures res.Success? ==> (
      grid != null && FilterSize(levels) >= 1 &&
      fresh(res.value) && res.value.Valid() &&
      res.value.Rows() == grid.Rows() && res.value.Cols() == grid.Cols() &&
      res.value.cellSize == grid.cellSize && res.value.west == grid.west && res.value.south == grid.south &&
      res.value.Cells() == DeviationCells(grid.Cells(), sumLevels(HighPassWeights(levels, levelCount)), grid.Cols(), levels, sqrt))
    ensures grid != null ==> unchanged(grid.data)
  {
    if grid == null {
      return Failure(IllegalArgument(""));
    }
    var filterSize := FilterSize(levels);
    var h := HalfFilterSize(levels);
    var rows := grid.Rows();
    var cols := grid.Cols();
    var created := Grid.Create(cols, rows, grid.cellSize);
    var newGrid := created.value;
    newGrid.west := grid.west;
    newGrid.south := grid.south;

    var weights := CreateHighPassWeights(levels, levelCount);
    var hp := sumLevels(weights[..]);
    if IndexFails(h, cols, rows) {
      return Failure(IndexOutOfBounds);
    }
    FillDeviations(grid, newGrid, hp, levels, sqrt);
    return Success(newGrid);
  }

  /** The border and interior loops of `operate`, once the window is known to fit. */
  method FillDeviations(grid: Grid, newGrid: Grid, hp: Raster, levels: int, sqrt: real -> real)
    requires grid.Valid() && newGrid.Rows() == grid.Rows() && newGrid.Cols() == grid.Cols()
    requires newGrid.data != grid.data && IsRaster(hp, grid.Cols(), grid.Rows())
    requires !IndexFails(HalfFilterSize(levels), grid.Cols(), grid.Rows())
    modifies newGrid.data
    ensures FilterSize(levels) >= 1
    ensures newGrid.Cells() == DeviationCells(grid.Cells(), hp, grid.Cols(), levels, sqrt)
  {
    var h := HalfFilterSize(levels);
    var rows := grid.Rows();
    var cols := grid.Cols();
    ghost var m := grid.Cells();
    // top rows
    BorderRows(grid, newGrid, hp, levels, sqrt, 0, h);
    assert forall r, c :: 0 <= r < rows && 0 <= c < cols && r < h ==>
      newGrid.data[r, c] == DeviationCell(m, hp, cols, levels, sqrt, r, c);
    // bottom rows
    BorderRows(grid, newGrid, hp, levels, sqrt, rows - h, rows);
    assert forall r, c :: 0 <= r < rows && 0 <= c < cols && (r < h || r >= rows - h) ==>
      newGrid.data[r, c] == DeviationCell(m, hp, cols, levels, sqrt, r, c);
    // left columns
    BorderColumns(grid, newGrid, hp, levels, sqrt, 0, h, h, rows - h);
    assert forall r, c :: 0 <= r < rows && 0 <= c < cols && (r < h || r >= rows - h || c < h) ==>
      newGrid.data[r, c] == DeviationCell(m, hp, cols, levels, sqrt, r, c);
    // right columns
    BorderColumns(grid, newGrid, hp, levels, sqrt, cols - h, cols, h, rows - h);
    assert forall r, c :: 0 <= r < rows && 0 <= c < cols && IsBorderCell(h, cols, rows, r, c) ==>
      newGrid.data[r, c] == DeviationCell(m, hp, cols, levels, sqrt, r, c);
    // interior of grid
    Interior(newGrid, hp, levels, sqrt);
    ghost var d := DeviationCells(m, hp, cols, levels, sqrt);
    RasterOfEq(newGrid.data, d);
  }

  /** A loop of `operate` that calls `operateBorder` row by row for rows [rowLo, rowHi), every column. */
  method BorderRows(src: Grid, dst: Grid, hp: Raster, levels: int, sqrt: real -> real, rowLo: int, rowHi: int)
    requires src.Valid() && dst.Rows() == src.Rows() && dst.Cols() == src.Cols() && dst.data != src.data
    requires IsRaster(hp, src.Cols(), src.Rows()) && FilterSize(levels) >= 1
    requires 0 <= rowLo && rowHi <= src.Rows()
    modifies dst.data
    ensures forall r, c :: 0 <= r < dst.Rows() && 0 <= c < dst.Cols() ==>
      dst.data[r, c] == if rowLo <= r < rowHi then BorderValue(src.Cells(), hp, src.Cols(), levels, sqrt, r, c) else old(dst.data[r, c])
  {
    var row := rowLo;
    while row < rowHi
      invariant row == rowLo || rowLo <= row <= rowHi
      invariant forall r, c :: 0 <= r < dst.Rows() && 0 <= c < dst.Cols() ==>
        dst.data[r, c] == if rowLo <= r < row then BorderValue(src.Cells(), hp, src.Cols(), levels, sqrt, r, c) else old(dst.data[r, c])
    {
      BorderRowSpan(src, dst, hp, levels, sqrt, row);
      row := row + 1;
    }
  }

  /** The inner column loop of the top and bottom rows: `operateBorder` for every column of row `row`. */
  method BorderRowSpan(src: Grid, dst: Grid, hp: Raster, levels: int, sqrt: real -> real, row: int)
    requires src.Valid() && dst.Rows() == src.Rows() && dst.Cols() == src.Cols() && dst.data != src.data
    requires IsRaster(hp, src.Cols(), src.Rows()) && FilterSize(levels) >= 1
    requires 0 <= row < src.Rows()
    modifies dst.data
    ensures forall r, c :: 0 <= r < dst.Rows() && 0 <= c < dst.Cols() ==>
      dst.data[r, c] == if r == row then BorderValue(src.Cells(), hp, src.Cols(), levels, sqrt, r, c) else old(dst.data[r, c])
  {
    for col := 0 to src.Cols()
      invariant forall r, c :: 0 <= r < dst.Rows() && 0 <= c < dst.Cols() ==>
        dst.data[r, c] == if r == row && c < col then BorderValue(src.Cells(), hp, src.Cols(), levels, sqrt, r, c) else old(dst.data[r, c])
    {
      OperateBorder(src, dst, col, row, hp, levels, sqrt);
    }
  }

  /**
   * A loop of `operate` that calls `operateBorder` column by column for
   * columns [colLo, colHi), rows [rowLo, rowHi). The columns need to exist
   * only when there is a row to visit.
   */
  method BorderColumns(src: Grid, dst: Grid, hp: Raster, levels: int, sqrt: real -> real,
                       colLo: int, colHi: int, rowLo: int, rowHi: int)
    requires src.Valid() && dst.Rows() == src.Rows() && dst.Cols() == src.Cols() && dst.data != src.data
    requires IsRaster(hp, src.Cols(), src.Rows()) && FilterSize(levels) >= 1
    requires 0 <= rowLo && rowHi <= src.Rows()
    requires rowLo < rowHi ==> 0 <= colLo && colHi <= src.Cols()
    modifies dst.data
    ensures forall r, c :: 0 <= r < dst.Rows() && 0 <= c < dst.Cols() ==>
      dst.data[r, c] == if rowLo <= r < rowHi && colLo <= c < colHi then BorderValue(src.Cells(), hp, src.Cols(), levels, sqrt, r, c) else old(dst.data[r, c])
  {
    var col := colLo;
    while col < colHi
      invariant col == colLo || colLo <= col <= colHi
      invariant forall r, c :: 0 <= r < dst.Rows() && 0 <= c < dst.Cols() ==>
        dst.data[r, c] == if rowLo <= r < rowHi && colLo <= c < col then BorderValue(src.Cells(), hp, src.Cols(), levels, sqrt, r, c) else old(dst.data[r, c])
    {
      BorderColumnSpan(src, dst, hp, levels, sqrt, col, rowLo, rowHi);
      col := col + 1;
    }
  }

  /** The inner row loop of the left and right columns: `operateBorder` for rows [rowLo, rowHi) of column `col`. */
  method BorderColumnSpan(src: Grid, dst: Grid, hp: Raster, levels: int, sqrt: real -> real, col: int, rowLo: int, rowHi: int)
    requires src.Valid() && dst.Rows() == src.Rows() && dst.Cols() == src.Cols() && dst.data != src.data
    requires IsRaster(hp, src.Cols(), src.Rows()) && FilterSize(levels) >= 1
    requires 0 <= rowLo && rowHi <= src.Rows()
    requires rowLo < rowHi ==> 0 <= col < src.Cols()
    modifies dst.data
    ensures forall r, c :: 0 <= r < dst.Rows() && 0 <= c < dst.Cols() ==>
      dst.data[r, c] == if rowLo <= r < rowHi && c == col then BorderValue(src.Cells(), hp, src.Cols(), levels, sqrt, r, c) else old(dst.data[r, c])
  {
    var row := rowLo;
    while row < rowHi
      invariant row == rowLo || rowLo <= row <= rowHi
      invariant forall r, c :: 0 <= r < dst.Rows() && 0 <= c < dst.Cols() ==>
        dst.data[r, c] == if rowLo <= r < row && c == col then BorderValue(src.Cells(), hp, src.Cols(), levels, sqrt, r, c) else old(dst.data[r, c])
    {
      OperateBorder(src, dst, col, row, hp, levels, sqrt);
      row := row + 1;
    }
  }

  /** `operateBorder`: the border rule's sum over the window around (row, col), stored at (row, col). */
  method OperateBorder(src: Grid, dst: Grid, col: int, row: int, hp: Raster, levels: int, sqrt: real -> real)
    requires src.Valid() && dst.Rows() == src.Rows() && dst.Cols() == src.Cols() && dst.data != src.data
    requires IsRaster(hp, src.Cols(), src.Rows()) && FilterSize(levels) >= 1
    requires 0 <= row < src.Rows() && 0 <= col < src.Cols()
    modifies dst.data
    ensures forall r, c :: 0 <= r < dst.Rows() && 0 <= c < dst.Cols() ==>
      dst.data[r, c] == if r == row && c == col then BorderValue(src.Cells(), hp, src.Cols(), levels, sqrt, r, c) else old(dst.data[r, c])
  {
    var sqDif := BorderSum(src, hp, levels, row, col);
    dst.data[row, col] := Deviation(sqDif, FilterSize(levels), sqrt);
  }

  /** The window loops of `operateBorder`: `sqDif` over the counted neighbours of (row, col). */
  method BorderSum(src: Grid, hp: Raster, levels: int, row: int, col: int) returns (sqDif: Cell)
    requires IsRaster(hp, src.Cols(), src.Rows()) && FilterSize(levels) >= 1
    ensures sqDif == BorderWindowSquares(src.Cells(), hp, src.Cols(), row - HalfFilterSize(levels),
      row + HalfFilterSize(levels) + 1, col - HalfFilterSize(levels), col + HalfFilterSize(levels) + 1)
  {
    var h := HalfFilterSize(levels);
    var cols := src.Cols();
    var rows := src.Rows();
    ghost var m := src.Cells();
    sqDif := Val(0.0);
    var r := row - h;
    while r <= row + h
      invariant row - h <= r <= row + h + 1
      invariant sqDif == BorderWindowSquares(m, hp, cols, row - h, r, col - h, col + h + 1)
    {
      if 0 < r < rows {
        sqDif := BorderRow(src, hp, r, col - h, col + h + 1, sqDif);
      }
      r := r + 1;
    }
  }

  /** The column loop of `operateBorder` for neighbour row `r`, adding to `acc`. */
  method BorderRow(src: Grid, hp: Raster, r: int, cLo: int, cHi: int, acc: Cell) returns (sqDif: Cell)
    requires IsRaster(hp, src.Cols(), src.Rows()) && 0 < r < src.Rows() && cLo <= cHi
    ensures sqDif == BorderRowSquares(acc, src.Cells(), hp, src.Cols(), r, cLo, cHi)
  {
    var cols := src.Cols();
    ghost var m := src.Cells();
    sqDif := acc;
    var c := cLo;
    while c < cHi
      invariant cLo <= c <= cHi
      invariant sqDif == BorderRowSquares(acc, m, hp, cols, r, cLo, c)
    {
      ghost var before := sqDif;
      if 0 < c < cols {
        var v := src.data[r, c];
        if v.Val? {
          var dif := hp[r][c];
          sqDif := Add(sqDif, Mul(dif, dif));
        }
      }
      assert sqDif == if Counted(m, cols, r, c) then Add(before, Square(hp[r][c])) else before;
      c := c + 1;
    }
  }

  /** The interior loop of `operate`: rows and columns at least half a window from every edge. */
  method Interior(dst: Grid, hp: Raster, levels: int, sqrt: real -> real)
    requires IsRaster(hp, dst.Cols(), dst.Rows()) && FilterSize(levels) >= 1
    modifies dst.data
    ensures forall r, c :: 0 <= r < dst.Rows() && 0 <= c < dst.Cols() ==>
      dst.data[r, c] == if !IsBorderCell(HalfFilterSize(levels), dst.Cols(), dst.Rows(), r, c)
        then InteriorValue(hp, dst.Cols(), levels, sqrt, r, c) else old(dst.data[r, c])
  {
    var h := HalfFilterSize(levels);
    var row := h;
    while row < dst.Rows() - h
      invariant row == h || h <= row <= dst.Rows() - h
      invariant forall r, c :: 0 <= r < dst.Rows() && 0 <= c < dst.Cols() ==>
        dst.data[r, c] == if r < row && !IsBorderCell(h, dst.Cols(), dst.Rows(), r, c)
          then InteriorValue(hp, dst.Cols(), levels, sqrt, r, c) else old(dst.data[r, c])
    {
      InteriorRow(dst, hp, levels, sqrt, row);
      row := row + 1;
    }
  }

  /** One row of the interior loop. */
  method InteriorRow(dst: Grid, hp: Raster, levels: int, sqrt: real -> real, row: int)
    requires IsRaster(hp, dst.Cols(), dst.Rows()) && FilterSize(levels) >= 1
    requires HalfFilterSize(levels) <= row < dst.Rows() - HalfFilterSize(levels)
    modifies dst.data
    ensures forall r, c :: 0 <= r < dst.Rows() && 0 <= c < dst.Cols() ==>
      dst.data[r, c] == if r == row && !IsBorderCell(HalfFilterSize(levels), dst.Cols(), dst.Rows(), r, c)
        then InteriorValue(hp, dst.Cols(), levels, sqrt, r, c) else old(dst.data[r, c])
  {
    var h := HalfFilterSize(levels);
    var cols := dst.Cols();
    var col := h;
    while col < cols - h
      invariant col == h || h <= col <= cols - h
      invariant forall r, c :: 0 <= r < dst.Rows() && 0 <= c < cols ==>
        dst.data[r, c] == if r == row && h <= c < col
          then InteriorValue(hp, cols, levels, sqrt, r, c) else old(dst.data[r, c])
    {
      InteriorCellAt(dst, hp, levels, sqrt, row, col);
      col := col + 1;
    }
  }

  /** The body of the interior loops: the window sum at (row, col) and its deviation. */
  method InteriorCellAt(dst: Grid, hp: Raster, levels: int, sqrt: real -> real, row: int, col: int)
    requires IsRaster(hp, dst.Cols(), dst.Rows()) && FilterSize(levels) >= 1
    requires HalfFilterSize(levels) <= row < dst.Rows() - HalfFilterSize(levels)
    requires HalfFilterSize(levels) <= col < dst.Cols() - HalfFilterSize(levels)
    modifies dst.data
    ensures dst.data[row, col] == InteriorValue(hp, dst.Cols(), levels, sqrt, row, col)
    ensures forall r, c :: 0 <= r < dst.Rows() && 0 <= c < dst.Cols() && (r != row || c != col) ==>
      dst.data[r, c] == old(dst.data[r, c])
  {
    var h := HalfFilterSize(levels);
    var sqDif := WindowSum(hp, dst.Cols(), row - h, row + h + 1, col - h, col + h + 1);
    dst.data[row, col] := Deviation(sqDif, FilterSize(levels), sqrt);
  }

  /** The window loops of the interior: `sqDif += dif * dif` over rows [rLo, rHi) x columns [cLo, cHi). */
  method WindowSum(hp: Raster, cols: int, rLo: int, rHi: int, cLo: int, cHi: int) returns (sqDif: Cell)
    requires IsRaster(hp, cols, |hp|) && 0 <= rLo <= rHi <= |hp| && 0 <= cLo <= cHi <= cols
    ensures sqDif == WindowSquares(hp, cols, rLo, rHi, cLo, cHi)
  {
    sqDif := Val(0.0);
    for r := rLo to rHi
      invariant sqDif == WindowSquares(hp, cols, rLo, r, cLo, cHi)
    {
      ghost var above := sqDif;
      for c := cLo to cHi
        invariant sqDif == RowSquares(above, hp, r, cLo, c)
      {
        var dif := hp[r][c];
        sqDif := Add(sqDif, Mul(dif, dif));
      }
    }
  }
}
