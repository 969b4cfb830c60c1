/**
 * The difference-quotient operator of local hypsometric tints: cell by cell
 * (a - b) / (c + 1) of three grids, where a division that yields an
 * infinite or undefined float becomes void.
 */
module GridDiffDivOperators {
  import opened Wrappers
  import opened Cells
  import opened Grids

  /**
   * One cell: void operands give NaN, and c = -1 divides by zero, which is
   * an infinity (a != b) or NaN (a == b); both become void.
   */
  function DiffDivCell(a: Cell, b: Cell, c: Cell): (d: Cell)
    ensures d.Val? <==> a.Val? && b.Val? && c.Val? && c.r != -1.0
    ensures d.Val? ==> d.r * (c.r + 1.0) == a.r - b.r
  {
    if a.Val? && b.Val? && c.Val? && c.r != -1.0 then Val((a.r - b.r) / (c.r + 1.0)) else Void
  }

  /** The cells of the result, for grids of at least the first grid's size. */
  function DiffDivCells(m1: Raster, m2: Raster, m3: Raster, cols: int, rows: int): (m: Raster)
    requires rows >= 0 && cols >= 0
    requires IsRaster(m1, cols, rows)
    requires |m2| >= rows && |m3| >= rows
    requires forall r :: 0 <= r < rows ==> |m2[r]| >= cols && |m3[r]| >= cols
    ensures IsRaster(m, cols, rows)
    ensures forall r, c :: 0 <= r < rows && 0 <= c < cols ==> m[r][c] == DiffDivCell(m1[r][c], m2[r][c], m3[r][c])
  {
    seq(rows, r requires 0 <= r < rows => seq(cols, c requires 0 <= c < cols => DiffDivCell(m1[r][c], m2[r][c], m3[r][c])))
  }

  /** The second and third grids cover every cell of the first one. */
  predicate Covers(g: Grid, grid1: Grid)
    reads g, grid1
  {
    g.Rows() >= grid1.Rows() && g.Cols() >= grid1.Cols()
  }

  /**
   * `operate(grid1, grid2, grid3)`: a null grid is an IllegalArgumentException;
   * a second or third grid smaller than the first makes the loop index out
   * of bounds before it ends. Otherwise a new grid of the first one's shape,
   * cell size and position holds the difference quotients.
   */
  method Operate(grid1: Grid?, grid2: Grid?, grid3: Grid?) returns (res: Result<Grid, Failure>)
    requires grid1 != null ==> grid1.Valid()
    requires grid2 != null ==> grid2.Valid()
    requires grid3 != null ==> grid3.Valid()
    ensures grid1 == null || grid2 == null || grid3 == null <==> res == Failure(IllegalArgument(""))
    ensures grid1 != null && grid2 != null && grid3 != null ==>
      (res == Failure(IndexOutOfBounds) <==> !(Covers(grid2, grid1) && Covers(grid3, grid1)))
    ensures res.Success? ==> (
      grid1 != null && grid2 != null && grid3 != null &&
      fresh(res.value) && res.value.Valid() &&
      res.value.Rows() == grid1.Rows() && res.value.Cols() == grid1.Cols() &&
      res.value.cellSize == grid1.cellSize && res.value.west == grid1.west && res.value.south == grid1.south &&
      res.value.Cells() == DiffDivCells(grid1.Cells(), grid2.Cells(), grid3.Cells(), grid1.Cols(), grid1.Rows()))
  {
    if grid1 == null || grid2 == null || grid3 == null {
      return Failure(IllegalArgument(""));
    }
    var nrows := grid1.Rows();
    var ncols := grid1.Cols();
    var created := Grid.Create(ncols, nrows, grid1.cellSize);
    var newGrid := created.value;
    newGrid.west := grid1.west;
    newGrid.south := grid1.south;
    if !(Covers(grid2, grid1) && Covers(grid3, grid1)) {
      return Failure(IndexOutOfBounds);
    }
    for row := 0 to nrows
      invariant newGrid.west == grid1.west && newGrid.south == grid1.south
      invariant forall r, c :: 0 <= r < row && 0 <= c < ncols ==>
        newGrid.data[r, c] == DiffDivCell(grid1.data[r, c], grid2.data[r, c], grid3.data[r, c])
    {
      DiffDivRow(grid1, grid2, grid3, newGrid, row);
    }
    ghost var m := DiffDivCells(grid1.Cells(), grid2.Cells(), grid3.Cells(), ncols, nrows);
    RasterOfEq(newGrid.data, m);
    return Success(newGrid);
  }

  /** The inner loop of `operate`: row `row` of the new grid. */
  method DiffDivRow(grid1: Grid, grid2: Grid, grid3: Grid, newGrid: Grid, row: int)
    requires grid1.Valid() && Covers(grid2, grid1) && Covers(grid3, grid1)
    requires newGrid.Rows() == grid1.Rows() && newGrid.Cols() == grid1.Cols()
    requires newGrid.data != grid1.data && newGrid.data != grid2.data && newGrid.data != grid3.data
    requires 0 <= row < grid1.Rows()
    modifies newGrid.data
    ensures forall c :: 0 <= c < grid1.Cols() ==>
      newGrid.data[row, c] == DiffDivCell(grid1.data[row, c], grid2.data[row, c], grid3.data[row, c])
    ensures forall r, c :: 0 <= r < newGrid.Rows() && 0 <= c < newGrid.Cols() && r != row ==>
      newGrid.data[r, c] == old(newGrid.data[r, c])
  {
    for col := 0 to grid1.Cols()
      invariant forall c :: 0 <= c < col ==>
        newGrid.data[row, c] == DiffDivCell(grid1.data[row, c], grid2.data[row, c], grid3.data[row, c])
      invariant forall r, c :: 0 <= r < newGrid.Rows() && 0 <= c < newGrid.Cols() && r != row ==>
        newGrid.data[r, c] == old(newGrid.data[r, c])
    {
      var v := DiffDivCell(grid1.data[row, col], grid2.data[row, col], grid3.data[row, col]);
      newGrid.data[row, col] := v;
    }
  }

  /** The one-grid `operate` is not supported. */
  method OperateSingle(grid: Grid?) returns (res: Result<Grid, Failure>)
    ensures res == Failure(UnsupportedOperation)
  {
    return Failure(UnsupportedOperation);
  }
}
