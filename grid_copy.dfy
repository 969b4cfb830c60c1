/**
 * The per-chunk body of the copy operator: rows [startRow, endRow) of the
 * source are meant to be copied into the destination. As written both row
 * arrays are taken from the source, so each row is copied onto itself.
 */
module GridCopyOperators {
  import opened Cells
  import opened Grids

  /** The rows a chunk is meant to copy: the destination with rows [startRow, endRow) taken from `src`. */
  function CopyRows(src: Raster, dst: Raster, startRow: int, endRow: int): (m: Raster)
    requires |src| == |dst|
    ensures |m| == |dst|
    ensures forall r :: 0 <= r < |m| ==> m[r] == if startRow <= r < endRow then src[r] else dst[r]
  {
    seq(|dst|, r requires 0 <= r < |dst| => if startRow <= r < endRow then src[r] else dst[r])
  }

  /**
   * `operate` as written: `System.arraycopy(srcArray, 0, dstArray, 0, n)`
   * with `dstArray` also taken from the source. Every cell of a visited row
   * is overwritten by itself; the destination is not touched.
   */
  method OperateAsWritten(src: Grid, dst: Grid, startRow: int, endRow: int)
    requires src.Valid() && 0 <= startRow && endRow <= src.Rows()
    modifies src.data
    ensures src.Cells() == old(src.Cells())
    ensures unchanged(dst.data) || dst.data == src.data
  {
    for row := startRow to if endRow < startRow then startRow else endRow
      invariant src.Cells() == old(src.Cells())
      invariant dst.data != src.data ==> unchanged(dst.data)
    {
      CopyRowOnto(src, src, row);
      assert src.Cells() == old(src.Cells()) by {
        RasterOfEq(src.data, old(src.Cells()));
      }
    }
  }

  /**
   * The discrepancy: as written the destination keeps its cells, but a
   * chunk holding a row in which source and destination differ was meant
   * to change that row.
   */
  lemma AsWrittenMissesCopy(src: Raster, dst: Raster, startRow: int, endRow: int, r: int)
    requires |src| == |dst| && startRow <= r < endRow && 0 <= r < |src| && src[r] != dst[r]
    ensures CopyRows(src, dst, startRow, endRow) != dst
  {
    assert CopyRows(src, dst, startRow, endRow)[r] == src[r];
  }

  /** The smallest instance: two 3 x 3 grids of different values and a one-row chunk. */
  lemma AsWrittenCounterexample()
    ensures var src := seq(3, _ => seq(3, _ => Val(1.0)));
      var dst := seq(3, _ => seq(3, _ => Val(0.0)));
      CopyRows(src, dst, 0, 1) != dst
  {
    var src := seq(3, _ => seq(3, _ => Val(1.0)));
    var dst := seq(3, _ => seq(3, _ => Val(0.0)));
    assert src[0][0] != dst[0][0];
    AsWrittenMissesCopy(src, dst, 0, 1, 0);
  }

  /** `operate` as intended: rows [startRow, endRow) of `src` are copied into `dst`. */
  method Operate(src: Grid, dst: Grid, startRow: int, endRow: int)
    requires src.Valid() && dst.Rows() == src.Rows() && dst.Cols() == src.Cols()
    requires 0 <= startRow && endRow <= src.Rows()
    modifies dst.data
    ensures dst.Cells() == CopyRows(old(src.Cells()), old(dst.Cells()), startRow, endRow)
    ensures dst.data != src.data ==> src.Cells() == old(src.Cells())
  {
    ghost var s := src.Cells();
    ghost var d := dst.Cells();
    for row := startRow to if endRow < startRow then startRow else endRow
      invariant forall r, c :: 0 <= r < dst.Rows() && 0 <= c < dst.Cols() ==>
        dst.data[r, c] == if startRow <= r < row then s[r][c] else d[r][c]
      invariant forall r, c :: 0 <= r < src.Rows() && 0 <= c < src.Cols() && (dst.data != src.data || r >= row) ==>
        src.data[r, c] == s[r][c]
    {
      CopyRowOnto(src, dst, row);
    }
    ghost var m := CopyRows(s, d, startRow, endRow);
    RasterOfEq(dst.data, m);
    if dst.data != src.data {
      RasterOfEq(src.data, s);
    }
  }

  /** `System.arraycopy` of row `row` of `from` onto row `row` of `to`, cell by cell. */
  method CopyRowOnto(from: Grid, to: Grid, row: int)
    requires to.Cols() == from.Cols() && to.Rows() == from.Rows() && 0 <= row < from.Rows()
    modifies to.data
    ensures forall c :: 0 <= c < to.Cols() ==> to.data[row, c] == old(from.data[row, c])
    ensures forall r, c :: 0 <= r < to.Rows() && 0 <= c < to.Cols() && r != row ==> to.data[r, c] == old(to.data[r, c])
    ensures to.data != from.data ==> unchanged(from.data)
  {
    for c := 0 to from.Cols()
      invariant forall c' :: 0 <= c' < c ==> to.data[row, c'] == old(from.data[row, c'])
      invariant forall r, c' :: 0 <= r < to.Rows() && 0 <= c' < to.Cols() && (r != row || c' >= c) ==>
        to.data[r, c'] == old(to.data[r, c']) && from.data[r, c'] == old(from.data[r, c'])
      invariant to.data != from.data ==> unchanged(from.data)
    {
      to.data[row, c] := from.data[row, c];
    }
  }
}
