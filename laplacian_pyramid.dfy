/**
 * The Laplacian pyramid: band-pass levels, each the difference between a
 * Gaussian level and the expansion of the next coarser one, plus the coarsest
 * Gaussian level itself. Summing the levels back up re-synthesises the grid,
 * optionally with a weight per level.
 */
module LaplacianPyramids {
  import opened Wrappers
  import opened Cells
  import opened Grids
  import opened ExpandSpec
  import opened LaplacianSpec

  /**
   * The index test of `expandWithVoid`: the three taps around (c, r) in the
   * source and the two written cells in the destination must all exist.
   */
  predicate WithVoidInRange(src: array2<Cell>, dst: array2<Cell>, c: int, r: int, horizontal: bool) {
    if horizontal then
      0 <= r < src.Length0 && 1 <= c && c + 1 < src.Length1 && r < dst.Length0 && 2 * c + 1 < dst.Length1
    else
      1 <= r && r + 1 < src.Length0 && 0 <= c < src.Length1 && 2 * r + 1 < dst.Length0 && c < dst.Length1
  }

  /**
   * `expandWithVoid`: reads the three taps around (c, r) along one axis and
   * writes the renormalised even and odd outputs at index 2c, 2c + 1 (or 2r,
   * 2r + 1). Reads come first, so `src` may be `dst`. An index out of range
   * is the ArrayIndexOutOfBoundsException of the code: nothing is written and
   * the caller fails.
   */
  method ExpandWithVoid(src: array2<Cell>, dst: array2<Cell>, c: int, r: int, horizontal: bool) returns (ok: bool)
    modifies dst
    ensures ok <==> WithVoidInRange(src, dst, c, r, horizontal)
    ensures !ok ==> unchanged(dst)
    ensures ok && horizontal ==>
      var p := WithVoid(old(src[r, c - 1]), old(src[r, c]), old(src[r, c + 1]));
      dst[r, 2 * c] == p.even && dst[r, 2 * c + 1] == p.odd &&
      forall i, j :: 0 <= i < dst.Length0 && 0 <= j < dst.Length1 && !(i == r && (j == 2 * c || j == 2 * c + 1)) ==>
        dst[i, j] == old(dst[i, j])
    ensures ok && !horizontal ==>
      var p := WithVoid(old(src[r - 1, c]), old(src[r, c]), old(src[r + 1, c]));
      dst[2 * r, c] == p.even && dst[2 * r + 1, c] == p.odd &&
      forall i, j :: 0 <= i < dst.Length0 && 0 <= j < dst.Length1 && !(j == c && (i == 2 * r || i == 2 * r + 1)) ==>
        dst[i, j] == old(dst[i, j])
  {
    if !WithVoidInRange(src, dst, c, r, horizontal) {
      return false;
    }
    var v0, v1, v2;
    if horizontal {
      v0, v1, v2 := src[r, c - 1], src[r, c], src[r, c + 1];
    } else {
      v0, v1, v2 := src[r - 1, c], src[r, c], src[r + 1, c];
    }
    var p := WithVoid(v0, v1, v2);
    if horizontal {
      dst[r, c * 2] := p.even;
      dst[r, c * 2 + 1] := p.odd;
    } else {
      dst[r * 2, c] := p.even;
      dst[r * 2 + 1, c] := p.odd;
    }
    return true;
  }

  /** The left-column loop of `expandBorderColumns`: v0 := v1. */
  method ExpandLeftColumn(src: Grid, dst: array2<Cell>)
    requires src.Valid() && dst.Length0 == src.Rows() && dst.Length1 == 2 * src.Cols()
    modifies dst
    ensures forall r :: 0 <= r < src.Rows() ==>
      dst[r, 0] == HPair(src.Cells()[r], 0).even && dst[r, 1] == HPair(src.Cells()[r], 0).odd
    ensures forall r, k :: 0 <= r < src.Rows() && 2 <= k < dst.Length1 ==> dst[r, k] == old(dst[r, k])
  {
    var rows := src.Rows();
    assert dst != src.data by {
      assert dst.Length1 != src.data.Length1;
    }
    ghost var s := src.Cells();
    for r := 0 to rows
      invariant forall r' :: 0 <= r' < r ==> dst[r', 0] == HPair(s[r'], 0).even && dst[r', 1] == HPair(s[r'], 0).odd
      invariant forall r', k :: 0 <= r' < rows && 2 <= k < dst.Length1 ==> dst[r', k] == old(dst[r', k])
    {
      var v0 := src.data[r, 0];
      var v1 := v0;
      var v2 := src.data[r, 1];
      HPairLeft(s[r]);
      var vEven := Even(v0, v1, v2);
      var vOdd := Odd(v1, v2);
      if vEven.Void? || vOdd.Void? {
        if vEven.Void? && vOdd.Void? {
          dst[r, 0] := Void;
          dst[r, 1] := Void;
        } else {
          assert false;
        }
      } else {
        dst[r, 0] := vEven;
        dst[r, 1] := vOdd;
      }
    }
  }

  /**
   * The right-column loop of `expandBorderColumns`: v2 := v1. A void that
   * makes the triple partial sends `expandWithVoid` past the end of the
   * source row.
   */
  method ExpandRightColumn(src: Grid, dst: array2<Cell>) returns (ok: bool)
    requires src.Valid() && dst.Length0 == src.Rows() && dst.Length1 == 2 * src.Cols()
    modifies dst
    ensures ok <==> forall r :: 0 <= r < src.Rows() ==> !RightPartial(src.Cells()[r])
    ensures ok ==> forall r :: 0 <= r < src.Rows() ==>
      var row, last := src.Cells()[r], src.Cols() - 1;
      dst[r, 2 * last] == HPair(row, last).even && dst[r, 2 * last + 1] == HPair(row, last).odd
    ensures forall r, k :: 0 <= r < src.Rows() && 0 <= k < dst.Length1 - 2 ==> dst[r, k] == old(dst[r, k])
  {
    var cols := src.Cols();
    var rows := src.Rows();
    assert dst != src.data by {
      assert dst.Length1 != src.data.Length1;
    }
    var last := cols - 1;
    var a := src.data;
    for r := 0 to rows
      invariant forall r' :: 0 <= r' < r ==> !IsPartial(a[r', last - 1], a[r', last], a[r', last])
      invariant forall r' :: 0 <= r' < r ==>
        dst[r', 2 * last] == Even(a[r', last - 1], a[r', last], a[r', last]) &&
        dst[r', 2 * last + 1] == Odd(a[r', last], a[r', last])
      invariant forall r', k :: 0 <= r' < rows && 0 <= k < 2 * cols - 2 ==> dst[r', k] == old(dst[r', k])
    {
      var written := RightTap(src, dst, r);
      if !written {
        assert RightPartial(src.Cells()[r]) by {
          assert src.Cells()[r][last - 1] == a[r, last - 1] && src.Cells()[r][last] == a[r, last];
        }
        return false;
      }
    }
    forall r | 0 <= r < rows
      ensures !RightPartial(src.Cells()[r])
      ensures dst[r, 2 * last] == HPair(src.Cells()[r], last).even
      ensures dst[r, 2 * last + 1] == HPair(src.Cells()[r], last).odd
    {
      assert src.Cells()[r][last - 1] == a[r, last - 1] && src.Cells()[r][last] == a[r, last];
      HPairRight(src.Cells()[r]);
    }
    return true;
  }

  /** One iteration of the right-column loop of `expandBorderColumns`: source row r. */
  method RightTap(src: Grid, dst: array2<Cell>, r: int) returns (ok: bool)
    requires src.Valid() && dst.Length0 == src.Rows() && dst.Length1 == 2 * src.Cols() && 0 <= r < src.Rows()
    modifies dst
    ensures var a, last := src.data, src.Cols() - 1;
      ok <==> !IsPartial(a[r, last - 1], a[r, last], a[r, last])
    ensures var a, last := src.data, src.Cols() - 1;
      ok ==> dst[r, 2 * last] == Even(a[r, last - 1], a[r, last], a[r, last]) && dst[r, 2 * last + 1] == Odd(a[r, last], a[r, last])
    ensures forall i, k :: 0 <= i < dst.Length0 && 0 <= k < dst.Length1 && !(i == r && k >= dst.Length1 - 2) ==>
      dst[i, k] == old(dst[i, k])
  {
    var cols := src.Cols();
    assert dst != src.data by {
      assert dst.Length1 != src.data.Length1;
    }
    var v0 := src.data[r, cols - 2];
    var v1 := src.data[r, cols - 1];
    var v2 := v1;
    var vEven := Even(v0, v1, v2);
    var vOdd := Odd(v1, v2);
    var c := (cols - 1) * 2;
    if vEven.Void? || vOdd.Void? {
      if vEven.Void? && vOdd.Void? {
        dst[r, c] := Void;
        dst[r, c + 1] := Void;
      } else {
        var written := ExpandWithVoid(src.data, dst, c, r, true);
        assert !written;
        return false;
      }
    } else {
      dst[r, c] := vEven;
      dst[r, c + 1] := vOdd;
    }
    return true;
  }

  /** `expandBorderColumns`: the first and the last source column, edge value replicated. */
  method ExpandBorderColumns(src: Grid, dst: array2<Cell>) returns (ok: bool)
    requires src.Valid() && dst.Length0 == src.Rows() && dst.Length1 == 2 * src.Cols()
    modifies dst
    ensures ok <==> forall r :: 0 <= r < src.Rows() ==> !RightPartial(src.Cells()[r])
    ensures ok ==> forall r :: 0 <= r < src.Rows() ==>
      var row, last := src.Cells()[r], src.Cols() - 1;
      dst[r, 0] == HPair(row, 0).even && dst[r, 1] == HPair(row, 0).odd &&
      dst[r, 2 * last] == HPair(row, last).even && dst[r, 2 * last + 1] == HPair(row, last).odd
    ensures forall r, k :: 0 <= r < src.Rows() && 2 <= k < dst.Length1 - 2 ==> dst[r, k] == old(dst[r, k])
  {
    ExpandLeftColumn(src, dst);
    ok := ExpandRightColumn(src, dst);
  }

  /**
   * `expandBorderRows`: the first two and the last two output rows from the
   * first and the last rows of the intermediate grid. A void that makes the
   * bottom triple partial sends `expandWithVoid`, which is handed the output
   * grid as its source, past the last output row.
   */
  method ExpandBorderRows(src: array2<Cell>, dstGeoGrid: Grid) returns (ok: bool)
    requires src.Length0 >= 2 && dstGeoGrid.Valid() && dstGeoGrid.Cols() <= src.Length1
    requires src != dstGeoGrid.data
    modifies dstGeoGrid.data
    ensures ok <==> forall cc :: 0 <= cc < dstGeoGrid.Cols() ==> !BottomPartial(RasterOf(src), cc)
    ensures ok ==> forall j, cc :: 0 <= j < dstGeoGrid.Rows() && 0 <= cc < dstGeoGrid.Cols() ==>
      dstGeoGrid.data[j, cc] ==
        if j < 2 || j >= dstGeoGrid.Rows() - 2 then Base(RasterOf(src), dstGeoGrid.Rows(), j, cc) else old(dstGeoGrid.data[j, cc])
  {
    var cols := dstGeoGrid.Cols();
    var rows := dstGeoGrid.Rows();
    var dstGrid := dstGeoGrid.data;
    ghost var t := RasterOf(src);
    // top row
    for c := 0 to cols
      invariant forall j, cc :: 0 <= j < rows && 0 <= cc < cols ==>
        dstGrid[j, cc] == if j < 2 && cc < c then Pick(TopPair(t, cc), j) else old(dstGrid[j, cc])
    {
      TopTap(src, dstGeoGrid, c, t);
    }
    // bottom row
    for c := 0 to cols
      invariant forall cc :: 0 <= cc < c ==> !BottomPartial(t, cc)
      invariant forall j, cc :: 0 <= j < rows && 0 <= cc < cols ==>
        dstGrid[j, cc] ==
          if j >= rows - 2 && cc < c then Pick(BottomPair(t, cc), j - (rows - 2))
          else if j < 2 then Pick(TopPair(t, cc), j)
          else old(dstGrid[j, cc])
    {
      var written := BottomTap(src, dstGeoGrid, c, t);
      if !written {
        assert BottomPartial(t, c);
        assert t == RasterOf(src);
        return false;
      }
    }
    return true;
  }

  /** One iteration of the top-row loop of `expandBorderRows`: output rows 0 and 1 of column c. */
  method TopTap(src: array2<Cell>, dstGeoGrid: Grid, c: int, ghost t: Raster)
    requires t == RasterOf(src) && src.Length0 >= 2 && dstGeoGrid.Valid() && dstGeoGrid.Cols() <= src.Length1
    requires src != dstGeoGrid.data && 0 <= c < dstGeoGrid.Cols()
    modifies dstGeoGrid.data
    ensures forall j, cc :: 0 <= j < dstGeoGrid.Rows() && 0 <= cc < dstGeoGrid.Cols() ==>
      dstGeoGrid.data[j, cc] == if j < 2 && cc == c then Pick(TopPair(t, cc), j) else old(dstGeoGrid.data[j, cc])
  {
    var v0 := src[0, c];
    var v1 := v0;
    var v2 := src[1, c];
    assert TopPair(t, c) == Tap(v0, v1, v2);
    var vEven := Even(v0, v1, v2);
    var vOdd := Odd(v1, v2);
    if vEven.Void? || vOdd.Void? {
      if vEven.Void? && vOdd.Void? {
        dstGeoGrid.SetValue(Void, c, 0);
        dstGeoGrid.SetValue(Void, c, 1);
      } else {
        assert false;
      }
    } else {
      dstGeoGrid.SetValue(vEven, c, 0);
      dstGeoGrid.SetValue(vOdd, c, 1);
    }
  }

  /**
   * One iteration of the bottom-row loop of `expandBorderRows`: output rows
   * rows - 2 and rows - 1 of column c, or the exception of a partial triple.
   */
  method BottomTap(src: array2<Cell>, dstGeoGrid: Grid, c: int, ghost t: Raster) returns (ok: bool)
    requires t == RasterOf(src) && src.Length0 >= 2 && dstGeoGrid.Valid() && dstGeoGrid.Cols() <= src.Length1
    requires src != dstGeoGrid.data && 0 <= c < dstGeoGrid.Cols()
    modifies dstGeoGrid.data
    ensures ok <==> !BottomPartial(t, c)
    ensures ok ==> forall j, cc :: 0 <= j < dstGeoGrid.Rows() && 0 <= cc < dstGeoGrid.Cols() ==>
      dstGeoGrid.data[j, cc] ==
        if j >= dstGeoGrid.Rows() - 2 && cc == c then Pick(BottomPair(t, cc), j - (dstGeoGrid.Rows() - 2))
        else old(dstGeoGrid.data[j, cc])
  {
    var rows := dstGeoGrid.Rows();
    var dstGrid := dstGeoGrid.data;
    var v0 := src[src.Length0 - 2, c];
    var v1 := src[src.Length0 - 1, c];
    var v2 := v1;
    assert BottomPair(t, c) == Tap(v0, v1, v2);
    var vEven := Even(v0, v1, v2);
    var vOdd := Odd(v1, v2);
    if vEven.Void? || vOdd.Void? {
      if vEven.Void? && vOdd.Void? {
        dstGeoGrid.SetValue(Void, c, rows - 2);
        dstGeoGrid.SetValue(Void, c, rows - 1);
      } else {
        var written := ExpandWithVoid(dstGrid, dstGrid, c, rows - 2, false);
        assert !written;
        return false;
      }
    } else {
      dstGeoGrid.SetValue(vEven, c, rows - 2);
      dstGeoGrid.SetValue(vOdd, c, rows - 1);
    }
    return true;
  }

  /** One iteration of the interior horizontal loop of `expand`: source cell (c, r). */
  method HorizontalTap(grid: Grid, tempGrid: array2<Cell>, c: int, r: int)
    requires grid.Valid() && tempGrid.Length0 == grid.Rows() && tempGrid.Length1 == 2 * grid.Cols()
    requires 0 <= r < grid.Rows() && 1 <= c < grid.Cols() - 1
    modifies tempGrid
    ensures var p := Tap(grid.data[r, c - 1], grid.data[r, c], grid.data[r, c + 1]);
      tempGrid[r, 2 * c] == p.even && tempGrid[r, 2 * c + 1] == p.odd
    ensures forall i, k :: 0 <= i < tempGrid.Length0 && 0 <= k < tempGrid.Length1 && !(i == r && (k == 2 * c || k == 2 * c + 1)) ==>
      tempGrid[i, k] == old(tempGrid[i, k])
  {
    assert tempGrid != grid.data by {
      assert tempGrid.Length1 != grid.data.Length1;
    }
    var v0 := grid.data[r, c - 1];
    var v1 := grid.data[r, c];
    var v2 := grid.data[r, c + 1];
    var vEven := Even(v0, v1, v2);
    var vOdd := Odd(v1, v2);
    if vEven.Void? || vOdd.Void? {
      if vEven.Void? && vOdd.Void? {
        tempGrid[r, c * 2] := Void;
        tempGrid[r, c * 2 + 1] := Void;
      } else {
        var written := ExpandWithVoid(grid.data, tempGrid, c, r, true);
        assert written;
      }
    } else {
      tempGrid[r, c * 2] := vEven;
      tempGrid[r, c * 2 + 1] := vOdd;
    }
  }

  /** The horizontal tap of source cell (c, r), read from the array. */
  function HTapOf(a: array2<Cell>, r: int, c: int): Pair
    reads a
    requires 0 <= r < a.Length0 && 1 <= c < a.Length1 - 1
  {
    Tap(a[r, c - 1], a[r, c], a[r, c + 1])
  }

  /** The interior loop of the horizontal pass of `expand`, source columns 1 to cols - 2. */
  method ExpandInteriorColumns(grid: Grid, tempGrid: array2<Cell>)
    requires grid.Valid() && tempGrid.Length0 == grid.Rows() && tempGrid.Length1 == 2 * grid.Cols()
    modifies tempGrid
    ensures forall r, c :: 0 <= r < grid.Rows() && 1 <= c < grid.Cols() - 1 ==>
      tempGrid[r, 2 * c] == HPair(grid.Cells()[r], c).even && tempGrid[r, 2 * c + 1] == HPair(grid.Cells()[r], c).odd
    ensures forall r, k :: 0 <= r < grid.Rows() && 0 <= k < tempGrid.Length1 && (k < 2 || k >= tempGrid.Length1 - 2) ==>
      tempGrid[r, k] == old(tempGrid[r, k])
  {
    var cols := grid.Cols();
    var rows := grid.Rows();
    assert tempGrid != grid.data by {
      assert tempGrid.Length1 != grid.data.Length1;
    }
    var a := grid.data;
    for r := 0 to rows
      invariant forall r', c' :: 0 <= r' < r && 1 <= c' < cols - 1 ==>
        tempGrid[r', 2 * c'] == HTapOf(a, r', c').even && tempGrid[r', 2 * c' + 1] == HTapOf(a, r', c').odd
      invariant forall r', k :: 0 <= r' < rows && 0 <= k < 2 * cols && (k < 2 || k >= 2 * cols - 2) ==>
        tempGrid[r', k] == old(tempGrid[r', k])
    {
      for c := 1 to cols - 1
        invariant forall r', c' :: 0 <= r' < r && 1 <= c' < cols - 1 ==>
          tempGrid[r', 2 * c'] == HTapOf(a, r', c').even && tempGrid[r', 2 * c' + 1] == HTapOf(a, r', c').odd
        invariant forall c' :: 1 <= c' < c ==>
          tempGrid[r, 2 * c'] == HTapOf(a, r, c').even && tempGrid[r, 2 * c' + 1] == HTapOf(a, r, c').odd
        invariant forall r', k :: 0 <= r' < rows && 0 <= k < 2 * cols && (k < 2 || k >= 2 * cols - 2) ==>
          tempGrid[r', k] == old(tempGrid[r', k])
      {
        HorizontalTap(grid, tempGrid, c, r);
      }
    }
    forall r, c | 0 <= r < rows && 1 <= c < cols - 1
      ensures tempGrid[r, 2 * c] == HPair(grid.Cells()[r], c).even
      ensures tempGrid[r, 2 * c + 1] == HPair(grid.Cells()[r], c).odd
    {
      assert grid.Cells()[r][c - 1] == a[r, c - 1] && grid.Cells()[r][c] == a[r, c] && grid.Cells()[r][c + 1] == a[r, c + 1];
    }
  }

  /**
   * One iteration of the interior vertical loop of `expand`: intermediate
   * cell (c, r). The void branch passes column c / 2 to `expandWithVoid`.
   */
  method VerticalTap(tempGrid: array2<Cell>, expandedGrid: Grid, c: int, r: int, ghost t: Raster)
    requires t == RasterOf(tempGrid) && expandedGrid.Valid() && expandedGrid.Cols() <= tempGrid.Length1
    requires tempGrid != expandedGrid.data
    requires 1 <= r < tempGrid.Length0 - 1 && 2 * r + 1 < expandedGrid.Rows() && 0 <= c < expandedGrid.Cols()
    modifies expandedGrid.data
    ensures forall j, cc :: 0 <= j < expandedGrid.Rows() && 0 <= cc < expandedGrid.Cols() ==>
      expandedGrid.data[j, cc] ==
        if j == 2 * r || j == 2 * r + 1 then StepCell(t, r, c, cc, j - 2 * r, old(expandedGrid.data[j, cc]))
        else old(expandedGrid.data[j, cc])
  {
    var v0 := tempGrid[r - 1, c];
    var v1 := tempGrid[r, c];
    var v2 := tempGrid[r + 1, c];
    assert (v0, v1, v2) == VTriple(t, r, c);
    var vEven := Even(v0, v1, v2);
    var vOdd := Odd(v1, v2);
    if vEven.Void? || vOdd.Void? {
      if vEven.Void? && vOdd.Void? {
        expandedGrid.SetValue(Void, c, 2 * r);
        expandedGrid.SetValue(Void, c, 2 * r + 1);
      } else {
        assert VTriple(t, r, c / 2) == (tempGrid[r - 1, c / 2], tempGrid[r, c / 2], tempGrid[r + 1, c / 2]);
        var written := ExpandWithVoid(tempGrid, expandedGrid.data, c / 2, r, false);
        assert written;
      }
    } else {
      expandedGrid.SetValue(vEven, c, 2 * r);
      expandedGrid.SetValue(vOdd, c, 2 * r + 1);
    }
  }

  /**
   * The interior loop of the vertical pass of `expand`, intermediate rows 1
   * to rows - 2 writing output rows 2r and 2r + 1. An output row past the
   * last one is the exception of the code.
   */
  method ExpandInteriorRows(tempGrid: array2<Cell>, expandedGrid: Grid) returns (ok: bool)
    requires tempGrid.Length0 >= 3 && expandedGrid.Valid() && expandedGrid.Cols() <= tempGrid.Length1
    requires tempGrid != expandedGrid.data
    modifies expandedGrid.data
    ensures ok <==> 2 * tempGrid.Length0 - 3 < expandedGrid.Rows()
    ensures ok ==> forall j, cc :: 0 <= j < expandedGrid.Rows() && 0 <= cc < expandedGrid.Cols() ==>
      expandedGrid.data[j, cc] ==
        if 1 <= j / 2 < tempGrid.Length0 - 1
        then InteriorCell(RasterOf(tempGrid), j / 2, expandedGrid.Cols(), cc, j % 2, old(expandedGrid.data[j, cc]))
        else old(expandedGrid.data[j, cc])
  {
    var rows := tempGrid.Length0;
    var newCols := expandedGrid.Cols();
    var newRows := expandedGrid.Rows();
    var out := expandedGrid.data;
    ghost var t := RasterOf(tempGrid);
    for r := 1 to rows - 1
      invariant r == 1 || 2 * r - 1 < newRows
      invariant forall j, cc :: 0 <= j < newRows && 0 <= cc < newCols ==>
        out[j, cc] == if 2 <= j < 2 * r then InteriorCell(t, j / 2, newCols, cc, j % 2, old(out[j, cc])) else old(out[j, cc])
    {
      if 2 * r + 1 >= newRows {
        return false;
      }
      ExpandInteriorRow(tempGrid, expandedGrid, r, t);
    }
    return true;
  }

  /** One iteration of the outer vertical loop: output rows 2r and 2r + 1 from intermediate row r. */
  method ExpandInteriorRow(tempGrid: array2<Cell>, expandedGrid: Grid, r: int, ghost t: Raster)
    requires t == RasterOf(tempGrid) && expandedGrid.Valid() && expandedGrid.Cols() <= tempGrid.Length1
    requires tempGrid != expandedGrid.data
    requires 1 <= r < tempGrid.Length0 - 1 && 2 * r + 1 < expandedGrid.Rows()
    modifies expandedGrid.data
    ensures forall j, cc :: 0 <= j < expandedGrid.Rows() && 0 <= cc < expandedGrid.Cols() ==>
      expandedGrid.data[j, cc] ==
        if j == 2 * r || j == 2 * r + 1 then InteriorCell(t, r, expandedGrid.Cols(), cc, j - 2 * r, old(expandedGrid.data[j, cc]))
        else old(expandedGrid.data[j, cc])
  {
    var newCols := expandedGrid.Cols();
    var newRows := expandedGrid.Rows();
    var out := expandedGrid.data;
    for c := 0 to newCols
      invariant forall j, cc :: 0 <= j < newRows && 0 <= cc < newCols ==>
        out[j, cc] ==
          if j == 2 * r || j == 2 * r + 1 then InteriorCell(t, r, c, cc, j - 2 * r, old(out[j, cc]))
          else old(out[j, cc])
    {
      forall cc: int, k: int, prev: Cell | 0 <= cc
        ensures InteriorCell(t, r, c + 1, cc, k, prev) == StepCell(t, r, c, cc, k, InteriorCell(t, r, c, cc, k, prev))
      {
        InteriorStep(t, r, c, cc, k, prev);
      }
      VerticalTap(tempGrid, expandedGrid, c, r, t);
    }
  }

  /** Cell (r, k) of the intermediate grid is component k % 2 of the pair of source column k / 2. */
  lemma TempCellAt(s: Raster, cols: int, rows: int, tempGrid: array2<Cell>, r: int, k: int)
    requires cols >= 3 && IsRaster(s, cols, rows) && 0 <= r < rows && 0 <= k < 2 * cols
    requires tempGrid.Length0 == rows && tempGrid.Length1 == 2 * cols
    requires forall r, c :: 0 <= r < rows && 0 <= c < cols ==>
      tempGrid[r, 2 * c] == HPair(s[r], c).even && tempGrid[r, 2 * c + 1] == HPair(s[r], c).odd
    ensures tempGrid[r, k] == Pick(HPair(s[r], k / 2), k % 2)
  {
    var c := k / 2;
    if k % 2 == 0 {
      assert k == 2 * c;
    } else {
      assert k == 2 * c + 1;
    }
  }

  lemma TempRasterAt(s: Raster, cols: int, rows: int, r: int, k: int)
    requires cols >= 3 && IsRaster(s, cols, rows) && 0 <= r < rows && 0 <= k < 2 * cols
    ensures TempRaster(s, cols, rows)[r][k] == Pick(HPair(s[r], k / 2), k % 2)
  {
  }

  /** The horizontal pass has produced the intermediate grid of the specification. */
  lemma {:induction false} TempComplete(s: Raster, cols: int, rows: int, tempGrid: array2<Cell>)
    requires cols >= 3 && rows >= 0 && IsRaster(s, cols, rows)
    requires tempGrid.Length0 == rows && tempGrid.Length1 == 2 * cols
    requires forall r, c :: 0 <= r < rows && 0 <= c < cols ==>
      tempGrid[r, 2 * c] == HPair(s[r], c).even && tempGrid[r, 2 * c + 1] == HPair(s[r], c).odd
    ensures RasterOf(tempGrid) == TempRaster(s, cols, rows)
  {
    var t := TempRaster(s, cols, rows);
    forall r, k | 0 <= r < rows && 0 <= k < 2 * cols
      ensures tempGrid[r, k] == t[r][k]
    {
      TempCellAt(s, cols, rows, tempGrid, r, k);
      TempRasterAt(s, cols, rows, r, k);
    }
    RasterOfEq(tempGrid, t);
  }

  /** The horizontal pass of `expand`: border columns, then interior columns. */
  method ExpandHorizontal(grid: Grid, tempGrid: array2<Cell>) returns (ok: bool)
    requires grid.Valid() && tempGrid.Length0 == grid.Rows() && tempGrid.Length1 == 2 * grid.Cols()
    modifies tempGrid
    ensures ok <==> forall r :: 0 <= r < grid.Rows() ==> !RightPartial(grid.Cells()[r])
    ensures ok ==> RasterOf(tempGrid) == TempRaster(grid.Cells(), grid.Cols(), grid.Rows())
  {
    ok := ExpandBorderColumns(grid, tempGrid);
    if !ok {
      return;
    }
    ExpandInteriorColumns(grid, tempGrid);
    ghost var s := grid.Cells();
    ghost var cols := grid.Cols();
    forall r, c | 0 <= r < grid.Rows() && 0 <= c < cols
      ensures tempGrid[r, 2 * c] == HPair(s[r], c).even && tempGrid[r, 2 * c + 1] == HPair(s[r], c).odd
    {
      if c == 0 {
      } else if c == cols - 1 {
        assert 2 * c == 2 * (cols - 1);
      } else {
      }
    }
    TempComplete(s, cols, grid.Rows(), tempGrid);
  }

  /** The vertical pass of `expand`: border rows, then interior rows, into a new grid of zeros. */
  method ExpandVertical(tempGrid: array2<Cell>, expandedGrid: Grid) returns (ok: bool)
    requires tempGrid.Length0 >= 3 && expandedGrid.Valid() && expandedGrid.Cols() <= tempGrid.Length1
    requires tempGrid != expandedGrid.data
    requires forall j, cc :: 0 <= j < expandedGrid.Rows() && 0 <= cc < expandedGrid.Cols() ==> expandedGrid.data[j, cc] == Val(0.0)
    modifies expandedGrid.data
    ensures ok <==> (forall cc :: 0 <= cc < expandedGrid.Cols() ==> !BottomPartial(RasterOf(tempGrid), cc)) &&
                    2 * tempGrid.Length0 - 3 < expandedGrid.Rows()
    ensures ok ==> forall j, cc :: 0 <= j < expandedGrid.Rows() && 0 <= cc < expandedGrid.Cols() ==>
      expandedGrid.data[j, cc] == ExpandCell(RasterOf(tempGrid), expandedGrid.Cols(), expandedGrid.Rows(), j, cc)
  {
    ghost var t := RasterOf(tempGrid);
    ghost var newRows := expandedGrid.Rows();
    ok := ExpandBorderRows(tempGrid, expandedGrid);
    if !ok {
      return;
    }
    assert forall j, cc :: 0 <= j < newRows && 0 <= cc < expandedGrid.Cols() ==> expandedGrid.data[j, cc] == Base(t, newRows, j, cc);
    ok := ExpandInteriorRows(tempGrid, expandedGrid);
  }

  /** The cells the vertical pass leaves are those of the expanded raster. */
  lemma ExpandComplete(s: Raster, cols: int, rows: int, t: Raster, a: array2<Cell>)
    requires cols >= 2 && rows >= 2 && IsRaster(s, cols, rows)
    requires 0 <= a.Length1 <= 2 * cols && a.Length0 >= 2
    requires t == TempRaster(s, cols, rows)
    requires forall j, cc :: 0 <= j < a.Length0 && 0 <= cc < a.Length1 ==> a[j, cc] == ExpandCell(t, a.Length1, a.Length0, j, cc)
    ensures RasterOf(a) == ExpandRaster(s, cols, rows, a.Length1, a.Length0)
  {
    var m := ExpandRaster(s, cols, rows, a.Length1, a.Length0);
    forall j, cc | 0 <= j < a.Length0 && 0 <= cc < a.Length1
      ensures a[j, cc] == m[j][cc]
    {
    }
    RasterOfEq(a, m);
  }

  /** Both passes of `expand` into a new grid of zeros, through an intermediate grid. */
  method ExpandPasses(grid: Grid, expandedGrid: Grid) returns (ok: bool)
    requires grid.Valid() && expandedGrid.Valid()
    requires expandedGrid.Cols() <= 2 * grid.Cols() && expandedGrid.Rows() <= 2 * grid.Rows()
    requires expandedGrid.data != grid.data
    requires forall j, cc :: 0 <= j < expandedGrid.Rows() && 0 <= cc < expandedGrid.Cols() ==> expandedGrid.data[j, cc] == Val(0.0)
    modifies expandedGrid.data
    ensures ok <==> PassesSucceed(grid.Cells(), grid.Cols(), grid.Rows(), expandedGrid.Cols(), expandedGrid.Rows())
    ensures ok ==> (expandedGrid.Cells() ==
      ExpandRaster(grid.Cells(), grid.Cols(), grid.Rows(), expandedGrid.Cols(), expandedGrid.Rows()))
  {
    var cols := grid.Cols();
    var rows := grid.Rows();
    ghost var newCols, newRows := expandedGrid.Cols(), expandedGrid.Rows();
    ghost var s := grid.Cells();
    var tempGrid := new Cell[rows, cols * 2]((_, _) => Val(0.0));
    ok := ExpandHorizontal(grid, tempGrid);
    assert grid.Cells() == s;
    if !ok {
      return;
    }
    ghost var t := TempRaster(s, cols, rows);
    assert RasterOf(tempGrid) == t;
    ok := ExpandVertical(tempGrid, expandedGrid);
    assert grid.Cells() == s;
    assert RasterOf(tempGrid) == t;
    if !ok {
      return;
    }
    ExpandComplete(s, cols, rows, t, expandedGrid.data);
  }

  /**
   * `expand`: a grid of min(maxCols, 2 cols) by min(maxRows, 2 rows) cells
   * with half the cell size, or the exception the code ends with.
   */
  method Expand(grid: Grid, maxCols: int, maxRows: int) returns (res: Result<Grid, Failure>)
    requires grid.Valid()
    ensures res.Failure? <==> ExpandError(grid.Snapshot(), maxCols, maxRows).Some?
    ensures res.Failure? ==> res.error == ExpandError(grid.Snapshot(), maxCols, maxRows).value
    ensures res.Success? ==> fresh(res.value) && fresh(res.value.data) && res.value.Valid()
    ensures res.Success? ==> res.value.Snapshot() == ExpandValue(grid.Snapshot(), maxCols, maxRows)
  {
    ghost var v := grid.Snapshot();
    var cols := grid.Cols();
    var rows := grid.Rows();
    var newCols := Min(maxCols, cols * 2);
    var newRows := Min(maxRows, rows * 2);
    var created := Grid.Create(newCols, newRows, grid.cellSize / 2.0);
    if created.Failure? {
      return Failure(created.error);
    }
    var expandedGrid := created.value;
    var ok := ExpandPasses(grid, expandedGrid);
    if !ok {
      ExpandErrorIndex(v, maxCols, maxRows);
      return Failure(IndexOutOfBounds);
    }
    ExpandErrorNone(v, maxCols, maxRows);
    return Success(expandedGrid);
  }

  /** `difGrids`: a new grid holding `grid1 - grid2` cell by cell. */
  method DifGrids(grid1: Grid, grid2: Grid?) returns (res: Result<Grid, Failure>)
    requires grid1.Valid() && (grid2 != null ==> grid2.Valid())
    ensures res.Failure? <==> !grid1.IsIdenticalInSize(grid2)
    ensures res.Failure? ==> res.error == IllegalArgument("grids of different size")
    ensures res.Success? ==> grid2 != null && fresh(res.value) && fresh(res.value.data) && res.value.Valid()
    ensures res.Success? ==> res.value.Snapshot() == DifValue(grid1.Snapshot(), grid2.Snapshot())
  {
    if !grid1.IsIdenticalInSize(grid2) {
      return Failure(IllegalArgument("grids of different size"));
    }
    var cols := grid1.Cols();
    var rows := grid1.Rows();
    var difGrid := new Grid(cols, rows, grid1.cellSize);
    for r := 0 to rows
      invariant difGrid.west == 0.0 && difGrid.south == 0.0
      invariant forall r', c :: 0 <= r' < r && 0 <= c < cols ==>
        difGrid.data[r', c] == Sub(grid1.data[r', c], grid2.data[r', c])
    {
      for c := 0 to cols
        invariant difGrid.west == 0.0 && difGrid.south == 0.0
        invariant forall r', c' :: 0 <= r' < r && 0 <= c' < cols ==>
          difGrid.data[r', c'] == Sub(grid1.data[r', c'], grid2.data[r', c'])
        invariant forall c' :: 0 <= c' < c ==> difGrid.data[r, c'] == Sub(grid1.data[r, c'], grid2.data[r, c'])
      {
        var v1 := grid1.Value(c, r);
        var v2 := grid2.Value(c, r);
        difGrid.SetValue(Sub(v1, v2), c, r);
      }
    }
    RasterOfEq(difGrid.data, DifRaster(grid1.Cells(), grid2.Cells(), cols, rows));
    return Success(difGrid);
  }

  /** The values of the grids of a pyramid, `None` for a null entry. */
  ghost function Values(ls: seq<Grid?>): (os: seq<Option<GridValue>>)
    reads ls, set g | g in ls && g != null :: g.data
    ensures |os| == |ls|
    ensures forall i :: 0 <= i < |ls| ==> (os[i].Some? <==> ls[i] != null)
    ensures forall i :: 0 <= i < |ls| && ls[i] != null ==> os[i] == Some(ls[i].Snapshot())
  {
    seq(|ls|, (i: int) requires 0 <= i < |ls| reads ls, set g | g in ls && g != null :: g.data => if ls[i] == null then None else Some(ls[i].Snapshot()))
  }

  /** The value of a nullable grid. */
  ghost function ValueOf(g: Grid?): (o: Option<GridValue>)
    reads g, if g == null then {} else {g.data}
    ensures o.Some? <==> g != null
    ensures g != null ==> o.value == g.Snapshot()
  {
    if g == null then None else Some(g.Snapshot())
  }

  /**
   * `sums[k]` is the outcome of `sumLevels` once level k has been added. The
   * link to the specification is only used where `SumFrom` itself is named.
   */
  ghost predicate SumsOf(os: seq<Option<GridValue>>, weights: Option<seq<real>>, sums: seq<Result<GridValue, Failure>>) {
    LevelsValid(os) && |sums| == |os| &&
    forall k {:trigger SumFrom(os, weights, k)} :: 0 <= k < |os| ==> sums[k] == SumFrom(os, weights, k)
  }

  /** The values of the levels of a Gaussian pyramid. */
  ghost function GridValues(gs: seq<Grid>): (vs: seq<GridValue>)
    reads gs, set g | g in gs :: g.data
    ensures |vs| == |gs| && forall i :: 0 <= i < |gs| ==> vs[i] == gs[i].Snapshot()
  {
    seq(|gs|, (i: int) requires 0 <= i < |gs| reads gs, set g | g in gs :: g.data => gs[i].Snapshot())
  }

  /**
   * One iteration of the loop of `createPyramid`: level i expanded to the
   * shape of level i - 1 and subtracted from it.
   */
  method LaplacianStep(nextLargerGrid: Grid, grid: Grid) returns (res: Result<Grid, Failure>)
    requires nextLargerGrid.Valid() && grid.Valid()
    ensures res.Failure? <==> DifStepError(nextLargerGrid.Snapshot(), grid.Snapshot()).Some?
    ensures res.Failure? ==> res.error == DifStepError(nextLargerGrid.Snapshot(), grid.Snapshot()).value
    ensures res.Success? ==> (fresh(res.value) && fresh(res.value.data) && res.value.Valid() &&
      res.value.Snapshot() == DifStep(nextLargerGrid.Snapshot(), grid.Snapshot()))
  {
    var expanded := Expand(grid, nextLargerGrid.Cols(), nextLargerGrid.Rows());
    if expanded.Failure? {
      return Failure(expanded.error);
    }
    res := DifGrids(nextLargerGrid, expanded.value);
  }

  /**
   * The levels of a Laplacian pyramid after the loop of `createPyramid` has
   * filled what it reached: one entry per Gaussian level, the last one the
   * coarsest Gaussian grid itself, and entry j set exactly when the
   * iterations down to j + 1 have not failed, to the difference of level j
   * and the expansion of level j + 1.
   */
  ghost predicate LevelsBuilt(ls: seq<Grid?>, gaussianPyramid: seq<Grid>, gs: seq<GridValue>)
    reads ls, set g | g in ls && g != null :: g.data
  {
    AllValid(gs) && |gs| == |gaussianPyramid| && |ls| == |gs| &&
    (|gs| > 0 ==> ls[|gs| - 1] == gaussianPyramid[|gs| - 1] && gs[|gs| - 1] == ls[|gs| - 1].Snapshot()) &&
    (forall j :: 0 <= j < |gs| - 1 ==> (ls[j] == null <==> LevelsError(gs, j + 1).Some?)) &&
    (forall j :: 0 <= j < |gs| - 1 && ls[j] != null ==> LevelAt(ls[j], gs, j))
  }

  /** `g` holds level j of the Laplacian pyramid of `gs`, below its coarsest level. */
  ghost predicate LevelAt(g: Grid?, gs: seq<GridValue>, j: int)
    reads g, if g == null then {} else {g.data}
  {
    AllValid(gs) && 0 <= j < |gs| - 1 && g != null && g.Valid() &&
    StepError(gs, j + 1).None? && g.Snapshot() == LaplacianLevel(gs, j)
  }

  /**
   * The state of the loop of `createPyramid` before iteration i: the
   * iterations above i have succeeded and filled entries i to |gs| - 2.
   */
  ghost predicate Filled(ls: seq<Grid?>, gaussianPyramid: seq<Grid>, gs: seq<GridValue>, i: int)
    reads ls, set g | g in ls && g != null :: g.data
  {
    AllValid(gs) && |gs| == |gaussianPyramid| && 0 <= i < |gs| && |ls| == |gs| &&
    ls[|gs| - 1] == gaussianPyramid[|gs| - 1] && gs[|gs| - 1] == ls[|gs| - 1].Snapshot() &&
    LevelsError(gs, i + 1).None? &&
    (forall j :: 0 <= j < |gs| - 1 ==> (ls[j] == null <==> j < i)) &&
    (forall j :: i <= j < |gs| - 1 ==> LevelAt(ls[j], gs, j))
  }

  /** The loop stops at an iteration that fails, with that iteration's exception. */
  lemma FilledFails(ls: seq<Grid?>, gaussianPyramid: seq<Grid>, gs: seq<GridValue>, i: int)
    requires Filled(ls, gaussianPyramid, gs, i) && i >= 1 && StepError(gs, i).Some?
    ensures Created(ls, gaussianPyramid, gs, StepError(gs, i))
  {
    LevelsErrorPropagates(gs, i, 1);
    LevelsErrorNoneFrom(gs, i + 1);
    forall k | 1 <= k < i
      ensures LevelsError(gs, k).Some?
    {
      LevelsErrorPropagates(gs, i, k);
    }
  }

  /** A successful iteration fills one more entry. */
  lemma FilledStep(ls: seq<Grid?>, gaussianPyramid: seq<Grid>, gs: seq<GridValue>, i: int, dif: Grid)
    requires Filled(ls, gaussianPyramid, gs, i) && i >= 1 && StepError(gs, i).None?
    requires dif.Valid() && dif.Snapshot() == LaplacianLevel(gs, i - 1)
    ensures Filled(ls[i - 1 := dif], gaussianPyramid, gs, i - 1)
  {
    var ls' := ls[i - 1 := dif];
    assert forall j :: i <= j < |gs| - 1 ==> ls'[j] == ls[j];
  }

  /** The loop that has run all its iterations has built every level. */
  lemma FilledComplete(ls: seq<Grid?>, gaussianPyramid: seq<Grid>, gs: seq<GridValue>)
    requires Filled(ls, gaussianPyramid, gs, 0)
    ensures Created(ls, gaussianPyramid, gs, None)
  {
    LevelsErrorNoneFrom(gs, 1);
    BuiltValues(ls, gaussianPyramid, gs);
  }

  /** Iteration i of the loop of `createPyramid`: the entry it fills, or the exception it ends with. */
  method FillLevel(gaussianPyramid: seq<Grid>, ghost gs: seq<GridValue>, ls: seq<Grid?>, i: int) returns (dif: Grid?, err: Option<Failure>)
    requires Filled(ls, gaussianPyramid, gs, i) && i >= 1
    requires forall k :: 0 <= k < |gaussianPyramid| ==> gaussianPyramid[k].Valid() && gs[k] == gaussianPyramid[k].Snapshot()
    ensures err.Some? ==> Created(ls, gaussianPyramid, gs, err)
    ensures err.None? ==> dif != null && fresh(dif) && fresh(dif.data) && Filled(ls[i - 1 := dif], gaussianPyramid, gs, i - 1)
  {
    var res := LaplacianStep(gaussianPyramid[i - 1], gaussianPyramid[i]);
    if res.Failure? {
      FilledFails(ls, gaussianPyramid, gs, i);
      return null, Some(res.error);
    }
    FilledStep(ls, gaussianPyramid, gs, i, res.value);
    return res.value, None;
  }

  /** The loop of `createPyramid`, from the coarsest level down. */
  method BuildLevels(gaussianPyramid: seq<Grid>, ghost gs: seq<GridValue>) returns (ls: seq<Grid?>, err: Option<Failure>)
    requires |gs| == |gaussianPyramid|
    requires forall i :: 0 <= i < |gaussianPyramid| ==> gaussianPyramid[i].Valid() && gs[i] == gaussianPyramid[i].Snapshot()
    ensures Created(ls, gaussianPyramid, gs, err)
    ensures forall j :: 0 <= j < |ls| && ls[j] != null && j < |gaussianPyramid| - 1 ==> fresh(ls[j]) && fresh(ls[j].data)
  {
    var n := |gaussianPyramid|;
    ls := seq(n, _ => null);
    if n == 0 {
      return ls, Some(IndexOutOfBounds);
    }
    ls := ls[n - 1 := gaussianPyramid[n - 1]];
    var i := n - 1;
    while i > 0
      invariant Filled(ls, gaussianPyramid, gs, i)
      invariant forall j :: i <= j < n - 1 ==> fresh(ls[j]) && fresh(ls[j].data)
    {
      var dif;
      dif, err := FillLevel(gaussianPyramid, gs, ls, i);
      if err.Some? {
        return ls, err;
      }
      ls := ls[i - 1 := dif];
      i := i - 1;
    }
    FilledComplete(ls, gaussianPyramid, gs);
    return ls, None;
  }

  /**
   * What `createPyramid` leaves behind: the levels as `LevelsBuilt` says,
   * the exception of the specification, and without an exception the values
   * of the Laplacian levels.
   */
  ghost predicate Created(ls: seq<Grid?>, gaussianPyramid: seq<Grid>, gs: seq<GridValue>, err: Option<Failure>)
    reads ls, set g | g in ls && g != null :: g.data
  {
    AllValid(gs) && err == CreateError(gs) && LevelsBuilt(ls, gaussianPyramid, gs) &&
    (err.None? ==> Values(ls) == Present(LaplacianLevels(gs)))
  }

  /**
   * `createPyramid` on values: the levels `os` hold the coarsest Gaussian
   * level at the end and, below it, null exactly where an iteration at or
   * above that entry has failed and the Laplacian level otherwise.
   */
  ghost predicate CreatedValues(os: seq<Option<GridValue>>, gs: seq<GridValue>, err: Option<Failure>) {
    AllValid(gs) && err == CreateError(gs) && |os| == |gs| &&
    (|gs| > 0 ==> os[|gs| - 1] == Some(gs[|gs| - 1])) &&
    (forall j :: 0 <= j < |gs| - 1 ==> (os[j].None? <==> LevelsError(gs, j + 1).Some?)) &&
    (forall j :: 0 <= j < |gs| - 1 && os[j].Some? ==> StepError(gs, j + 1).None? && os[j].value == LaplacianLevel(gs, j)) &&
    (err.None? ==> os == Present(LaplacianLevels(gs)))
  }

  lemma CreatedHasValues(ls: seq<Grid?>, gaussianPyramid: seq<Grid>, gs: seq<GridValue>, err: Option<Failure>)
    requires Created(ls, gaussianPyramid, gs, err)
    ensures CreatedValues(Values(ls), gs, err)
    ensures forall j :: 0 <= j < |ls| && ls[j] != null ==> ls[j].Valid()
  {
    var os := Values(ls);
    forall j | 0 <= j < |gs| - 1 && os[j].Some?
      ensures StepError(gs, j + 1).None? && os[j].value == LaplacianLevel(gs, j)
    {
      assert LevelAt(ls[j], gs, j);
    }
  }

  /** Levels built without an exception hold the values of the Laplacian levels. */
  lemma BuiltValues(ls: seq<Grid?>, gaussianPyramid: seq<Grid>, gs: seq<GridValue>)
    requires LevelsBuilt(ls, gaussianPyramid, gs) && CreateError(gs).None?
    ensures Values(ls) == Present(LaplacianLevels(gs))
  {
    LevelsErrorNoneFrom(gs, 1);
    var ll := LaplacianLevels(gs);
    assert forall j :: 0 <= j < |gs| ==> Values(ls)[j] == Present(ll)[j];
  }

  class LaplacianPyramid {
    /** The levels, finest first; `None` until `createPyramid` has run. */
    var levels: Option<seq<Grid?>>
    /** The weights to merge levels; `None` until `setWeights` has run. */
    var w: Option<seq<real>>

    constructor ()
      ensures levels == None && w == None
    {
      levels := None;
      w := None;
    }

    /**
     * `createPyramid`: `levels` gets one entry per Gaussian level, filled
     * from the coarse end. Its last entry is the coarsest Gaussian grid
     * itself; an exception leaves the entries not yet reached null.
     */
    method CreatePyramid(gaussianPyramid: seq<Grid>) returns (err: Option<Failure>)
      requires forall i :: 0 <= i < |gaussianPyramid| ==> gaussianPyramid[i].Valid()
      modifies this
      ensures w == old(w) && levels.Some? && |levels.value| == |gaussianPyramid|
      ensures |gaussianPyramid| > 0 ==> levels.value[|gaussianPyramid| - 1] == gaussianPyramid[|gaussianPyramid| - 1]
      ensures forall j :: 0 <= j < |levels.value| && levels.value[j] != null ==> levels.value[j].Valid()
      ensures forall j :: 0 <= j < |levels.value| - 1 && levels.value[j] != null ==> fresh(levels.value[j]) && fresh(levels.value[j].data)
      ensures CreatedValues(Values(levels.value), old(GridValues(gaussianPyramid)), err)
    {
      ghost var gs := GridValues(gaussianPyramid);
      var ls;
      ls, err := BuildLevels(gaussianPyramid, gs);
      CreatedHasValues(ls, gaussianPyramid, gs, err);
      ghost var os := Values(ls);
      levels := Some(ls);
      assert Values(levels.value) == os;
    }

    /** `setWeights`: a copy of the caller's array. */
    method SetWeights(weights: array<real>)
      modifies this
      ensures w == Some(weights[..]) && levels == old(levels)
    {
      w := Some(weights[..]);
    }

    /**
     * `sumGrids`: adds `highFreq * scale` into `lowFreqSum` in place. Each
     * cell is read before it is written, so the two may share their cells.
     */
    method SumGrids(lowFreqSum: Grid, highFreq: Grid?, scale: real) returns (err: Option<Failure>)
      requires lowFreqSum.Valid() && (highFreq != null ==> highFreq.Valid())
      modifies lowFreqSum.data
      ensures err.Some? <==> !lowFreqSum.IsIdenticalInSize(highFreq)
      ensures err.Some? ==> err.value == IllegalArgument("grids of different size cannot be summed")
      ensures err.Some? ==> unchanged(lowFreqSum.data)
      ensures err.None? ==> (highFreq != null && lowFreqSum.Cells() ==
        SumRaster(old(lowFreqSum.Cells()), old(highFreq.Cells()), lowFreqSum.Cols(), lowFreqSum.Rows(), scale))
      ensures err.None? && highFreq.data != lowFreqSum.data ==> unchanged(highFreq.data)
    {
      if !lowFreqSum.IsIdenticalInSize(highFreq) {
        return Some(IllegalArgument("grids of different size cannot be summed"));
      }
      var cols := lowFreqSum.Cols();
      var rows := lowFreqSum.Rows();
      ghost var a := lowFreqSum.Cells();
      ghost var b := highFreq.Cells();
      for r := 0 to rows
        invariant forall r', c :: 0 <= r' < r && 0 <= c < cols ==>
          lowFreqSum.data[r', c] == Add(a[r'][c], Scale(b[r'][c], scale))
        invariant forall r', c :: r <= r' < rows && 0 <= c < cols ==>
          lowFreqSum.data[r', c] == a[r'][c] && highFreq.data[r', c] == b[r'][c]
        invariant highFreq.data != lowFreqSum.data ==> unchanged(highFreq.data)
      {
        SumRow(lowFreqSum, highFreq, scale, r);
      }
      RasterOfEq(lowFreqSum.data, SumRaster(a, b, cols, rows, scale));
      return None;
    }

    /** One iteration of the outer loop of `sumGrids`: row r, each cell read before it is written. */
    method SumRow(lowFreqSum: Grid, highFreq: Grid, scale: real, r: int)
      requires lowFreqSum.Valid() && highFreq.Valid() && lowFreqSum.IsIdenticalInSize(highFreq)
      requires 0 <= r < lowFreqSum.Rows()
      modifies lowFreqSum.data
      ensures forall c :: 0 <= c < lowFreqSum.Cols() ==>
        lowFreqSum.data[r, c] == Add(old(lowFreqSum.data[r, c]), Scale(old(highFreq.data[r, c]), scale))
      ensures forall r', c :: 0 <= r' < lowFreqSum.Rows() && 0 <= c < lowFreqSum.Cols() && r' != r ==>
        lowFreqSum.data[r', c] == old(lowFreqSum.data[r', c])
      ensures highFreq.data != lowFreqSum.data ==> unchanged(highFreq.data)
    {
      var cols := lowFreqSum.Cols();
      for c := 0 to cols
        invariant forall c' :: 0 <= c' < c ==>
          lowFreqSum.data[r, c'] == Add(old(lowFreqSum.data[r, c']), Scale(old(highFreq.data[r, c']), scale))
        invariant forall r', c' :: 0 <= r' < lowFreqSum.Rows() && 0 <= c' < cols && (r' != r || c' >= c) ==>
          lowFreqSum.data[r', c'] == old(lowFreqSum.data[r', c']) && highFreq.data[r', c'] == old(highFreq.data[r', c'])
        invariant highFreq.data != lowFreqSum.data ==> unchanged(highFreq.data)
      {
        var g1 := lowFreqSum.data[r, c];
        var g2 := highFreq.data[r, c];
        lowFreqSum.SetValue(Add(g1, Scale(g2, scale)), c, r);
      }
    }

    /**
     * `sumLevels`: a copy of the coarsest level, then for each finer level
     * expand the running sum to its shape and add it with its weight.
     */
    method SumLevels() returns (res: Result<Grid, Failure>)
      requires levels.Some? ==> forall j :: 0 <= j < |levels.value| && levels.value[j] != null ==> levels.value[j].Valid()
      ensures levels.None? ==> res == Failure(NullPointer)
      ensures levels.Some? ==> LevelsValid(old(Values(levels.value)))
      ensures levels.Some? ==> (res.Failure? <==> SumLevelsValue(old(Values(levels.value)), w).Failure?)
      ensures levels.Some? && res.Failure? ==> res.error == SumLevelsValue(old(Values(levels.value)), w).error
      ensures res.Success? ==> (levels.Some? && fresh(res.value) && fresh(res.value.data) && res.value.Valid() &&
        res.value.Snapshot() == SumLevelsValue(old(Values(levels.value)), w).value)
    {
      if levels.None? {
        return Failure(NullPointer);
      }
      res := SumValues(levels.value, Values(levels.value), w);
    }

    /**
     * The computation of `sumLevels` on the levels `ls`, whose values are `os`:
     * a copy of the coarsest level, then for each finer level the running sum
     * expanded to its shape plus the level times its weight.
     */
    method SumValues(ls: seq<Grid?>, ghost os: seq<Option<GridValue>>, weights: Option<seq<real>>)
        returns (res: Result<Grid, Failure>)
      requires forall j :: 0 <= j < |ls| && ls[j] != null ==> ls[j].Valid()
      requires os == Values(ls)
      ensures LevelsValid(os)
      ensures res.Failure? <==> SumLevelsValue(os, weights).Failure?
      ensures res.Failure? ==> res.error == SumLevelsValue(os, weights).error
      ensures res.Success? ==> (fresh(res.value) && fresh(res.value.data) && res.value.Valid() &&
        res.value.Snapshot() == SumLevelsValue(os, weights).value)
    {
      var n := |ls|;
      if n == 0 {
        return Failure(IndexOutOfBounds);
      }
      if ls[n - 1] == null {
        SumFromPropagates(os, weights, n - 1, 0);
        return Failure(NullPointer);
      }
      var sum := new Grid.Copy(ls[n - 1]);
      ghost var sums := seq(n, k requires 0 <= k < n => SumFrom(os, weights, k));
      res := AddFinerLevels(ls, os, weights, sums, sum, n - 1);
    }

    /**
     * The loop of `sumLevels` from level `next - 1` down to level 0, with
     * `sum` the running sum of the levels from `next` up. `sums[k]` is the
     * outcome of the sum once level k has been added.
     */
    method AddFinerLevels(ls: seq<Grid?>, ghost os: seq<Option<GridValue>>, weights: Option<seq<real>>,
                          ghost sums: seq<Result<GridValue, Failure>>, sum: Grid, next: int)
        returns (res: Result<Grid, Failure>)
      requires SumsOf(os, weights, sums) && |ls| == |os| && 0 <= next < |ls|
      requires forall j :: 0 <= j < next ==> ValueOf(ls[j]) == os[j]
      requires forall j :: 0 <= j < next && ls[j] != null ==> ls[j].Valid()
      requires sum.Valid() && sums[next] == Success(sum.Snapshot())
      ensures res.Failure? <==> sums[0].Failure?
      ensures res.Failure? ==> res.error == sums[0].error
      ensures res.Success? ==> ((res.value == sum || fresh(res.value)) && (res.value.data == sum.data || fresh(res.value.data)) &&
        res.value.Valid() && sums[0] == Success(res.value.Snapshot()))
    {
      var acc := sum;
      var i := next - 1;
      while i >= 0
        invariant -1 <= i < next
        invariant forall j :: 0 <= j <= i ==> ValueOf(ls[j]) == os[j]
        invariant acc == sum || fresh(acc)
        invariant acc.data == sum.data || fresh(acc.data)
        invariant acc.Valid() && sums[i + 1] == Success(acc.Snapshot())
        decreases i
      {
        var step := AddLevelAt(os, weights, sums, acc, ls[i], i);
        if step.Failure? {
          return Failure(step.error);
        }
        acc := step.value;
        i := i - 1;
      }
      return Success(acc);
    }

    /** Iteration i of the loop of `sumLevels`, stated against the sums of the levels. */
    method AddLevelAt(ghost os: seq<Option<GridValue>>, weights: Option<seq<real>>, ghost sums: seq<Result<GridValue, Failure>>,
                      acc: Grid, grid: Grid?, i: int)
        returns (res: Result<Grid, Failure>)
      requires SumsOf(os, weights, sums) && 0 <= i < |os| - 1 && ValueOf(grid) == os[i]
      requires acc.Valid() && sums[i + 1] == Success(acc.Snapshot())
      requires grid != null ==> grid.Valid()
      ensures res.Failure? ==> sums[0] == Failure(res.error)
      ensures res.Success? ==> fresh(res.value) && fresh(res.value.data) && res.value.Valid() && sums[i] == Success(res.value.Snapshot())
    {
      assert SumFrom(os, weights, i + 1) == sums[i + 1];
      res := AddLevel(acc, grid, weights, i);
      if res.Failure? {
        SumFromFails(os, weights, acc.Snapshot(), i, ValueOf(grid));
        assert SumFrom(os, weights, 0) == sums[0];
      } else {
        SumFromNext(os, weights, acc.Snapshot(), i, ValueOf(grid), res.value.Snapshot());
        assert SumFrom(os, weights, i) == sums[i];
      }
    }

    /** The body of the loop of `sumLevels` for level i. */
    method AddLevel(sum: Grid, grid: Grid?, weights: Option<seq<real>>, i: int) returns (res: Result<Grid, Failure>)
      requires sum.Valid() && (grid != null ==> grid.Valid()) && i >= 0
      ensures res.Failure? <==> SumStep(sum.Snapshot(), ValueOf(grid), weights, i).Failure?
      ensures res.Failure? ==> res.error == SumStep(sum.Snapshot(), ValueOf(grid), weights, i).error
      ensures res.Success? ==> (fresh(res.value) && fresh(res.value.data) && res.value.Valid() &&
        res.value.Snapshot() == SumStep(sum.Snapshot(), ValueOf(grid), weights, i).value)
    {
      if grid == null {
        return Failure(NullPointer);
      }
      var expanded := Expand(sum, grid.Cols(), grid.Rows());
      if expanded.Failure? {
        return Failure(expanded.error);
      }
      var next := expanded.value;
      var weight: real;
      if weights.None? {
        weight := 1.0;
      } else if i >= |weights.value| {
        return Failure(IndexOutOfBounds);
      } else {
        weight := weights.value[i];
      }
      var err := SumGrids(next, grid, weight);
      if err.Some? {
        return Failure(err.value);
      }
      return Success(next);
    }
  }
}
