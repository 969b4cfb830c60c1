/**
 * What `LaplacianPyramid.expand` computes, as functions on rasters.
 *
 * Expansion doubles a grid in two separable passes. The horizontal pass turns
 * each source cell into an even and an odd output column, the vertical pass
 * turns each row of that intermediate grid into an even and an odd output
 * row. Each pair of outputs comes from three taps v0, v1, v2 around the
 * source cell, with the edge value replicated at the borders; the void-aware
 * branch of the code renormalises the weights of the valid taps.
 *
 * The functions below follow the code as written, including the placement
 * of the last two output rows and the column used by the void branch of the
 * vertical pass.
 */
module ExpandSpec {
  import opened Wrappers
  import opened Cells
  import opened Grids

  /** Filter weights of the even and odd taps. */
  const WA: real := 0.4
  const WB: real := 0.25
  const WC: real := 0.05

  /** The even and the odd output of one tap triple. */
  datatype Pair = Pair(even: Cell, odd: Cell)

  /** Component 0 (even) or 1 (odd) of a pair. */
  function Pick(p: Pair, k: int): Cell {
    if k == 0 then p.even else p.odd
  }

  function Min(a: int, b: int): (m: int)
    ensures m <= a && m <= b && (m == a || m == b)
  {
    if a <= b then a else b
  }

  /** The even output `2 (wc (v0 + v2) + wa v1)`, void when any tap is void. */
  function Even(v0: Cell, v1: Cell, v2: Cell): (e: Cell)
    ensures e.Val? <==> v0.Val? && v1.Val? && v2.Val?
  {
    if v0.Val? && v1.Val? && v2.Val? then Val(2.0 * (WC * (v0.r + v2.r) + WA * v1.r)) else Void
  }

  /** The odd output `2 wb (v1 + v2)`, void when v1 or v2 is void. */
  function Odd(v1: Cell, v2: Cell): (o: Cell)
    ensures o.Val? <==> v1.Val? && v2.Val?
  {
    if v1.Val? && v2.Val? then Val(2.0 * WB * (v1.r + v2.r)) else Void
  }

  /**
   * The case the code hands to `expandWithVoid`: the even output is void
   * but the odd one is not.
   */
  predicate IsPartial(v0: Cell, v1: Cell, v2: Cell) {
    Even(v0, v1, v2).Void? && Odd(v1, v2).Val?
  }

  lemma PartialMeansOnlyFirstVoid(v0: Cell, v1: Cell, v2: Cell)
    ensures IsPartial(v0, v1, v2) <==> v0.Void? && v1.Val? && v2.Val?
  {
  }

  /** Weight and weighted value of one tap, zero for a void tap. */
  function Term(v: Cell, w: real): real {
    if v.Val? then w * v.r else 0.0
  }

  function Weight(v: Cell, w: real): real {
    if v.Val? then w else 0.0
  }

  /**
   * `expandWithVoid`: the weighted sums over the valid taps only, rescaled
   * so that the weights of the even and of the odd output keep their full
   * totals `2 wc + wa` and `2 wb`. A zero total weight gives void.
   */
  function WithVoid(v0: Cell, v1: Cell, v2: Cell): (p: Pair)
    ensures p.even.Val? <==> v0.Val? || v1.Val? || v2.Val?
    ensures p.odd.Val? <==> v1.Val? || v2.Val?
    ensures v0.Val? && v1.Val? && v2.Val? ==> p == Pair(Even(v0, v1, v2), Odd(v1, v2))
    ensures v0.Void? && v1.Val? && v2.Val? ==>
      p == Pair(Val(2.0 * (WA * v1.r + WC * v2.r) * ((2.0 * WC + WA) / (WA + WC))), Odd(v1, v2))
  {
    var evenSum := Term(v0, WC) + Term(v1, WA) + Term(v2, WC);
    var evenTot := Weight(v0, WC) + Weight(v1, WA) + Weight(v2, WC);
    var oddSum := Term(v1, WB) + Term(v2, WB);
    var oddTot := Weight(v1, WB) + Weight(v2, WB);
    var even := if evenTot == 0.0 then Void else Val(evenSum * (2.0 * ((WC * 2.0 + WA) / evenTot)));
    var odd := if oddTot == 0.0 then Void else Val(oddSum * (2.0 * (WB * 2.0 / oddTot)));
    Pair(even, odd)
  }

  /**
   * One tap triple as the expansion loops treat it: plain outputs when they
   * are both valid or both void, `expandWithVoid` otherwise.
   */
  function Tap(v0: Cell, v1: Cell, v2: Cell): (p: Pair)
    ensures p.even.Val? <==> v1.Val? && v2.Val?
    ensures p.odd.Val? <==> v1.Val? && v2.Val?
    ensures v0.Val? && v1.Val? && v2.Val? ==>
      p == Pair(Val(2.0 * (WC * (v0.r + v2.r) + WA * v1.r)), Val(2.0 * WB * (v1.r + v2.r)))
  {
    if IsPartial(v0, v1, v2) then WithVoid(v0, v1, v2) else Pair(Even(v0, v1, v2), Odd(v1, v2))
  }

  /** The filter keeps a constant signal constant: the weights of each output sum to one. */
  lemma TapConstant(k: real)
    ensures Tap(Val(k), Val(k), Val(k)) == Pair(Val(k), Val(k))
  {
  }

  /** Renormalisation: a constant signal stays constant when the first tap is void. */
  lemma {:induction false} WithVoidConstant(k: real)
    ensures WithVoid(Void, Val(k), Val(k)) == Pair(Val(k), Val(k))
  {
    var p := WithVoid(Void, Val(k), Val(k));
    assert p.even == Val(2.0 * (WA * k + WC * k) * ((2.0 * WC + WA) / (WA + WC)));
    assert (2.0 * WC + WA) / (WA + WC) == 0.5 / 0.45;
    assert 2.0 * (WA * k + WC * k) == 0.9 * k;
  }

  /** The horizontal tap triple of source column c, edge value replicated. */
  function HPair(row: seq<Cell>, c: int): Pair
    requires 0 <= c < |row|
  {
    Tap(row[ClampPrev(c)], row[c], row[ClampNext(c, |row|)])
  }

  /** The right-border triple that makes the code index past the source row. */
  predicate RightPartial(row: seq<Cell>)
    requires |row| >= 2
  {
    IsPartial(row[|row| - 2], row[|row| - 1], row[|row| - 1])
  }

  /** The left-border triple replicates v1 into v0, so it is never partial. */
  lemma LeftNeverPartial(row: seq<Cell>)
    requires |row| >= 2
    ensures !IsPartial(row[0], row[0], row[1])
  {
  }

  /** The left-border pair only ever takes the plain branch. */
  lemma HPairLeft(row: seq<Cell>)
    requires |row| >= 2
    ensures HPair(row, 0) == Pair(Even(row[0], row[0], row[1]), Odd(row[0], row[1]))
  {
  }

  /** Unless it fails, the right-border pair takes the plain branch. */
  lemma HPairRight(row: seq<Cell>)
    requires |row| >= 2 && !RightPartial(row)
    ensures HPair(row, |row| - 1) ==
      Pair(Even(row[|row| - 2], row[|row| - 1], row[|row| - 1]), Odd(row[|row| - 1], row[|row| - 1]))
  {
  }

  /** The intermediate grid of the horizontal pass: `rows` rows of `2 cols` cells. */
  function TempRaster(s: Raster, cols: int, rows: int): (t: Raster)
    requires cols >= 2 && rows >= 0 && IsRaster(s, cols, rows)
    ensures IsRaster(t, 2 * cols, rows)
  {
    seq(rows, (r: int) requires 0 <= r < rows =>
      seq(2 * cols, (k: int) requires 0 <= k < 2 * cols => Pick(HPair(s[r], k / 2), k % 2)))
  }

  /** Vertical triple of the top output rows: v0 := v1. */
  function TopPair(t: Raster, cc: int): Pair
    requires |t| >= 2 && 0 <= cc < |t[0]| && cc < |t[1]|
  {
    Tap(t[0][cc], t[0][cc], t[1][cc])
  }

  /** Vertical triple of the bottom output rows: v2 := v1. */
  function BottomPair(t: Raster, cc: int): Pair
    requires |t| >= 2 && 0 <= cc < |t[|t| - 2]| && cc < |t[|t| - 1]|
  {
    Tap(t[|t| - 2][cc], t[|t| - 1][cc], t[|t| - 1][cc])
  }

  predicate BottomPartial(t: Raster, cc: int)
    requires |t| >= 2 && 0 <= cc < |t[|t| - 2]| && cc < |t[|t| - 1]|
  {
    IsPartial(t[|t| - 2][cc], t[|t| - 1][cc], t[|t| - 1][cc])
  }

  /** Vertical interior triple of intermediate row r, column c. */
  function VTriple(t: Raster, r: int, c: int): (Cell, Cell, Cell)
    requires 1 <= r < |t| - 1 && 0 <= c < |t[r - 1]| && c < |t[r]| && c < |t[r + 1]|
  {
    (t[r - 1][c], t[r][c], t[r + 1][c])
  }

  predicate VPartial(t: Raster, r: int, c: int)
    requires 1 <= r < |t| - 1 && 0 <= c < |t[r - 1]| && c < |t[r]| && c < |t[r + 1]|
  {
    var (v0, v1, v2) := VTriple(t, r, c);
    IsPartial(v0, v1, v2)
  }

  /** What the plain branch of vertical iteration c writes into column c. */
  function VPlain(t: Raster, r: int, c: int): Pair
    requires 1 <= r < |t| - 1 && 0 <= c < |t[r - 1]| && c < |t[r]| && c < |t[r + 1]|
  {
    var (v0, v1, v2) := VTriple(t, r, c);
    Pair(Even(v0, v1, v2), Odd(v1, v2))
  }

  /** What the void branch of a vertical iteration writes into column cc. */
  function VWithVoid(t: Raster, r: int, cc: int): Pair
    requires 1 <= r < |t| - 1 && 0 <= cc < |t[r - 1]| && cc < |t[r]| && cc < |t[r + 1]|
  {
    var (v0, v1, v2) := VTriple(t, r, cc);
    WithVoid(v0, v1, v2)
  }

  /**
   * Output cell (2r + k, cc) after the first `done` iterations of the inner
   * loop of the vertical interior pass for intermediate row r, starting from
   * `prev`. Iteration c writes column c in its plain branch and column c / 2
   * in its void branch, so column cc is written by iterations cc, 2cc and
   * 2cc + 1, and the last of those that wrote it decides its value.
   */
  function InteriorCell(t: Raster, r: int, done: int, cc: int, k: int, prev: Cell): Cell
    requires 1 <= r < |t| - 1 && 0 <= cc && 0 <= done
    requires forall i :: 0 <= i < |t| ==> done <= |t[i]|
  {
    if (2 * cc + 1 < done && VPartial(t, r, 2 * cc + 1)) || (2 * cc < done && VPartial(t, r, 2 * cc)) then
      Pick(VWithVoid(t, r, cc), k)
    else if cc < done && !VPartial(t, r, cc) then
      Pick(VPlain(t, r, cc), k)
    else
      prev
  }

  /**
   * Output cell (2r + k, cc), holding `cur`, after vertical iteration c: a
   * void-branch iteration writes column c / 2, a plain iteration column c.
   */
  function StepCell(t: Raster, r: int, c: int, cc: int, k: int, cur: Cell): Cell
    requires 1 <= r < |t| - 1 && 0 <= cc && 0 <= c
    requires forall i :: 0 <= i < |t| ==> c < |t[i]|
  {
    if VPartial(t, r, c) then (if cc == c / 2 then Pick(VWithVoid(t, r, cc), k) else cur)
    else if cc == c then Pick(VPlain(t, r, cc), k)
    else cur
  }

  /** One more iteration of the inner vertical loop is one more StepCell. */
  lemma InteriorStep(t: Raster, r: int, c: int, cc: int, k: int, prev: Cell)
    requires 1 <= r < |t| - 1 && 0 <= cc && 0 <= c
    requires forall i :: 0 <= i < |t| ==> c + 1 <= |t[i]|
    ensures InteriorCell(t, r, c + 1, cc, k, prev) == StepCell(t, r, c, cc, k, InteriorCell(t, r, c, cc, k, prev))
  {
  }

  /**
   * Output cell (j, cc) after the top and bottom border rows: the bottom pair
   * goes to the last two rows `newRows - 2` and `newRows - 1`, written after
   * the top pair; other cells keep the 0 of a new grid.
   */
  function Base(t: Raster, newRows: int, j: int, cc: int): Cell
    requires |t| >= 2 && newRows >= 2 && 0 <= j < newRows && 0 <= cc
    requires forall i :: 0 <= i < |t| ==> cc < |t[i]|
  {
    if j >= newRows - 2 then Pick(BottomPair(t, cc), j - (newRows - 2))
    else if j < 2 then Pick(TopPair(t, cc), j)
    else Val(0.0)
  }

  /** Output cell (j, cc) once every pass has run. */
  function ExpandCell(t: Raster, newCols: int, newRows: int, j: int, cc: int): Cell
    requires |t| >= 2 && newRows >= 2 && 0 <= j < newRows && 0 <= cc < newCols
    requires forall i :: 0 <= i < |t| ==> newCols <= |t[i]|
  {
    if 1 <= j / 2 < |t| - 1 then InteriorCell(t, j / 2, newCols, cc, j % 2, Base(t, newRows, j, cc))
    else Base(t, newRows, j, cc)
  }

  /** The cells of the expanded grid. */
  function ExpandRaster(s: Raster, cols: int, rows: int, newCols: int, newRows: int): (m: Raster)
    requires cols >= 2 && rows >= 2 && IsRaster(s, cols, rows)
    requires 0 <= newCols <= 2 * cols && newRows >= 2
    ensures IsRaster(m, newCols, newRows)
  {
    var t: Raster := TempRaster(s, cols, rows);
    seq(newRows, (j: int) requires 0 <= j < newRows =>
      seq(newCols, (cc: int) requires 0 <= cc < newCols => ExpandCell(t, newCols, newRows, j, cc)))
  }

  function NewCols(v: GridValue, maxCols: int): int {
    Min(maxCols, v.Cols() * 2)
  }

  function NewRows(v: GridValue, maxRows: int): int {
    Min(maxRows, v.Rows() * 2)
  }

  /**
   * The exception `expand` ends with, if any: the grid constructor's check,
   * then an index past the source row at the right border (line 87), then an
   * index past the destination at the bottom border (line 138), then an
   * output row index past the last row in the vertical interior pass.
   */
  function ExpandError(v: GridValue, maxCols: int, maxRows: int): (err: Option<Failure>)
    requires v.Valid()
    ensures NewCols(v, maxCols) < 3 || NewRows(v, maxRows) < 3 ==>
      err == Some(IllegalArgument("Not enough data points."))
    ensures err.None? ==> NewCols(v, maxCols) >= 3 && 2 * v.Rows() - 2 <= NewRows(v, maxRows) <= 2 * v.Rows()
    ensures err.Some? && NewCols(v, maxCols) >= 3 && NewRows(v, maxRows) >= 3 ==> err == Some(IndexOutOfBounds)
  {
    var cols, rows := v.Cols(), v.Rows();
    var newCols, newRows := NewCols(v, maxCols), NewRows(v, maxRows);
    var check := ConstructorCheck(newCols, newRows, v.cellSize / 2.0);
    if check.Some? then check
    else if exists r :: 0 <= r < rows && RightPartial(v.cells[r]) then Some(IndexOutOfBounds)
    else
      var t := TempRaster(v.cells, cols, rows);
      if exists cc :: 0 <= cc < newCols && BottomPartial(t, cc) then Some(IndexOutOfBounds)
      else if newRows <= 2 * rows - 3 then Some(IndexOutOfBounds)
      else None
  }

  /** `expand` succeeds when none of its failure conditions holds. */
  lemma ExpandErrorNone(v: GridValue, maxCols: int, maxRows: int)
    requires v.Valid()
    requires ConstructorCheck(NewCols(v, maxCols), NewRows(v, maxRows), v.cellSize / 2.0).None?
    requires forall r :: 0 <= r < v.Rows() ==> !RightPartial(v.cells[r])
    requires forall cc :: 0 <= cc < NewCols(v, maxCols) ==> !BottomPartial(TempRaster(v.cells, v.Cols(), v.Rows()), cc)
    requires 2 * v.Rows() - 3 < NewRows(v, maxRows)
    ensures ExpandError(v, maxCols, maxRows).None?
  {
  }

  /** The two passes of `expand` get past every index check. */
  predicate PassesSucceed(s: Raster, cols: int, rows: int, newCols: int, newRows: int)
    requires cols >= 2 && rows >= 2 && IsRaster(s, cols, rows) && newCols <= 2 * cols
  {
    (forall r :: 0 <= r < rows ==> !RightPartial(s[r])) &&
    (forall cc :: 0 <= cc < newCols ==> !BottomPartial(TempRaster(s, cols, rows), cc)) &&
    2 * rows - 3 < newRows
  }

  /** Past the constructor check, `expand` fails with an index error when any other condition holds. */
  lemma ExpandErrorIndex(v: GridValue, maxCols: int, maxRows: int)
    requires v.Valid()
    requires ConstructorCheck(NewCols(v, maxCols), NewRows(v, maxRows), v.cellSize / 2.0).None?
    requires !PassesSucceed(v.cells, v.Cols(), v.Rows(), NewCols(v, maxCols), NewRows(v, maxRows))
    ensures ExpandError(v, maxCols, maxRows) == Some(IndexOutOfBounds)
  {
  }

  /**
   * The grid `expand` returns when it does not fail: half the cell size,
   * west and south left at 0, and the cells above.
   */
  function ExpandValue(v: GridValue, maxCols: int, maxRows: int): (e: GridValue)
    requires v.Valid() && ExpandError(v, maxCols, maxRows).None?
    ensures e.Valid() && e.Cols() == NewCols(v, maxCols) && e.Rows() == NewRows(v, maxRows)
    ensures e.cellSize == v.cellSize / 2.0 && e.west == 0.0 && e.south == 0.0
  {
    GridValue(v.cellSize / 2.0, 0.0, 0.0, ExpandRaster(v.cells, v.Cols(), v.Rows(), NewCols(v, maxCols), NewRows(v, maxRows)))
  }

  /** A raster of only valid cells has only valid taps in the intermediate grid. */
  lemma {:induction false} TempVoidFree(s: Raster, cols: int, rows: int)
    requires cols >= 2 && rows >= 0 && IsRaster(s, cols, rows) && VoidFree(s)
    ensures VoidFree(TempRaster(s, cols, rows))
  {
    var t: Raster := TempRaster(s, cols, rows);
    forall r: int, k: int | 0 <= r < rows && 0 <= k < 2 * cols
      ensures t[r][k].Val?
    {
      var c := k / 2;
      assert s[r][ClampPrev(c)].Val? && s[r][c].Val? && s[r][ClampNext(c, cols)].Val?;
      assert k == 2 * c || k == 2 * c + 1;
    }
  }

  /** With no void in the intermediate grid every output cell is valid. */
  lemma {:induction false} ExpandCellVoidFree(t: Raster, newCols: int, newRows: int, j: int, cc: int)
    requires |t| >= 2 && newRows >= 2 && 0 <= j < newRows && 0 <= cc < newCols
    requires forall i :: 0 <= i < |t| ==> newCols <= |t[i]|
    requires VoidFree(t)
    ensures ExpandCell(t, newCols, newRows, j, cc).Val?
  {
    var rows := |t|;
    assert t[0][cc].Val? && t[1][cc].Val? && t[rows - 2][cc].Val? && t[rows - 1][cc].Val?;
    if 1 <= j / 2 < rows - 1 {
      var r := j / 2;
      assert t[r - 1][cc].Val? && t[r][cc].Val? && t[r + 1][cc].Val?;
      if 2 * cc + 1 < newCols {
        assert t[r - 1][2 * cc + 1].Val?;
      }
      if 2 * cc < newCols {
        assert t[r - 1][2 * cc].Val?;
      }
    }
  }

  /** With no void in the source neither border test of `expand` fires. */
  lemma {:induction false} NoBorderPartial(v: GridValue, newCols: int)
    requires v.Valid() && VoidFree(v.cells) && 0 <= newCols <= 2 * v.Cols()
    ensures forall r :: 0 <= r < v.Rows() ==> !RightPartial(v.cells[r])
    ensures var t := TempRaster(v.cells, v.Cols(), v.Rows());
      forall cc :: 0 <= cc < newCols ==> !BottomPartial(t, cc)
  {
    var cols, rows := v.Cols(), v.Rows();
    var t := TempRaster(v.cells, cols, rows);
    TempVoidFree(v.cells, cols, rows);
    forall r | 0 <= r < rows
      ensures !RightPartial(v.cells[r])
    {
      assert v.cells[r][cols - 1].Val?;
    }
    forall cc | 0 <= cc < newCols
      ensures !BottomPartial(t, cc)
    {
      assert t[rows - 2][cc].Val?;
    }
  }

  /**
   * Expanding a grid without void cells fails only on the output shape, and
   * gives a grid without void cells.
   */
  lemma {:induction false} ExpandVoidFree(v: GridValue, maxCols: int, maxRows: int)
    requires v.Valid() && VoidFree(v.cells)
    ensures ExpandError(v, maxCols, maxRows).None? <==>
      NewCols(v, maxCols) >= 3 && NewRows(v, maxRows) >= 2 * v.Rows() - 2
    ensures ExpandError(v, maxCols, maxRows).None? ==> VoidFree(ExpandValue(v, maxCols, maxRows).cells)
  {
    var cols, rows := v.Cols(), v.Rows();
    var newCols, newRows := NewCols(v, maxCols), NewRows(v, maxRows);
    var t: Raster := TempRaster(v.cells, cols, rows);
    TempVoidFree(v.cells, cols, rows);
    NoBorderPartial(v, if newCols < 0 then 0 else newCols);
    if ExpandError(v, maxCols, maxRows).None? {
      var m: Raster := ExpandValue(v, maxCols, maxRows).cells;
      forall j: int, cc: int | 0 <= j < newRows && 0 <= cc < newCols
        ensures m[j][cc].Val?
      {
        ExpandCellVoidFree(t, newCols, newRows, j, cc);
      }
    }
  }

  /** A constant intermediate grid gives the constant at every output cell, once the rows are covered. */
  lemma {:induction false} ExpandCellConstant(t: Raster, newCols: int, newRows: int, j: int, cc: int, k: real)
    requires |t| >= 2 && 2 * |t| - 2 <= newRows <= 2 * |t| && 0 <= j < newRows && 0 <= cc < newCols
    requires forall i :: 0 <= i < |t| ==> newCols <= |t[i]|
    requires forall i, c :: 0 <= i < |t| && 0 <= c < |t[i]| ==> t[i][c] == Val(k)
    ensures ExpandCell(t, newCols, newRows, j, cc) == Val(k)
  {
    var rows := |t|;
    TapConstant(k);
    assert t[0][cc] == Val(k) && t[1][cc] == Val(k) && t[rows - 2][cc] == Val(k) && t[rows - 1][cc] == Val(k);
    if 1 <= j / 2 < rows - 1 {
      var r := j / 2;
      assert t[r - 1][cc] == Val(k) && t[r][cc] == Val(k) && t[r + 1][cc] == Val(k);
      if 2 * cc + 1 < newCols {
        assert t[r - 1][2 * cc + 1] == Val(k);
      }
      if 2 * cc < newCols {
        assert t[r - 1][2 * cc] == Val(k);
      }
      assert VPlain(t, r, cc) == Pair(Val(k), Val(k));
    } else {
      assert j < 2 || j >= newRows - 2;
    }
  }

  /** A constant grid expands to the same constant: every output cell is written and normalised. */
  lemma {:induction false} ExpandConstant(v: GridValue, maxCols: int, maxRows: int, k: real)
    requires v.Valid() && ExpandError(v, maxCols, maxRows).None?
    requires forall r, c :: 0 <= r < v.Rows() && 0 <= c < v.Cols() ==> v.cells[r][c] == Val(k)
    ensures var m := ExpandValue(v, maxCols, maxRows).cells;
      forall j, cc :: 0 <= j < |m| && 0 <= cc < |m[j]| ==> m[j][cc] == Val(k)
  {
    var cols, rows := v.Cols(), v.Rows();
    var newCols, newRows := NewCols(v, maxCols), NewRows(v, maxRows);
    var t: Raster := TempRaster(v.cells, cols, rows);
    TapConstant(k);
    forall r: int, i: int | 0 <= r < rows && 0 <= i < 2 * cols
      ensures t[r][i] == Val(k)
    {
      var c := i / 2;
      assert v.cells[r][ClampPrev(c)] == Val(k) && v.cells[r][ClampNext(c, cols)] == Val(k);
      assert v.cells[r][c] == Val(k);
      assert i == 2 * c || i == 2 * c + 1;
    }
    var m: Raster := ExpandValue(v, maxCols, maxRows).cells;
    forall j: int, cc: int | 0 <= j < newRows && 0 <= cc < newCols
      ensures m[j][cc] == Val(k)
    {
      ExpandCellConstant(t, newCols, newRows, j, cc, k);
    }
  }
}
