/**
 * The values the Laplacian pyramid computes: cell-wise differences and
 * weighted sums of grids, the levels built from a Gaussian pyramid and the
 * grid re-synthesised from the levels, with the exception each step can end
 * with.
 */
module LaplacianSpec {
  import opened Wrappers
  import opened Cells
  import opened Grids
  import opened ExpandSpec

  /** `v1 - v2` at every cell. */
  function DifRaster(a: Raster, b: Raster, cols: int, rows: int): (d: Raster)
    requires cols >= 0 && IsRaster(a, cols, rows) && IsRaster(b, cols, rows)
    ensures IsRaster(d, cols, rows)
    ensures forall r, c :: 0 <= r < rows && 0 <= c < cols ==> d[r][c] == Sub(a[r][c], b[r][c])
  {
    seq(rows, (r: int) requires 0 <= r < rows =>
      seq(cols, (c: int) requires 0 <= c < cols => Sub(a[r][c], b[r][c])))
  }

  /** `g1row[c] + g2row[c] * scale` at every cell. */
  function SumRaster(a: Raster, b: Raster, cols: int, rows: int, scale: real): (s: Raster)
    requires cols >= 0 && IsRaster(a, cols, rows) && IsRaster(b, cols, rows)
    ensures IsRaster(s, cols, rows)
    ensures forall r, c :: 0 <= r < rows && 0 <= c < cols ==> s[r][c] == Add(a[r][c], Scale(b[r][c], scale))
  {
    seq(rows, (r: int) requires 0 <= r < rows =>
      seq(cols, (c: int) requires 0 <= c < cols => Add(a[r][c], Scale(b[r][c], scale))))
  }

  /**
   * The grid `difGrids` returns: the shape and cell size of the first grid,
   * west and south left at 0.
   */
  function DifValue(a: GridValue, b: GridValue): (d: GridValue)
    requires a.Valid() && b.Valid() && a.SameShape(b)
    ensures d.Valid() && d.SameShape(a) && d.west == 0.0 && d.south == 0.0
  {
    GridValue(a.cellSize, 0.0, 0.0, DifRaster(a.cells, b.cells, a.Cols(), a.Rows()))
  }

  /**
   * Adding to the subtrahend, with weight 1, the difference gives the
   * original cells wherever the subtrahend has no void: the identity the
   * pyramid relies on.
   */
  lemma {:induction false} SumUndoesDif(a: Raster, b: Raster, cols: int, rows: int)
    requires cols >= 0 && IsRaster(a, cols, rows) && IsRaster(b, cols, rows) && VoidFree(b)
    ensures SumRaster(b, DifRaster(a, b, cols, rows), cols, rows, 1.0) == a
  {
    var s := SumRaster(b, DifRaster(a, b, cols, rows), cols, rows, 1.0);
    forall r | 0 <= r < rows
      ensures s[r] == a[r]
    {
      forall c | 0 <= c < cols
        ensures s[r][c] == a[r][c]
      {
        assert b[r][c].Val?;
      }
    }
  }

  /** A void in either operand of the subtraction leaves a void difference. */
  lemma DifVoid(a: Raster, b: Raster, cols: int, rows: int, r: int, c: int)
    requires cols >= 0 && IsRaster(a, cols, rows) && IsRaster(b, cols, rows) && 0 <= r < rows && 0 <= c < cols
    ensures DifRaster(a, b, cols, rows)[r][c] == Void <==> a[r][c] == Void || b[r][c] == Void
  {
  }

  /** Every level of a Gaussian pyramid is a grid a constructor produced. */
  predicate AllValid(gs: seq<GridValue>) {
    forall i :: 0 <= i < |gs| ==> gs[i].Valid()
  }

  /**
   * One iteration of the loop of `createPyramid`: `expand` the coarser grid
   * to the shape of the finer one, then `difGrids`, each with its exception.
   */
  function DifStepError(fine: GridValue, coarse: GridValue): (err: Option<Failure>)
    requires fine.Valid() && coarse.Valid()
    ensures err.None? ==> (ExpandError(coarse, fine.Cols(), fine.Rows()).None? &&
      ExpandValue(coarse, fine.Cols(), fine.Rows()).SameShape(fine))
  {
    var e := ExpandError(coarse, fine.Cols(), fine.Rows());
    if e.Some? then e
    else if !fine.SameShape(ExpandValue(coarse, fine.Cols(), fine.Rows())) then
      Some(IllegalArgument("grids of different size"))
    else None
  }

  /** The difference of one iteration, when it gets past its checks. */
  function DifStep(fine: GridValue, coarse: GridValue): (l: GridValue)
    requires fine.Valid() && coarse.Valid() && DifStepError(fine, coarse).None?
    ensures l.Valid() && l.SameShape(fine)
  {
    DifValue(fine, ExpandValue(coarse, fine.Cols(), fine.Rows()))
  }

  /** Iteration i of `createPyramid`, which fills level i - 1. */
  function StepError(gs: seq<GridValue>, i: int): Option<Failure>
    requires AllValid(gs) && 1 <= i < |gs|
  {
    DifStepError(gs[i - 1], gs[i])
  }

  /** The first exception of iterations |gs| - 1 down to i, in the order they run. */
  function LevelsError(gs: seq<GridValue>, i: int): (err: Option<Failure>)
    requires AllValid(gs) && 1 <= i <= |gs|
    ensures err.None? ==> forall j :: i <= j < |gs| ==> StepError(gs, j).None?
    decreases |gs| - i
  {
    if i == |gs| then None
    else
      var e := LevelsError(gs, i + 1);
      if e.Some? then e else StepError(gs, i)
  }

  /** Iterations i and up end without exception exactly when each of them does. */
  lemma {:induction false} LevelsErrorNone(gs: seq<GridValue>, i: int)
    requires AllValid(gs) && 1 <= i <= |gs|
    ensures LevelsError(gs, i).None? <==> forall j :: i <= j < |gs| ==> StepError(gs, j).None?
    decreases |gs| - i
  {
    if i < |gs| {
      LevelsErrorNone(gs, i + 1);
    }
  }

  /** Iterations that end without exception from i on do so from every later one too. */
  lemma LevelsErrorNoneFrom(gs: seq<GridValue>, i: int)
    requires AllValid(gs) && 1 <= i <= |gs| && LevelsError(gs, i).None?
    ensures forall k :: i <= k <= |gs| ==> LevelsError(gs, k).None?
  {
    forall k | i <= k <= |gs|
      ensures LevelsError(gs, k).None?
    {
      LevelsErrorNone(gs, k);
    }
  }

  /** The first exception met is the one `createPyramid` ends with. */
  lemma {:induction false} LevelsErrorPropagates(gs: seq<GridValue>, i: int, j: int)
    requires AllValid(gs) && 1 <= j <= i <= |gs| && LevelsError(gs, i).Some?
    ensures LevelsError(gs, j) == LevelsError(gs, i)
    decreases i - j
  {
    if j < i {
      LevelsErrorPropagates(gs, i, j + 1);
    }
  }

  /** The outcome of `createPyramid`: an empty pyramid fails at `levels[-1]`. */
  function CreateError(gs: seq<GridValue>): Option<Failure>
    requires AllValid(gs)
  {
    if |gs| == 0 then Some(IndexOutOfBounds) else LevelsError(gs, 1)
  }

  /**
   * Level i of the Laplacian pyramid: the finer Gaussian level minus the
   * coarser one expanded to its shape, or the coarsest Gaussian level.
   */
  function LaplacianLevel(gs: seq<GridValue>, i: int): (l: GridValue)
    requires AllValid(gs) && 0 <= i < |gs| && (i < |gs| - 1 ==> StepError(gs, i + 1).None?)
    ensures l.Valid() && l.SameShape(gs[i])
    ensures i == |gs| - 1 ==> l == gs[i]
  {
    if i == |gs| - 1 then gs[i] else DifStep(gs[i], gs[i + 1])
  }

  /** All levels, when `createPyramid` succeeds. */
  function LaplacianLevels(gs: seq<GridValue>): (ls: seq<GridValue>)
    requires AllValid(gs) && CreateError(gs).None?
    ensures |ls| == |gs| && AllValid(ls)
    ensures forall i :: 0 <= i < |gs| ==> ls[i] == LaplacianLevel(gs, i)
  {
    seq(|gs|, (i: int) requires 0 <= i < |gs| => LaplacianLevel(gs, i))
  }

  /** The weight of level i in `sumLevels`: `w[i]`, or 1 when no weights were set. */
  function LevelWeight(w: Option<seq<real>>, i: int): real
    requires w.Some? ==> 0 <= i < |w.value|
  {
    if w.None? then 1.0 else w.value[i]
  }

  /** Levels as the pyramid holds them: `None` is a null entry. */
  predicate LevelsValid(ls: seq<Option<GridValue>>) {
    forall i :: 0 <= i < |ls| && ls[i].Some? ==> ls[i].value.Valid()
  }

  /**
   * One iteration of `sumLevels`: expand the running sum to the shape of
   * level i and add that level with its weight. Java evaluates
   * `grid.getCols()` (null pointer), `expand`, `w[i]` (index) and then the
   * size check of `sumGrids`, in that order.
   */
  function SumStep(prev: GridValue, level: Option<GridValue>, w: Option<seq<real>>, i: int): (r: Result<GridValue, Failure>)
    requires prev.Valid() && (level.Some? ==> level.value.Valid()) && i >= 0
    ensures r.Success? ==> level.Some? && r.value.Valid() && r.value.SameShape(level.value)
  {
    if level.None? then Failure(NullPointer)
    else
      var g := level.value;
      var e := ExpandError(prev, g.Cols(), g.Rows());
      if e.Some? then Failure(e.value)
      else if w.Some? && i >= |w.value| then Failure(IndexOutOfBounds)
      else
        var x := ExpandValue(prev, g.Cols(), g.Rows());
        if !x.SameShape(g) then Failure(IllegalArgument("grids of different size cannot be summed"))
        else Success(x.(cells := SumRaster(x.cells, g.cells, g.Cols(), g.Rows(), LevelWeight(w, i))))
  }

  /** The running sum of `sumLevels` once level i has been added, starting from the coarsest level. */
  function SumFrom(ls: seq<Option<GridValue>>, w: Option<seq<real>>, i: int): (r: Result<GridValue, Failure>)
    requires LevelsValid(ls) && 0 <= i < |ls|
    ensures r.Success? ==> ls[i].Some? && r.value.Valid() && r.value.SameShape(ls[i].value)
    decreases |ls| - i
  {
    if i == |ls| - 1 then
      if ls[i].None? then Failure(NullPointer) else Success(ls[i].value)
    else
      var prev := SumFrom(ls, w, i + 1);
      if prev.Failure? then prev else SumStep(prev.value, ls[i], w, i)
  }

  /** The outcome of `sumLevels`: an empty pyramid fails at `levels[-1]`. */
  function SumLevelsValue(ls: seq<Option<GridValue>>, w: Option<seq<real>>): (r: Result<GridValue, Failure>)
    requires LevelsValid(ls)
    ensures r.Success? ==> |ls| > 0 && ls[0].Some? && r.value.SameShape(ls[0].value)
  {
    if |ls| == 0 then Failure(IndexOutOfBounds) else SumFrom(ls, w, 0)
  }

  function Present(ls: seq<GridValue>): (os: seq<Option<GridValue>>)
    ensures |os| == |ls| && forall i :: 0 <= i < |ls| ==> os[i] == Some(ls[i])
  {
    seq(|ls|, (i: int) requires 0 <= i < |ls| => Some(ls[i]))
  }

  /** `expand` looks only at the cells and the cell size of its input. */
  lemma ExpandIgnoresPlacement(v: GridValue, u: GridValue, maxCols: int, maxRows: int)
    requires v.Valid() && u.cells == v.cells && u.cellSize == v.cellSize
    ensures u.Valid() && ExpandError(u, maxCols, maxRows) == ExpandError(v, maxCols, maxRows)
    ensures ExpandError(v, maxCols, maxRows).None? ==> ExpandValue(u, maxCols, maxRows) == ExpandValue(v, maxCols, maxRows)
  {
  }

  /** Every expansion `createPyramid` makes has no void cell. */
  predicate ExpansionsVoidFree(gs: seq<GridValue>)
    requires AllValid(gs)
  {
    forall j :: 1 <= j < |gs| ==> StepError(gs, j).None? ==>
      VoidFree(ExpandValue(gs[j], gs[j - 1].Cols(), gs[j - 1].Rows()).cells)
  }

  /** One iteration of `sumLevels` without weights that gets past every check. */
  lemma SumStepPasses(prev: GridValue, g: GridValue, i: int)
    requires prev.Valid() && g.Valid() && i >= 0
    requires ExpandError(prev, g.Cols(), g.Rows()).None? && ExpandValue(prev, g.Cols(), g.Rows()).SameShape(g)
    ensures var x := ExpandValue(prev, g.Cols(), g.Rows());
      SumStep(prev, Some(g), None, i) == Success(x.(cells := SumRaster(x.cells, g.cells, g.Cols(), g.Rows(), 1.0)))
  {
  }

  /**
   * Re-synthesis: summing, without weights, the levels built from a Gaussian
   * pyramid gives back the cells of every Gaussian level from i down,
   * provided each expansion has no void cell.
   */
  lemma {:induction false} SumFromReconstructs(gs: seq<GridValue>, os: seq<Option<GridValue>>, i: int)
    requires AllValid(gs) && CreateError(gs).None? && 0 <= i < |gs|
    requires ExpansionsVoidFree(gs)
    requires os == Present(LaplacianLevels(gs))
    ensures LevelsValid(os)
    ensures var r := SumFrom(os, None, i);
      r.Success? && r.value.cells == gs[i].cells && r.value.cellSize == gs[i].cellSize
    decreases |gs| - i
  {
    var ls := LaplacianLevels(gs);
    if i < |gs| - 1 {
      SumFromReconstructs(gs, os, i + 1);
      var prev := SumFrom(os, None, i + 1).value;
      var g := ls[i];
      assert os[i] == Some(g);
      assert StepError(gs, i + 1).None?;
      ExpandIgnoresPlacement(gs[i + 1], prev, g.Cols(), g.Rows());
      var x := ExpandValue(prev, g.Cols(), g.Rows());
      assert x == ExpandValue(gs[i + 1], gs[i].Cols(), gs[i].Rows());
      assert VoidFree(x.cells);
      SumStepPasses(prev, g, i);
      SumUndoesDif(gs[i].cells, x.cells, gs[i].Cols(), gs[i].Rows());
    } else {
      assert os[i] == Some(gs[i]);
    }
  }

  /** `sumLevels` after `createPyramid`, without weights, re-synthesises the finest Gaussian level. */
  lemma Reconstruction(gs: seq<GridValue>)
    requires AllValid(gs) && CreateError(gs).None?
    requires ExpansionsVoidFree(gs)
    ensures LevelsValid(Present(LaplacianLevels(gs)))
    ensures var r := SumLevelsValue(Present(LaplacianLevels(gs)), None);
      r.Success? && r.value.cells == gs[0].cells && r.value.SameShape(gs[0])
  {
    SumFromReconstructs(gs, Present(LaplacianLevels(gs)), 0);
  }

  /** With no void in the Gaussian pyramid, re-synthesis is exact. */
  lemma {:induction false} ReconstructionVoidFree(gs: seq<GridValue>)
    requires AllValid(gs) && CreateError(gs).None?
    requires forall i :: 0 <= i < |gs| ==> VoidFree(gs[i].cells)
    ensures LevelsValid(Present(LaplacianLevels(gs)))
    ensures var r := SumLevelsValue(Present(LaplacianLevels(gs)), None);
      r.Success? && r.value.cells == gs[0].cells && r.value.SameShape(gs[0])
  {
    forall j | 1 <= j < |gs| && StepError(gs, j).None?
      ensures VoidFree(ExpandValue(gs[j], gs[j - 1].Cols(), gs[j - 1].Rows()).cells)
    {
      ExpandVoidFree(gs[j], gs[j - 1].Cols(), gs[j - 1].Rows());
    }
    Reconstruction(gs);
  }

  /** A failure of the sum from level j + 1 is passed through level j unchanged. */
  lemma SumFromFailureStep(os: seq<Option<GridValue>>, w: Option<seq<real>>, j: int)
    requires LevelsValid(os) && 0 <= j < |os| - 1 && SumFrom(os, w, j + 1).Failure?
    ensures SumFrom(os, w, j) == SumFrom(os, w, j + 1)
  {
  }

  /** In a sequence of outcomes where each failure is passed to the entry before it. */
  predicate FailuresPassDown(rs: seq<Result<GridValue, Failure>>) {
    forall k :: 0 < k < |rs| && rs[k].Failure? ==> rs[k - 1] == rs[k]
  }

  /** ... a failure at entry i is the outcome at every entry j below it. */
  lemma {:induction false} FailurePassesDown(rs: seq<Result<GridValue, Failure>>, i: int, j: int)
    requires FailuresPassDown(rs) && 0 <= j <= i < |rs| && rs[i].Failure?
    ensures rs[j] == rs[i]
    decreases i - j
  {
    if j < i {
      FailurePassesDown(rs, i, j + 1);
    }
  }

  /** A failure of the running sum is the failure of `sumLevels`. */
  lemma SumFromPropagates(os: seq<Option<GridValue>>, w: Option<seq<real>>, i: int, j: int)
    requires LevelsValid(os) && 0 <= j <= i < |os| && SumFrom(os, w, i).Failure?
    ensures SumFrom(os, w, j) == SumFrom(os, w, i)
  {
    var rs := seq(|os|, (k: int) requires 0 <= k < |os| => SumFrom(os, w, k));
    forall k | 0 < k < |rs| && rs[k].Failure?
      ensures rs[k - 1] == rs[k]
    {
      SumFromFailureStep(os, w, k - 1);
    }
    FailurePassesDown(rs, i, j);
  }

  /** The sum from level i is one step of `sumLevels` from the sum of the levels above it. */
  lemma SumFromStep(os: seq<Option<GridValue>>, w: Option<seq<real>>, prev: GridValue, i: int)
    requires LevelsValid(os) && 0 <= i < |os| - 1 && SumFrom(os, w, i + 1) == Success(prev)
    ensures SumFrom(os, w, i) == SumStep(prev, os[i], w, i)
  {
  }

  /** One step of `sumLevels` from the sum of the levels above level i gives the sum from level i. */
  lemma SumFromNext(os: seq<Option<GridValue>>, w: Option<seq<real>>, prev: GridValue, i: int, level: Option<GridValue>, next: GridValue)
    requires LevelsValid(os) && 0 <= i < |os| - 1 && SumFrom(os, w, i + 1) == Success(prev) && level == os[i]
    requires SumStep(prev, level, w, i) == Success(next)
    ensures SumFrom(os, w, i) == Success(next)
  {
    SumFromStep(os, w, prev, i);
  }

  /** A failing step of `sumLevels` is the outcome of the whole sum. */
  lemma SumFromFails(os: seq<Option<GridValue>>, w: Option<seq<real>>, prev: GridValue, i: int, level: Option<GridValue>)
    requires LevelsValid(os) && 0 <= i < |os| - 1 && SumFrom(os, w, i + 1) == Success(prev) && level == os[i]
    requires SumStep(prev, level, w, i).Failure?
    ensures SumFrom(os, w, 0) == SumStep(prev, level, w, i)
  {
    SumFromStep(os, w, prev, i);
    SumFromPropagates(os, w, i, 0);
  }
}
