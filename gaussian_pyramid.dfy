/**
 * The Gaussian pyramid: the input grid followed by successively low-passed
 * grids of half the columns and half the rows, down to a minimum size. The
 * 5x5 low-pass that halves a grid (`Convolution5x5.convolveToHalfSize`) is
 * not part of this model; it is the parameter `reduce`, of which only the
 * halving of the shape is assumed.
 */
module GaussianPyramids {
  import opened Wrappers
  import opened Grids
  import opened ExpandSpec
  import opened LaplacianPyramids

  /** `MIN_SIDE_LENGTH`: a level is not halved when a half side would be this short or shorter. */
  const MinSideLength: int := 2

  /** The cell count used when the caller passes none: `MIN_SIDE_LENGTH²`. */
  const DefaultMinCellCount: int := MinSideLength * MinSideLength

  /** The level limit of the one-argument constructor. */
  const DefaultMaxLevelsCount: int := 9999

  /** A reduction that turns every grid large enough to be halved into a grid of half its shape. */
  ghost predicate Halves(reduce: GridValue -> GridValue) {
    forall v: GridValue {:trigger reduce(v)} :: v.Valid() && v.Cols() / 2 > MinSideLength && v.Rows() / 2 > MinSideLength ==>
      reduce(v).Valid() && reduce(v).Cols() == v.Cols() / 2 && reduce(v).Rows() == v.Rows() / 2
  }

  /**
   * The test of the loop of `createPyramid`: a grid of `cols` by `rows` is
   * halved once more when the pyramid holds `size` levels.
   */
  predicate Continues(cols: int, rows: int, size: int, maxLevelsCount: int, minCellCount: int) {
    var newCols := cols / 2;
    var newRows := rows / 2;
    !(newCols <= MinSideLength || newRows <= MinSideLength || newCols * newRows < minCellCount || size == maxLevelsCount)
  }

  predicate ContinuesAt(v: GridValue, size: int, maxLevelsCount: int, minCellCount: int) {
    Continues(v.Cols(), v.Rows(), size, maxLevelsCount, minCellCount)
  }

  /** The levels from `v` on, when the pyramid already holds `size` levels ending with `v`. */
  ghost function LevelsFrom(v: GridValue, size: int, maxLevelsCount: int, minCellCount: int,
                            reduce: GridValue -> GridValue): (p: seq<GridValue>)
    requires Halves(reduce) && v.Valid()
    ensures |p| >= 1 && p[0] == v
    ensures forall i :: 0 <= i < |p| ==> p[i].Valid()
    decreases v.Cols()
  {
    if !ContinuesAt(v, size, maxLevelsCount, minCellCount) then [v]
    else [v] + LevelsFrom(reduce(v), size + 1, maxLevelsCount, minCellCount, reduce)
  }

  /** The values of the levels `createPyramid(v, maxLevelsCount, minCellCount)` returns. */
  ghost function Pyramid(v: GridValue, maxLevelsCount: int, minCellCount: int, reduce: GridValue -> GridValue): (p: seq<GridValue>)
    requires Halves(reduce) && v.Valid()
    ensures |p| >= 1 && p[0] == v
  {
    LevelsFrom(v, 1, maxLevelsCount, minCellCount, reduce)
  }

  /**
   * The characterisation of a pyramid, independent of the recursion: each
   * level is the reduction of the one before, taken only when the loop test
   * held for the one before, and the loop test fails at the last level.
   */
  ghost predicate IsChain(p: seq<GridValue>, first: int, maxLevelsCount: int, minCellCount: int, reduce: GridValue -> GridValue) {
    |p| >= 1 && Links(p, first, maxLevelsCount, minCellCount, reduce) &&
    !ContinuesAt(p[|p| - 1], first + |p| - 1, maxLevelsCount, minCellCount)
  }

  /** Each level is the reduction of the one before, taken only when the loop test held for that one. */
  ghost predicate Links(p: seq<GridValue>, first: int, maxLevelsCount: int, minCellCount: int, reduce: GridValue -> GridValue) {
    forall i :: 0 <= i < |p| - 1 ==> ContinuesAt(p[i], first + i, maxLevelsCount, minCellCount) && p[i + 1] == reduce(p[i])
  }

  lemma LinksExtend(p: seq<GridValue>, x: GridValue, first: int, maxLevelsCount: int, minCellCount: int, reduce: GridValue -> GridValue)
    requires |p| >= 1 && Links(p, first, maxLevelsCount, minCellCount, reduce)
    requires ContinuesAt(p[|p| - 1], first + |p| - 1, maxLevelsCount, minCellCount) && x == reduce(p[|p| - 1])
    ensures Links(p + [x], first, maxLevelsCount, minCellCount, reduce)
  {
    var q := p + [x];
    forall i | 0 <= i < |q| - 1
      ensures ContinuesAt(q[i], first + i, maxLevelsCount, minCellCount) && q[i + 1] == reduce(q[i])
    {
      assert q[i] == p[i];
      if i < |p| - 1 {
        assert q[i + 1] == p[i + 1];
      }
    }
  }

  lemma {:induction false} LevelsFromChain(v: GridValue, size: int, maxLevelsCount: int, minCellCount: int,
                                           reduce: GridValue -> GridValue)
    requires Halves(reduce) && v.Valid()
    ensures IsChain(LevelsFrom(v, size, maxLevelsCount, minCellCount, reduce), size, maxLevelsCount, minCellCount, reduce)
    decreases v.Cols()
  {
    if ContinuesAt(v, size, maxLevelsCount, minCellCount) {
      var rest := LevelsFrom(reduce(v), size + 1, maxLevelsCount, minCellCount, reduce);
      LevelsFromChain(reduce(v), size + 1, maxLevelsCount, minCellCount, reduce);
      var p := [v] + rest;
      assert p == LevelsFrom(v, size, maxLevelsCount, minCellCount, reduce);
      forall i | 0 <= i < |p| - 1
        ensures ContinuesAt(p[i], size + i, maxLevelsCount, minCellCount) && p[i + 1] == reduce(p[i])
      {
        if i > 0 {
          assert p[i + 1] == rest[i] && p[i] == rest[i - 1];
          assert ContinuesAt(rest[i - 1], size + 1 + (i - 1), maxLevelsCount, minCellCount);
        }
      }
    }
  }

  /** A chain from `v` is the recursion's result: the pyramid is determined by its first level. */
  lemma {:induction false} ChainIsLevelsFrom(p: seq<GridValue>, size: int, maxLevelsCount: int, minCellCount: int,
                                             reduce: GridValue -> GridValue)
    requires Halves(reduce) && |p| >= 1 && p[0].Valid()
    requires IsChain(p, size, maxLevelsCount, minCellCount, reduce)
    ensures p == LevelsFrom(p[0], size, maxLevelsCount, minCellCount, reduce)
    decreases p[0].Cols()
  {
    if |p| > 1 {
      var rest := p[1..];
      assert ContinuesAt(p[0], size, maxLevelsCount, minCellCount) && p[1] == reduce(p[0]);
      assert IsChain(rest, size + 1, maxLevelsCount, minCellCount, reduce) by {
        forall i | 0 <= i < |rest| - 1
          ensures ContinuesAt(rest[i], size + 1 + i, maxLevelsCount, minCellCount) && rest[i + 1] == reduce(rest[i])
        {
          assert rest[i + 1] == p[i + 2] && rest[i] == p[i + 1];
          assert ContinuesAt(p[i + 1], size + (i + 1), maxLevelsCount, minCellCount);
        }
      }
      ChainIsLevelsFrom(rest, size + 1, maxLevelsCount, minCellCount, reduce);
      assert p == [p[0]] + rest;
    } else {
      assert !ContinuesAt(p[0], size, maxLevelsCount, minCellCount);
    }
  }

  /** `createPyramid` builds exactly the chain of reductions that its loop test admits. */
  lemma PyramidIsChain(v: GridValue, maxLevelsCount: int, minCellCount: int, reduce: GridValue -> GridValue)
    requires Halves(reduce) && v.Valid()
    ensures IsChain(Pyramid(v, maxLevelsCount, minCellCount, reduce), 1, maxLevelsCount, minCellCount, reduce)
    ensures forall p :: |p| >= 1 && p[0] == v && IsChain(p, 1, maxLevelsCount, minCellCount, reduce) ==>
      p == Pyramid(v, maxLevelsCount, minCellCount, reduce)
  {
    LevelsFromChain(v, 1, maxLevelsCount, minCellCount, reduce);
    forall p | |p| >= 1 && p[0] == v && IsChain(p, 1, maxLevelsCount, minCellCount, reduce)
      ensures p == Pyramid(v, maxLevelsCount, minCellCount, reduce)
    {
      ChainIsLevelsFrom(p, 1, maxLevelsCount, minCellCount, reduce);
    }
  }

  lemma {:induction false} LevelsFromBound(v: GridValue, size: int, maxLevelsCount: int, minCellCount: int,
                                           reduce: GridValue -> GridValue)
    requires Halves(reduce) && v.Valid() && 1 <= size <= maxLevelsCount
    ensures size + |LevelsFrom(v, size, maxLevelsCount, minCellCount, reduce)| - 1 <= maxLevelsCount
    decreases v.Cols()
  {
    if ContinuesAt(v, size, maxLevelsCount, minCellCount) {
      LevelsFromBound(reduce(v), size + 1, maxLevelsCount, minCellCount, reduce);
    }
  }

  /** A positive level limit bounds the number of levels. */
  lemma PyramidBound(v: GridValue, maxLevelsCount: int, minCellCount: int, reduce: GridValue -> GridValue)
    requires Halves(reduce) && v.Valid() && maxLevelsCount >= 1
    ensures |Pyramid(v, maxLevelsCount, minCellCount, reduce)| <= maxLevelsCount
  {
    LevelsFromBound(v, 1, maxLevelsCount, minCellCount, reduce);
  }

  /**
   * The loop stops at the last level; when the level limit is not positive, or
   * is not reached, it is the shape that stopped it.
   */
  lemma PyramidStopsOnShape(v: GridValue, maxLevelsCount: int, minCellCount: int, reduce: GridValue -> GridValue)
    requires Halves(reduce) && v.Valid()
    ensures var p := Pyramid(v, maxLevelsCount, minCellCount, reduce);
      var last := p[|p| - 1];
      (maxLevelsCount <= 0 || |p| < maxLevelsCount) ==>
        last.Cols() / 2 <= MinSideLength || last.Rows() / 2 <= MinSideLength ||
        (last.Cols() / 2) * (last.Rows() / 2) < minCellCount
  {
    PyramidIsChain(v, maxLevelsCount, minCellCount, reduce);
    var p := Pyramid(v, maxLevelsCount, minCellCount, reduce);
    if maxLevelsCount >= 1 {
      PyramidBound(v, maxLevelsCount, minCellCount, reduce);
    }
  }

  /** Every level after the first halves the one before, so level i has at most cols/2^i columns. */
  lemma {:induction false} PyramidHalves(v: GridValue, maxLevelsCount: int, minCellCount: int, reduce: GridValue -> GridValue)
    requires Halves(reduce) && v.Valid()
    ensures var p := Pyramid(v, maxLevelsCount, minCellCount, reduce);
      forall i :: 1 <= i < |p| ==> p[i].Cols() == p[i - 1].Cols() / 2 && p[i].Rows() == p[i - 1].Rows() / 2
  {
    PyramidIsChain(v, maxLevelsCount, minCellCount, reduce);
    var p := Pyramid(v, maxLevelsCount, minCellCount, reduce);
    forall i | 1 <= i < |p|
      ensures p[i].Cols() == p[i - 1].Cols() / 2 && p[i].Rows() == p[i - 1].Rows() / 2
    {
      assert ContinuesAt(p[i - 1], 1 + (i - 1), maxLevelsCount, minCellCount);
    }
  }

  /** The values of a sequence of grids. */
  ghost function Snapshots(gs: seq<Grid>): (vs: seq<GridValue>)
    reads gs, set g | g in gs :: g.data
    ensures |vs| == |gs| && forall i :: 0 <= i < |gs| ==> vs[i] == gs[i].Snapshot()
  {
    seq(|gs|, (i: int) requires 0 <= i < |gs| reads gs, set g | g in gs :: g.data => gs[i].Snapshot())
  }

  /** `convolveToHalfSize`: a fresh grid holding the reduction of `grid`. */
  method ConvolveToHalfSize(grid: Grid, reduce: GridValue -> GridValue) returns (half: Grid)
    requires Halves(reduce) && grid.Valid()
    requires grid.Cols() / 2 > MinSideLength && grid.Rows() / 2 > MinSideLength
    ensures fresh(half) && fresh(half.data) && half.Valid()
    ensures half.Snapshot() == reduce(grid.Snapshot())
  {
    half := new Grid.FromValue(reduce(grid.Snapshot()));
  }

  /**
   * `createPyramid(geoGrid, maxLevelsCount, minCellCount)`: the input grid,
   * then halved grids while the loop test holds. A null grid gives a
   * one-entry pyramid holding null.
   */
  method CreatePyramid(geoGrid: Grid?, maxLevelsCount: int, minCellCount: int, reduce: GridValue -> GridValue)
      returns (pyramid: seq<Grid?>)
    requires Halves(reduce) && (geoGrid != null ==> geoGrid.Valid())
    ensures |pyramid| >= 1 && pyramid[0] == geoGrid
    ensures geoGrid == null ==> |pyramid| == 1
    ensures geoGrid != null ==> (forall i :: 0 <= i < |pyramid| ==> pyramid[i] != null && pyramid[i].Valid())
    ensures forall i :: 1 <= i < |pyramid| ==> pyramid[i] != null && fresh(pyramid[i]) && fresh(pyramid[i].data)
    ensures geoGrid != null ==> |pyramid| == |Pyramid(geoGrid.Snapshot(), maxLevelsCount, minCellCount, reduce)|
    ensures geoGrid != null ==> forall i :: 0 <= i < |pyramid| ==>
      pyramid[i] != null && pyramid[i].Snapshot() == Pyramid(geoGrid.Snapshot(), maxLevelsCount, minCellCount, reduce)[i]
  {
    if geoGrid == null {
      return [null];
    }
    var levels: seq<Grid> := [geoGrid];
    ghost var vs: seq<GridValue> := [geoGrid.Snapshot()];
    var g: Grid := geoGrid;
    while Continues(g.Cols(), g.Rows(), |levels|, maxLevelsCount, minCellCount)
      invariant 1 <= |levels| == |vs| && levels[0] == geoGrid && g == levels[|levels| - 1]
      invariant forall i :: 0 <= i < |levels| ==> levels[i].Valid() && levels[i].Snapshot() == vs[i]
      invariant forall i :: 1 <= i < |levels| ==> fresh(levels[i]) && fresh(levels[i].data)
      invariant Links(vs, 1, maxLevelsCount, minCellCount, reduce)
      decreases g.Cols()
    {
      var half := ConvolveToHalfSize(g, reduce);
      LinksExtend(vs, half.Snapshot(), 1, maxLevelsCount, minCellCount, reduce);
      vs := vs + [half.Snapshot()];
      levels := levels + [half];
      g := half;
    }
    assert !ContinuesAt(vs[|vs| - 1], |vs|, maxLevelsCount, minCellCount);
    ChainIsLevelsFrom(vs, 1, maxLevelsCount, minCellCount, reduce);
    assert vs == Pyramid(geoGrid.Snapshot(), maxLevelsCount, minCellCount, reduce);
    pyramid := levels;
  }

  /** `createPyramid(geoGrid, maxLevelsCount)`: the default minimum cell count. */
  method CreatePyramidDefault(geoGrid: Grid?, maxLevelsCount: int, reduce: GridValue -> GridValue)
      returns (pyramid: seq<Grid?>)
    requires Halves(reduce) && (geoGrid != null ==> geoGrid.Valid())
    ensures |pyramid| >= 1 && pyramid[0] == geoGrid
    ensures geoGrid == null ==> |pyramid| == 1
    ensures geoGrid != null ==> |pyramid| == |Pyramid(geoGrid.Snapshot(), maxLevelsCount, DefaultMinCellCount, reduce)|
    ensures geoGrid != null ==> forall i :: 0 <= i < |pyramid| ==>
      pyramid[i] != null && pyramid[i].Valid() &&
      pyramid[i].Snapshot() == Pyramid(geoGrid.Snapshot(), maxLevelsCount, DefaultMinCellCount, reduce)[i]
  {
    pyramid := CreatePyramid(geoGrid, maxLevelsCount, DefaultMinCellCount, reduce);
  }

  /** `k` steps of `step` from `v`, stopping at the first failure. */
  ghost function Iterate(v: GridValue, k: nat, step: GridValue -> Result<GridValue, Failure>): (r: Result<GridValue, Failure>)
    ensures k == 0 ==> r == Success(v)
    decreases k
  {
    if k == 0 then Success(v)
    else
      var prev := Iterate(v, k - 1, step);
      if prev.Failure? then prev else step(prev.value)
  }

  /** Once a step has failed, every further one fails with the same error. */
  lemma {:induction false} IteratePropagates(v: GridValue, m: nat, k: nat, step: GridValue -> Result<GridValue, Failure>)
    requires m <= k && Iterate(v, m, step).Failure?
    ensures Iterate(v, k, step) == Iterate(v, m, step)
    decreases k - m
  {
    if m < k {
      IteratePropagates(v, m, k - 1, step);
    }
  }

  /**
   * `expand(g, 2 * cols, 2 * rows)`, the step of `getExpandedPyramid`. Every
   * grid the program builds is valid; any other value is refused the way the
   * grid constructor refuses one.
   */
  ghost function ExpandDoubling(v: GridValue): (r: Result<GridValue, Failure>)
    ensures !v.Valid() ==> r.Failure?
    ensures v.Valid() ==> (r.Failure? <==> ExpandError(v, v.Cols() * 2, v.Rows() * 2).Some?)
    ensures v.Valid() && r.Failure? ==> r.error == ExpandError(v, v.Cols() * 2, v.Rows() * 2).value
    ensures r.Success? ==> v.Valid() && r.value == ExpandValue(v, v.Cols() * 2, v.Rows() * 2) && r.value.Valid()
  {
    if !v.Valid() then Failure(IllegalArgument("Not enough data points."))
    else
      var err := ExpandError(v, v.Cols() * 2, v.Rows() * 2);
      if err.Some? then Failure(err.value) else Success(ExpandValue(v, v.Cols() * 2, v.Rows() * 2))
  }

  function Pow2(k: nat): (p: nat)
    ensures p >= 1
  {
    if k == 0 then 1 else 2 * Pow2(k - 1)
  }

  /** A step that turns every valid void-free grid into one of twice its shape and half its cell size. */
  ghost predicate DoublesVoidFree(step: GridValue -> Result<GridValue, Failure>) {
    forall u: GridValue {:trigger step(u)} :: u.Valid() && VoidFree(u.cells) ==>
      step(u).Success? && step(u).value.Valid() && VoidFree(step(u).value.cells) &&
      step(u).value.Cols() == u.Cols() * 2 && step(u).value.Rows() == u.Rows() * 2 &&
      step(u).value.cellSize * 2.0 == u.cellSize
  }

  lemma {:induction false} IterateVoidFree(v: GridValue, k: nat, step: GridValue -> Result<GridValue, Failure>)
    requires v.Valid() && VoidFree(v.cells) && DoublesVoidFree(step)
    ensures Iterate(v, k, step).Success?
    ensures Iterate(v, k, step).value.Valid() && VoidFree(Iterate(v, k, step).value.cells)
    decreases k
  {
    if k > 0 {
      IterateVoidFree(v, k - 1, step);
      assert Iterate(v, k, step) == step(Iterate(v, k - 1, step).value);
    }
  }

  /** `n` doubled `k` times: `n 2^k`, as DoubledIsScaled shows. */
  function Doubled(n: int, k: nat): int {
    if k == 0 then n else 2 * Doubled(n, k - 1)
  }

  /** `x` halved `k` times: `x / 2^k`, as HalvedIsScaled shows. */
  function Halved(x: real, k: nat): real {
    if k == 0 then x else Halved(x, k - 1) / 2.0
  }

  lemma {:induction false} DoubledIsScaled(n: int, k: nat)
    ensures Doubled(n, k) == n * Pow2(k)
  {
    if k > 0 {
      DoubledIsScaled(n, k - 1);
      assert n * Pow2(k) == 2 * (n * Pow2(k - 1));
    }
  }

  lemma {:induction false} HalvedIsScaled(x: real, k: nat)
    ensures Halved(x, k) * Pow2(k) as real == x
  {
    if k > 0 {
      HalvedIsScaled(x, k - 1);
      var h := Halved(x, k - 1);
      assert Pow2(k) as real == 2.0 * Pow2(k - 1) as real;
      assert (h / 2.0) * (2.0 * Pow2(k - 1) as real) == h * Pow2(k - 1) as real;
    }
  }

  /** k doublings of a void-free grid multiply its shape by 2^k and divide its cell size by 2^k. */
  lemma {:induction false} IterateShape(v: GridValue, k: nat, step: GridValue -> Result<GridValue, Failure>)
    requires v.Valid() && VoidFree(v.cells) && DoublesVoidFree(step)
    ensures Iterate(v, k, step).Success?
    ensures Iterate(v, k, step).value.Cols() == Doubled(v.Cols(), k) && Iterate(v, k, step).value.Rows() == Doubled(v.Rows(), k)
    ensures Iterate(v, k, step).value.cellSize == Halved(v.cellSize, k)
    decreases k
  {
    IterateVoidFree(v, k, step);
    if k > 0 {
      IterateShape(v, k - 1, step);
      IterateVoidFree(v, k - 1, step);
      var prev := Iterate(v, k - 1, step).value;
      assert Iterate(v, k, step) == step(prev);
    }
  }

  /** The doubling expansion of a void-free grid succeeds and stays void-free. */
  lemma DoublingVoidFree()
    ensures DoublesVoidFree(ExpandDoubling)
  {
    forall u: GridValue | u.Valid() && VoidFree(u.cells)
      ensures ExpandDoubling(u).Success? && ExpandDoubling(u).value.Valid() && VoidFree(ExpandDoubling(u).value.cells) &&
        ExpandDoubling(u).value.Cols() == u.Cols() * 2 && ExpandDoubling(u).value.Rows() == u.Rows() * 2 &&
        ExpandDoubling(u).value.cellSize * 2.0 == u.cellSize
    {
      ExpandVoidFree(u, u.Cols() * 2, u.Rows() * 2);
    }
  }

  /**
   * A void-free level expands `k` times without failure, to `2^k` times its
   * columns and rows and `1/2^k` of its cell size, and stays void-free.
   */
  lemma ExpandTimesVoidFree(v: GridValue, k: nat)
    requires v.Valid() && VoidFree(v.cells)
    ensures Iterate(v, k, ExpandDoubling).Success?
    ensures Iterate(v, k, ExpandDoubling).value.Cols() == Doubled(v.Cols(), k)
    ensures Iterate(v, k, ExpandDoubling).value.Rows() == Doubled(v.Rows(), k)
    ensures Iterate(v, k, ExpandDoubling).value.cellSize == Halved(v.cellSize, k)
    ensures Iterate(v, k, ExpandDoubling).value.Valid() && VoidFree(Iterate(v, k, ExpandDoubling).value.cells)
  {
    DoublingVoidFree();
    IterateVoidFree(v, k, ExpandDoubling);
    IterateShape(v, k, ExpandDoubling);
  }

  /** The inner loop of `getExpandedPyramid`: `k` expansions of `grid`, each to twice its shape. */
  method ExpandRepeatedly(grid: Grid, k: nat) returns (res: Result<Grid, Failure>)
    requires grid.Valid()
    ensures res.Failure? <==> Iterate(old(grid.Snapshot()), k, ExpandDoubling).Failure?
    ensures res.Failure? ==> res.error == Iterate(old(grid.Snapshot()), k, ExpandDoubling).error
    ensures res.Success? ==> res.value.Valid() && res.value.Snapshot() == Iterate(old(grid.Snapshot()), k, ExpandDoubling).value
    ensures res.Success? ==> (if k == 0 then res.value == grid else fresh(res.value))
  {
    ghost var v := grid.Snapshot();
    var e := grid;
    for m := 0 to k
      invariant grid.Snapshot() == v
      invariant Iterate(v, m, ExpandDoubling).Success? && e.Valid() && e.Snapshot() == Iterate(v, m, ExpandDoubling).value
      invariant if m == 0 then e == grid else fresh(e)
    {
      var r := Expand(e, e.Cols() * 2, e.Rows() * 2);
      if r.Failure? {
        IteratePropagates(v, m + 1, k, ExpandDoubling);
        return Failure(r.error);
      }
      e := r.value;
    }
    return Success(e);
  }

  /** Entries 0 to i-1 of `getExpandedPyramid` hold the levels `vs` after as many steps as their index. */
  ghost predicate ExpandedUpTo(vs: seq<GridValue>, expanded: seq<Grid?>, i: int, step: GridValue -> Result<GridValue, Failure>)
    reads set g | g in expanded && g != null, set g | g in expanded && g != null :: g.data
  {
    0 <= i <= |vs| && |expanded| == i &&
    forall j :: 0 <= j < i ==>
      Iterate(vs[j], j, step).Success? &&
      expanded[j] != null && expanded[j].Valid() && expanded[j].Snapshot() == Iterate(vs[j], j, step).value
  }

  lemma ExtendExpanded(vs: seq<GridValue>, expanded: seq<Grid?>, g: Grid, i: int, step: GridValue -> Result<GridValue, Failure>)
    requires ExpandedUpTo(vs, expanded, i, step) && i < |vs|
    requires Iterate(vs[i], i, step).Success? && g.Valid() && g.Snapshot() == Iterate(vs[i], i, step).value
    ensures ExpandedUpTo(vs, expanded + [g], i + 1, step)
  {
    var ex := expanded + [g];
    forall j | 0 <= j < i + 1
      ensures Iterate(vs[j], j, step).Success? &&
        ex[j] != null && ex[j].Valid() && ex[j].Snapshot() == Iterate(vs[j], j, step).value
    {
      if j < i {
        assert ex[j] == expanded[j];
      }
    }
  }

  /** The loop of `getExpandedPyramid` over levels `ls` whose values are `vs`. */
  method ExpandLevels(ls: seq<Grid?>, ghost vs: seq<GridValue>) returns (res: Result<seq<Grid?>, Failure>)
    requires |ls| == |vs| >= 1
    requires forall j :: 0 <= j < |ls| ==> ls[j] != null && ls[j].Valid() && ls[j].Snapshot() == vs[j]
    ensures res.Failure? <==> exists j :: 0 <= j < |vs| && Iterate(vs[j], j, ExpandDoubling).Failure?
    ensures res.Failure? ==>
      exists j :: 0 <= j < |vs| && Iterate(vs[j], j, ExpandDoubling) == Failure(res.error) &&
        forall m :: 0 <= m < j ==> Iterate(vs[m], m, ExpandDoubling).Success?
    ensures res.Success? ==> |res.value| == |ls| && res.value[0] == ls[0]
    ensures res.Success? ==> forall j :: 0 <= j < |ls| ==>
      res.value[j] != null && res.value[j].Valid() && res.value[j].Snapshot() == Iterate(vs[j], j, ExpandDoubling).value
    ensures res.Success? ==> forall j :: 1 <= j < |res.value| ==> res.value[j] != null && fresh(res.value[j])
  {
    var expanded: seq<Grid?> := [];
    for i := 0 to |ls|
      invariant ExpandedUpTo(vs, expanded, i, ExpandDoubling)
      invariant i > 0 ==> expanded[0] == ls[0]
      invariant forall j :: 1 <= j < i ==> expanded[j] != null && fresh(expanded[j])
    {
      var e := ExpandLevelAt(ls[i], vs, expanded, i);
      if e.Failure? {
        ExpandedFails(vs, expanded, i, e.error);
        return Failure(e.error);
      }
      expanded := expanded + [e.value];
    }
    return Success(expanded);
  }

  /** Iteration i of the loop of `getExpandedPyramid`: level i expanded i times. */
  method ExpandLevelAt(grid: Grid, ghost vs: seq<GridValue>, ghost expanded: seq<Grid?>, i: int) returns (res: Result<Grid, Failure>)
    requires ExpandedUpTo(vs, expanded, i, ExpandDoubling) && i < |vs|
    requires grid.Valid() && grid.Snapshot() == vs[i]
    ensures res.Failure? ==> Iterate(vs[i], i, ExpandDoubling) == Failure(res.error)
    ensures res.Success? ==> ExpandedUpTo(vs, expanded + [res.value], i + 1, ExpandDoubling)
    ensures res.Success? ==> if i == 0 then res.value == grid else fresh(res.value)
  {
    res := ExpandRepeatedly(grid, i);
    if res.Success? {
      ExtendExpanded(vs, expanded, res.value, i, ExpandDoubling);
    }
  }

  /** The first level whose expansion fails gives `getExpandedPyramid` its exception. */
  lemma ExpandedFails(vs: seq<GridValue>, expanded: seq<Grid?>, i: int, err: Failure)
    requires ExpandedUpTo(vs, expanded, i, ExpandDoubling) && i < |vs|
    requires Iterate(vs[i], i, ExpandDoubling) == Failure(err)
    ensures exists j :: 0 <= j < |vs| && Iterate(vs[j], j, ExpandDoubling).Failure?
    ensures exists j ::
              0 <= j < |vs| && Iterate(vs[j], j, ExpandDoubling) == Failure(err) &&
              forall m :: 0 <= m < j ==> Iterate(vs[m], m, ExpandDoubling).Success?
  {
    assert forall m :: 0 <= m < i ==> Iterate(vs[m], m, ExpandDoubling).Success?;
  }

  /** The Gaussian pyramid object: its levels, finest first. */
  class GaussianPyramid {
    const pyramid: seq<Grid?>

    /** The levels are the input grid and grids allocated while building. */
    ghost predicate Valid()
      reads this, set g | g in pyramid && g != null
    {
      |pyramid| >= 1 && (pyramid[0] == null ==> |pyramid| == 1) &&
      (pyramid[0] != null ==> forall i :: 0 <= i < |pyramid| ==> pyramid[i] != null && pyramid[i].Valid())
    }

    /** `GaussianPyramid(geoGrid)`: at most 9999 levels, default minimum cell count. */
    constructor (geoGrid: Grid?, reduce: GridValue -> GridValue)
      requires Halves(reduce) && (geoGrid != null ==> geoGrid.Valid())
      ensures Valid() && pyramid[0] == geoGrid
      ensures geoGrid != null ==> |pyramid| == |Pyramid(geoGrid.Snapshot(), DefaultMaxLevelsCount, DefaultMinCellCount, reduce)|
      ensures geoGrid != null ==> forall i :: 0 <= i < |pyramid| ==>
        pyramid[i] != null && pyramid[i].Snapshot() == Pyramid(geoGrid.Snapshot(), DefaultMaxLevelsCount, DefaultMinCellCount, reduce)[i]
    {
      var levels := CreatePyramidDefault(geoGrid, DefaultMaxLevelsCount, reduce);
      pyramid := levels;
    }

    /** `GaussianPyramid(geoGrid, maxLevelsCount)`. */
    constructor WithMaxLevels(geoGrid: Grid?, maxLevelsCount: int, reduce: GridValue -> GridValue)
      requires Halves(reduce) && (geoGrid != null ==> geoGrid.Valid())
      ensures Valid() && pyramid[0] == geoGrid
      ensures geoGrid != null ==> |pyramid| == |Pyramid(geoGrid.Snapshot(), maxLevelsCount, DefaultMinCellCount, reduce)|
      ensures geoGrid != null ==> forall i :: 0 <= i < |pyramid| ==>
        pyramid[i] != null && pyramid[i].Snapshot() == Pyramid(geoGrid.Snapshot(), maxLevelsCount, DefaultMinCellCount, reduce)[i]
    {
      var levels := CreatePyramidDefault(geoGrid, maxLevelsCount, reduce);
      pyramid := levels;
    }

    /** `GaussianPyramid(geoGrid, maxLevelsCount, minCellCount)`. */
    constructor WithLimits(geoGrid: Grid?, maxLevelsCount: int, minCellCount: int, reduce: GridValue -> GridValue)
      requires Halves(reduce) && (geoGrid != null ==> geoGrid.Valid())
      ensures Valid() && pyramid[0] == geoGrid
      ensures geoGrid != null ==> |pyramid| == |Pyramid(geoGrid.Snapshot(), maxLevelsCount, minCellCount, reduce)|
      ensures geoGrid != null ==> forall i :: 0 <= i < |pyramid| ==>
        pyramid[i] != null && pyramid[i].Snapshot() == Pyramid(geoGrid.Snapshot(), maxLevelsCount, minCellCount, reduce)[i]
    {
      var levels := CreatePyramid(geoGrid, maxLevelsCount, minCellCount, reduce);
      pyramid := levels;
    }

    /**
     * `getExpandedPyramid`: entry i is level i expanded i times, so that every
     * entry has about the shape of level 0; entry 0 is level 0 itself. The
     * first expansion that throws ends the call.
     */
    method ExpandedPyramid() returns (res: Result<seq<Grid?>, Failure>)
      requires Valid()
      ensures pyramid[0] == null ==> res == Success(pyramid)
      ensures pyramid[0] != null ==> (res.Failure? <==>
        exists j :: 0 <= j < |pyramid| && Iterate(old(pyramid[j].Snapshot()), j, ExpandDoubling).Failure?)
      ensures pyramid[0] != null && res.Failure? ==>
        exists j :: 0 <= j < |pyramid| && Iterate(old(pyramid[j].Snapshot()), j, ExpandDoubling) == Failure(res.error) &&
          forall m :: 0 <= m < j ==> Iterate(old(pyramid[m].Snapshot()), m, ExpandDoubling).Success?
      ensures res.Success? ==> |res.value| == |pyramid| && res.value[0] == pyramid[0]
      ensures pyramid[0] != null && res.Success? ==> forall j :: 0 <= j < |pyramid| ==>
        res.value[j] != null && res.value[j].Valid() &&
        res.value[j].Snapshot() == Iterate(old(pyramid[j].Snapshot()), j, ExpandDoubling).value
      ensures res.Success? ==> forall j :: 1 <= j < |res.value| ==> res.value[j] != null && fresh(res.value[j])
    {
      if pyramid[0] == null {
        return Success(pyramid);
      }
      ghost var vs := seq(|pyramid|, (j: int) requires 0 <= j < |pyramid| reads this, set g | g in pyramid && g != null, set g | g in pyramid && g != null :: g.data => pyramid[j].Snapshot());
      res := ExpandLevels(pyramid, vs);
    }

    /** `getLevelsCount`. */
    function LevelsCount(): (n: int)
      reads this, set g | g in pyramid && g != null
      requires Valid()
      ensures n >= 1 && n == |pyramid|
    {
      |pyramid|
    }

    /** `getLevel(level)`: an index outside the levels throws. */
    function Level(level: int): (r: Result<Grid?, Failure>)
      reads this
      ensures r.Failure? <==> !(0 <= level < |pyramid|)
      ensures r.Failure? ==> r.error == IndexOutOfBounds
      ensures r.Success? ==> r.value == pyramid[level]
    {
      if 0 <= level < |pyramid| then Success(pyramid[level]) else Failure(IndexOutOfBounds)
    }

    /** `getFullResolutionLevel`: the input grid itself. */
    function FullResolutionLevel(): (g: Grid?)
      reads this, set g | g in pyramid && g != null
      requires Valid()
      ensures g == pyramid[0] && Level(0) == Success(g)
    {
      pyramid[0]
    }
  }
}
