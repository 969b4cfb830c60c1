/**
 * The generalisation settings of the application model: one weight per
 * Laplacian pyramid level, clamped to [0, 1], the guarded setter of the
 * amount of generalisation, the lookup of a named colour ramp, and the
 * recomputation of the generalised grid from the weighted pyramid levels,
 * with its rescaling and its slope grid.
 */
module Models {
  import opened Wrappers
  import opened Grids
  import LaplacianSpec
  import opened LaplacianPyramids

  /** The slope m of the weight line y = m * level + c, for generalisation `details` below 1. */
  function Slope(maxLevels: int, details: real): (m: real)
    requires maxLevels > 0 && details != 1.0
  {
    if details > 0.0 then 1.0 / (maxLevels as real * (1.0 - details))
    else (1.0 + details) / maxLevels as real
  }

  /** The intercept c of the weight line y = m * level + c. */
  function Intercept(details: real): (c: real)
    requires details != 1.0
  {
    if details > 0.0 then details / (details - 1.0) else -details
  }

  /** The weight line at `level`, before clamping. */
  function Line(maxLevels: int, details: real, level: int): real
    requires maxLevels > 0 && details != 1.0
  {
    Slope(maxLevels, details) * level as real + Intercept(details)
  }

  /** `Math.min(Math.max(0, w), 1)`. */
  function Clamp(w: real): (v: real)
    ensures 0.0 <= v <= 1.0
    ensures 0.0 <= w <= 1.0 ==> v == w
  {
    if w < 0.0 then 0.0 else if w > 1.0 then 1.0 else w
  }

  /**
   * `getPyramidLevelWeight`: the weight of Laplacian level `level` (0 holds
   * the highest frequencies) when the `maxLevels` finest levels are
   * generalised by the amount `details`, between -1 (keep every detail) and
   * +1 (remove every detail). Levels from `maxLevels` on keep weight 1.
   */
  function PyramidLevelWeight(maxLevels: int, details: real, level: int): (w: real)
    ensures 0.0 <= w <= 1.0
    ensures level >= maxLevels || maxLevels <= 0 ==> w == 1.0
    ensures 0 <= level < maxLevels && details == 1.0 ==> w == 0.0
    ensures 0 <= level < maxLevels && details == -1.0 ==> w == 1.0
  {
    if level >= maxLevels || maxLevels <= 0 then 1.0
    else if details == 1.0 then 0.0
    else Clamp(Line(maxLevels, details, level))
  }

  /** The slope of the weight line is never negative while `details` lies in [-1, 1]. */
  lemma SlopeNonNegative(maxLevels: int, details: real)
    requires maxLevels > 0 && -1.0 <= details < 1.0
    ensures Slope(maxLevels, details) >= 0.0
  {
    if details > 0.0 {
      assert maxLevels as real * (1.0 - details) > 0.0 by {
        PositiveProduct(maxLevels as real, 1.0 - details);
      }
    }
  }

  lemma PositiveProduct(a: real, b: real)
    requires a > 0.0 && b > 0.0
    ensures a * b > 0.0
  {
  }

  lemma ScaleMonotone(m: real, x: real, y: real)
    requires m >= 0.0 && x <= y
    ensures m * x <= m * y
  {
    assert m * y - m * x == m * (y - x);
  }

  /**
   * For `details` in [-1, 1] the weight never decreases from one pyramid
   * level to a coarser one: fine levels are generalised at least as much as
   * coarse ones.
   */
  lemma WeightMonotone(maxLevels: int, details: real, level1: int, level2: int)
    requires -1.0 <= details <= 1.0 && level1 <= level2
    ensures PyramidLevelWeight(maxLevels, details, level1) <= PyramidLevelWeight(maxLevels, details, level2)
  {
    if level2 < maxLevels && maxLevels > 0 && details != 1.0 {
      SlopeNonNegative(maxLevels, details);
      ScaleMonotone(Slope(maxLevels, details), level1 as real, level2 as real);
      assert Line(maxLevels, details, level1) <= Line(maxLevels, details, level2);
    }
  }

  /**
   * The unclamped line reaches weight 1 at level `maxLevels`, so the weights
   * join the constant 1 of the coarser levels without a jump.
   */
  lemma LineReachesOne(maxLevels: int, details: real)
    requires maxLevels > 0 && -1.0 <= details < 1.0
    ensures Line(maxLevels, details, maxLevels) == 1.0
  {
    var n := maxLevels as real;
    if details > 0.0 {
      assert n * (1.0 - details) != 0.0 by { PositiveProduct(n, 1.0 - details); }
      assert Slope(maxLevels, details) * n == 1.0 / (1.0 - details);
      assert Intercept(details) == -details / (1.0 - details);
    } else {
      assert Slope(maxLevels, details) * n == 1.0 + details;
    }
  }

  /**
   * For positive `details` the line crosses weight 0 at level
   * `details * maxLevels`: that share of the finest levels is removed.
   */
  lemma LineCrossesZero(maxLevels: int, details: real)
    requires maxLevels > 0 && 0.0 < details < 1.0
    ensures Slope(maxLevels, details) * (details * maxLevels as real) + Intercept(details) == 0.0
  {
    var n := maxLevels as real;
    assert n * (1.0 - details) != 0.0 by { PositiveProduct(n, 1.0 - details); }
    assert Slope(maxLevels, details) * (details * n) == details / (1.0 - details);
  }

  /** The weight array of `updateGeneralizedGrid`: w[i] is the weight of level i. */
  function Weights(maxLevels: int, details: real, n: nat): (ws: seq<real>)
  {
    seq(n, i requires 0 <= i < n => PyramidLevelWeight(maxLevels, details, i))
  }

  /** The weight array holds one weight in [0, 1] per level, in non-decreasing order. */
  lemma WeightsOrdered(maxLevels: int, details: real, n: nat)
    requires -1.0 <= details <= 1.0
    ensures |Weights(maxLevels, details, n)| == n
    ensures forall i :: 0 <= i < n ==> 0.0 <= Weights(maxLevels, details, n)[i] <= 1.0
    ensures forall i, j :: 0 <= i <= j < n ==> Weights(maxLevels, details, n)[i] <= Weights(maxLevels, details, n)[j]
  {
    var ws := Weights(maxLevels, details, n);
    forall i, j | 0 <= i <= j < n ensures ws[i] <= ws[j] {
      WeightMonotone(maxLevels, details, i, j);
    }
  }

  /** A colour as its red, green and blue components. */
  datatype Color = Color(red: int, green: int, blue: int)

  /** A named colour ramp: colours at relative positions between 0 and 1. */
  datatype ColorRamp = ColorRamp(name: string, colors: seq<Color>, colorPositions: seq<real>)

  /** The five ramps the model offers, in the order they are listed. */
  function PredefinedColorRamps(): (ramps: seq<ColorRamp>)
    ensures |ramps| == 5
    ensures forall i :: 0 <= i < |ramps| ==> |ramps[i].colors| == |ramps[i].colorPositions|
  {
    var gray, white, black := Color(128, 128, 128), Color(255, 255, 255), Color(0, 0, 0);
    [ ColorRamp("Soft Gray", [gray, white], [0.0, 1.0]),
      ColorRamp("Hard Gray", [black, white], [0.5, 1.0]),
      ColorRamp("Natural Light (Exposition)",
        [Color(0x6d, 0x7e, 0xa1), Color(0x97, 0xa3, 0xba), Color(0xbc, 0xbc, 0xbc), Color(0xde, 0xda, 0xce), Color(0xe8, 0xe8, 0xe8)],
        [0.0, 0.56, 0.81, 0.93, 1.0]),
      ColorRamp("Swiss Style (Exposition)",
        [Color(0x52, 0x6b, 0x75), Color(0x6a, 0x8e, 0x82), Color(0xa6, 0xb4, 0xa9), Color(0xe2, 0xd4, 0xac), Color(0xf7, 0xf3, 0xb1)],
        [0.0, 0.42, 0.73, 0.88, 1.0]),
      ColorRamp("Hypsometric",
        [Color(120, 181, 141), Color(124, 172, 104), Color(190, 194, 107), Color(212, 218, 170), Color(225, 246, 244), Color(255, 255, 255)],
        [0.0, 0.08, 0.24, 0.43, 0.69, 0.89]) ]
  }

  /** The index of the first ramp called `name`, if there is one. */
  function FirstNamed(ramps: seq<ColorRamp>, name: string): (k: Option<nat>)
    ensures k.Some? ==> k.value < |ramps| && ramps[k.value].name == name
    ensures k.Some? ==> forall j :: 0 <= j < k.value ==> ramps[j].name != name
    ensures k.None? ==> forall j :: 0 <= j < |ramps| ==> ramps[j].name != name
  {
    if |ramps| == 0 then None
    else if ramps[0].name == name then Some(0)
    else
      var k := FirstNamed(ramps[1..], name);
      if k.None? then None else Some(k.value + 1)
  }

  /**
   * The grid operators `updateGeneralizedGrid` applies after summing, whose
   * classes are not part of this model: `GridScaleToRangeOperator` gives the
   * cells of a grid rescaled to a min/max range (`None` for a null range),
   * and `GridSlopeOperator` gives the slope grid of a grid.
   */
  datatype Operators = Operators(
    scaleToRange: (Option<seq<real>>, GridValue) -> Raster,
    slope: GridValue -> GridValue)

  /** Rescaling keeps the shape of the grid, as an operator writing into its own source grid must. */
  ghost predicate ScaleKeepsShape(ops: Operators) {
    forall minMax: Option<seq<real>>, v: GridValue :: v.Valid() ==> IsRaster(ops.scaleToRange(minMax, v), v.Cols(), v.Rows())
  }

  /** The in-place write of a scaled raster into the grid it was computed from. */
  method StoreCells(g: Grid, m: Raster)
    requires IsRaster(m, g.Cols(), g.Rows())
    modifies g.data
    ensures g.Cells() == m
  {
    for r := 0 to g.Rows()
      invariant forall r', c :: 0 <= r' < r && 0 <= c < g.Cols() ==> g.data[r', c] == m[r'][c]
    {
      for c := 0 to g.Cols()
        invariant forall r', c' :: 0 <= r' < r && 0 <= c' < g.Cols() ==> g.data[r', c'] == m[r'][c']
        invariant forall c' :: 0 <= c' < c ==> g.data[r, c'] == m[r][c']
      {
        g.data[r, c] := m[r][c];
      }
    }
    RasterOfEq(g.data, m);
  }

  /**
   * The two steps after the sum: the grid is rescaled in place to the range
   * `minMax`, keeping its georeference, and its slope grid is computed.
   */
  method RescaleAndSlope(ops: Operators, minMax: Option<seq<real>>, g: Grid) returns (slope: GridValue)
    requires g.Valid() && ScaleKeepsShape(ops)
    modifies g.data
    ensures g.Valid()
    ensures g.Snapshot() == old(g.Snapshot()).(cells := ops.scaleToRange(minMax, old(g.Snapshot())))
    ensures slope == ops.slope(g.Snapshot())
  {
    StoreCells(g, ops.scaleToRange(minMax, g.Snapshot()));
    slope := ops.slope(g.Snapshot());
  }

  class Model {
    /** The scale and slope operators. */
    const ops: Operators
    /** The ramps the user can choose from; never changed after construction. */
    const predefinedColorRamps: seq<ColorRamp>
    /** The ramp in use. */
    var colorRamp: ColorRamp
    /** The number of finest Laplacian levels that are generalised. */
    var generalizationMaxLevels: int
    /** The amount of generalisation, kept in [-1, 1] by its setter. */
    var generalizationDetails: real
    /** The Laplacian pyramid of the original grid, once one is loaded. */
    var laplacianPyramid: LaplacianPyramid?
    /** The minimum and maximum of the original grid; `None` before a grid is set. */
    var gridMinMax: Option<seq<real>>
    /** The grid recomposed from the weighted pyramid levels. */
    var generalizedGrid: Grid?
    /** The slope grid of the generalised grid. */
    var generalizedSlopeGrid: Option<GridValue>

    constructor (ops: Operators)
      ensures predefinedColorRamps == PredefinedColorRamps()
      ensures colorRamp == predefinedColorRamps[0] && colorRamp.name == "Soft Gray"
      ensures generalizationMaxLevels == 0 && generalizationDetails == -0.8
      ensures laplacianPyramid == null && generalizedGrid == null
      ensures gridMinMax.None? && generalizedSlopeGrid.None? && this.ops == ops
    {
      this.ops := ops;
      predefinedColorRamps := PredefinedColorRamps();
      colorRamp := PredefinedColorRamps()[0];
      generalizationMaxLevels := 0;
      generalizationDetails := -0.8;
      laplacianPyramid := null;
      gridMinMax := None;
      generalizedGrid := null;
      generalizedSlopeGrid := None;
    }

    /**
     * `selectColorRamp`: the first predefined ramp with the given name
     * becomes the ramp in use; an unknown name changes nothing.
     */
    method SelectColorRamp(name: string)
      modifies this
      ensures FirstNamed(predefinedColorRamps, name).Some? ==>
        colorRamp == predefinedColorRamps[FirstNamed(predefinedColorRamps, name).value]
      ensures FirstNamed(predefinedColorRamps, name).None? ==> colorRamp == old(colorRamp)
      ensures generalizationMaxLevels == old(generalizationMaxLevels) && generalizationDetails == old(generalizationDetails)
      ensures laplacianPyramid == old(laplacianPyramid) && generalizedGrid == old(generalizedGrid)
      ensures gridMinMax == old(gridMinMax) && generalizedSlopeGrid == old(generalizedSlopeGrid)
    {
      var i := 0;
      while i < |predefinedColorRamps|
        invariant 0 <= i <= |predefinedColorRamps|
        invariant forall j :: 0 <= j < i ==> predefinedColorRamps[j].name != name
      {
        var cr := predefinedColorRamps[i];
        if cr.name == name {
          colorRamp := cr;
          return;
        }
        i := i + 1;
      }
    }

    /**
     * `setGeneralizationDetails`: a value outside [-1, 1] is refused with an
     * IllegalArgumentException and the stored value stays as it was.
     */
    method SetGeneralizationDetails(details: real) returns (err: Option<Failure>)
      modifies this
      ensures err.Some? <==> details < -1.0 || details > 1.0
      ensures err.Some? ==> err.value == IllegalArgument("") && generalizationDetails == old(generalizationDetails)
      ensures err.None? ==> generalizationDetails == details
      ensures colorRamp == old(colorRamp) && generalizationMaxLevels == old(generalizationMaxLevels)
      ensures laplacianPyramid == old(laplacianPyramid) && generalizedGrid == old(generalizedGrid)
      ensures gridMinMax == old(gridMinMax) && generalizedSlopeGrid == old(generalizedSlopeGrid)
    {
      if details < -1.0 || details > 1.0 {
        return Some(IllegalArgument(""));
      }
      generalizationDetails := details;
      return None;
    }

    /**
     * `updateGeneralizedGrid`: nothing happens without a pyramid. Otherwise
     * one weight per level is computed and the levels are summed with those
     * weights; the sum becomes the generalised grid, is rescaled in place to
     * the range of the original grid, and its slope grid is computed.
     */
    method UpdateGeneralizedGrid() returns (err: Option<Failure>)
      requires laplacianPyramid != null && laplacianPyramid.levels.Some? ==>
        forall j :: 0 <= j < |laplacianPyramid.levels.value| && laplacianPyramid.levels.value[j] != null ==>
          laplacianPyramid.levels.value[j].Valid()
      requires ScaleKeepsShape(ops)
      modifies this
      ensures colorRamp == old(colorRamp) && laplacianPyramid == old(laplacianPyramid) && gridMinMax == old(gridMinMax)
      ensures generalizationMaxLevels == old(generalizationMaxLevels) && generalizationDetails == old(generalizationDetails)
      ensures err.Some? || laplacianPyramid == null ==>
        generalizedGrid == old(generalizedGrid) && generalizedSlopeGrid == old(generalizedSlopeGrid)
      ensures laplacianPyramid == null ==> err.None?
      ensures laplacianPyramid != null && laplacianPyramid.levels.None? ==> err == Some(NullPointer)
      ensures laplacianPyramid != null && laplacianPyramid.levels.Some? ==> (
        var sum := LaplacianSpec.SumLevelsValue(old(Values(laplacianPyramid.levels.value)),
          Some(Weights(generalizationMaxLevels, generalizationDetails, |laplacianPyramid.levels.value|)));
        (err.Some? <==> sum.Failure?) &&
        (err.Some? ==> err.value == sum.error) &&
        (err.None? ==> (generalizedGrid != null && fresh(generalizedGrid) && generalizedGrid.Valid() &&
                        generalizedGrid.Snapshot() == sum.value.(cells := ops.scaleToRange(gridMinMax, sum.value)) &&
                        generalizedSlopeGrid == Some(ops.slope(generalizedGrid.Snapshot())))))
    {
      if laplacianPyramid == null {
        return None;
      }
      if laplacianPyramid.levels.None? {
        return Some(NullPointer);
      }
      var ls := laplacianPyramid.levels.value;
      var w := LevelWeights(|ls|);
      var res := laplacianPyramid.SumValues(ls, Values(ls), Some(w[..]));
      if res.Failure? {
        return Some(res.error);
      }
      var g := res.value;
      var slope := RescaleAndSlope(ops, gridMinMax, g);
      generalizedGrid := g;
      generalizedSlopeGrid := Some(slope);
      return None;
    }

    /** The loop of `updateGeneralizedGrid` that fills the weight array. */
    method LevelWeights(n: nat) returns (w: array<real>)
      ensures fresh(w) && w[..] == Weights(generalizationMaxLevels, generalizationDetails, n)
    {
      w := new real[n];
      for i := 0 to n
        invariant forall j :: 0 <= j < i ==> w[j] == PyramidLevelWeight(generalizationMaxLevels, generalizationDetails, j)
      {
        w[i] := PyramidLevelWeight(generalizationMaxLevels, generalizationDetails, i);
      }
    }
  }
}
