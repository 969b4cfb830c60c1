/**
 * Shaded relief. Every interior cell gets the normal of the four triangles
 * around it, assembled from cross products of the vectors to its four
 * neighbours; border cells get a level surface. The dot product of the
 * unit normal with the light direction is scaled from [-1, 1] to a gray
 * value in [0, 255]. Components are doubles that may be NaN, so they are
 * cells here.
 */
module Shaders {
  import opened Cells
  import opened Grids

  datatype Vec = Vec(x: Cell, y: Cell, z: Cell)

  /** All three components are numbers. */
  predicate Defined(v: Vec) {
    v.x.Val? && v.y.Val? && v.z.Val?
  }

  /** A vector of three numbers. */
  function Vector(x: real, y: real, z: real): (v: Vec)
    ensures Defined(v)
  {
    Vec(Val(x), Val(y), Val(z))
  }

  function Plus(a: Vec, b: Vec): (s: Vec)
    ensures Defined(a) && Defined(b) ==> Defined(s)
  {
    Vec(Add(a.x, b.x), Add(a.y, b.y), Add(a.z, b.z))
  }

  /** The cross product a x b. */
  function Cross(a: Vec, b: Vec): (c: Vec)
    ensures Defined(a) && Defined(b) ==> Defined(c)
  {
    Vec(Sub(Mul(a.y, b.z), Mul(a.z, b.y)), Sub(Mul(a.z, b.x), Mul(a.x, b.z)), Sub(Mul(a.x, b.y), Mul(a.y, b.x)))
  }

  /** `dotProduct`. */
  function Dot(a: Vec, b: Vec): (d: Cell)
    ensures d.Val? <==> Defined(a) && Defined(b)
  {
    Add(Add(Mul(a.x, b.x), Mul(a.y, b.y)), Mul(a.z, b.z))
  }

  /** The cross product is perpendicular to both of its factors. */
  lemma CrossPerpendicular(a: Vec, b: Vec)
    requires Defined(a) && Defined(b)
    ensures Dot(Cross(a, b), a) == Val(0.0) && Dot(Cross(a, b), b) == Val(0.0)
  {
    var a1, a2, a3, b1, b2, b3 := a.x.r, a.y.r, a.z.r, b.x.r, b.y.r, b.z.r;
    assert (a2 * b3 - a3 * b2) * a1 + (a3 * b1 - a1 * b3) * a2 + (a1 * b2 - a2 * b1) * a3 == 0.0;
    assert (a2 * b3 - a3 * b2) * b1 + (a3 * b1 - a1 * b3) * b2 + (a1 * b2 - a2 * b1) * b3 == 0.0;
  }

  /** Swapping the factors reverses the cross product. */
  lemma CrossAntisymmetric(a: Vec, b: Vec)
    requires Defined(a) && Defined(b)
    ensures var c, d := Cross(a, b), Cross(b, a); Defined(c) && Defined(d) && c.x.r == -d.x.r && c.y.r == -d.y.r && c.z.r == -d.z.r
  {
  }

  /**
   * `Vector3D.normalize`, which the model leaves to a library function on
   * numbers: a NaN component makes the length NaN and so every component.
   */
  function Normalized(v: Vec, normalize: Vec -> Vec): (n: Vec)
    ensures !Defined(v) ==> n == Vec(Void, Void, Void)
  {
    if Defined(v) then normalize(v) else Vec(Void, Void, Void)
  }

  /** The four quadrant products south x east, east x north, north x west and west x south, summed in that order. */
  function QuadrantSum(cs: real, eS: Cell, eE: Cell, eN: Cell, eW: Cell): Vec {
    var s := Vec(Val(0.0), Val(-cs), eS);
    var e := Vec(Val(cs), Val(0.0), eE);
    var n := Vec(Val(0.0), Val(cs), eN);
    var w := Vec(Val(-cs), Val(0.0), eW);
    Plus(Plus(Plus(Cross(s, e), Cross(e, n)), Cross(n, w)), Cross(w, s))
  }

  /**
   * The unnormalised normal in closed form: (2 cs (eW - eE), 2 cs (eS - eN),
   * 4 cs^2), which points up whenever the cell size is not 0.
   */
  lemma QuadrantSumClosedForm(cs: real, eS: real, eE: real, eN: real, eW: real)
    ensures QuadrantSum(cs, Val(eS), Val(eE), Val(eN), Val(eW)) ==
      Vector(2.0 * cs * (eW - eE), 2.0 * cs * (eS - eN), 4.0 * cs * cs)
    ensures cs != 0.0 ==> 4.0 * cs * cs > 0.0
  {
    var q := QuadrantSum(cs, Val(eS), Val(eE), Val(eN), Val(eW));
    assert q.x == Val(-cs * eE + -cs * eE + cs * eW + cs * eW);
    assert q.y == Val(cs * eS + -cs * eN + -cs * eN + cs * eS);
    assert q.z == Val(cs * cs + cs * cs + cs * cs + cs * cs);
  }

  /** A void neighbour or centre leaves the quadrant sum with a NaN component. */
  lemma QuadrantSumVoid(cs: real, eS: Cell, eE: Cell, eN: Cell, eW: Cell)
    ensures Defined(QuadrantSum(cs, eS, eE, eN, eW)) <==> eS.Val? && eE.Val? && eN.Val? && eW.Val?
  {
  }

  /** `(g[neighbour] - elevCenter) * vertExaggeration`. */
  function Difference(neighbour: Cell, center: Cell, vertExaggeration: real): Cell {
    Scale(Sub(neighbour, center), vertExaggeration)
  }

  /** The cells of the first and last rows and columns, which keep a level surface. */
  predicate OnBorder(cols: int, rows: int, col: int, row: int) {
    !(col > 0 && col < cols - 1 && row > 0 && row < rows - 1)
  }

  /** `computeTerrainNormal(col, row, grid, n, cellSize)`: the normal it leaves in `n`. */
  function TerrainNormal(m: Raster, cols: int, col: int, row: int, cellSize: real, vertExaggeration: real,
                         normalize: Vec -> Vec): Vec
    requires IsRaster(m, cols, |m|)
  {
    if OnBorder(cols, |m|, col, row) then Vector(0.0, 0.0, 1.0)
    else
      var center := m[row][col];
      Normalized(QuadrantSum(cellSize,
        Difference(m[row + 1][col], center, vertExaggeration),
        Difference(m[row][col + 1], center, vertExaggeration),
        Difference(m[row - 1][col], center, vertExaggeration),
        Difference(m[row][col - 1], center, vertExaggeration)), normalize)
  }

  /** Border cells get the vertical normal (0, 0, 1) whatever the elevations. */
  lemma BorderNormalIsVertical(m: Raster, cols: int, col: int, row: int, cellSize: real, vertExaggeration: real,
                               normalize: Vec -> Vec)
    requires IsRaster(m, cols, |m|)
    requires col == 0 || col == cols - 1 || row == 0 || row == |m| - 1
    ensures TerrainNormal(m, cols, col, row, cellSize, vertExaggeration, normalize) == Vector(0.0, 0.0, 1.0)
  {
  }

  /**
   * Without exaggeration every difference is 0, so an interior cell whose
   * neighbourhood holds values gets the normalised vertical (0, 0, 4 cs^2).
   */
  lemma NoExaggerationIsVertical(m: Raster, cols: int, col: int, row: int, cellSize: real, normalize: Vec -> Vec)
    requires IsRaster(m, cols, |m|) && !OnBorder(cols, |m|, col, row)
    requires m[row][col].Val? && m[row + 1][col].Val? && m[row][col + 1].Val? && m[row - 1][col].Val? && m[row][col - 1].Val?
    ensures TerrainNormal(m, cols, col, row, cellSize, 0.0, normalize) == normalize(Vector(0.0, 0.0, 4.0 * cellSize * cellSize))
  {
    QuadrantSumClosedForm(cellSize, 0.0, 0.0, 0.0, 0.0);
    var center := m[row][col];
    assert Difference(m[row + 1][col], center, 0.0) == Val(0.0);
    assert Difference(m[row][col + 1], center, 0.0) == Val(0.0);
    assert Difference(m[row - 1][col], center, 0.0) == Val(0.0);
    assert Difference(m[row][col - 1], center, 0.0) == Val(0.0);
  }

  /** An interior cell with a void centre or neighbour has an undefined normal. */
  lemma VoidNeighbourhoodGivesVoidNormal(m: Raster, cols: int, col: int, row: int, cellSize: real, vertExaggeration: real,
                                         normalize: Vec -> Vec)
    requires IsRaster(m, cols, |m|) && !OnBorder(cols, |m|, col, row)
    requires m[row][col].Void? || m[row + 1][col].Void? || m[row][col + 1].Void? || m[row - 1][col].Void? || m[row][col - 1].Void?
    ensures TerrainNormal(m, cols, col, row, cellSize, vertExaggeration, normalize) == Vec(Void, Void, Void)
  {
    var center := m[row][col];
    QuadrantSumVoid(cellSize, Difference(m[row + 1][col], center, vertExaggeration),
      Difference(m[row][col + 1], center, vertExaggeration), Difference(m[row - 1][col], center, vertExaggeration),
      Difference(m[row][col - 1], center, vertExaggeration));
  }

  /** Cell sizes below 0.1 are taken as degrees and converted to metres on a sphere of radius 6371 km. */
  function MetricCellSize(cellSize: real): (cs: real)
    ensures cellSize < 0.1 ==> cs == cellSize * (MathPI * 6371000.0 / 180.0)
    ensures cellSize >= 0.1 ==> cs == cellSize
  {
    if cellSize < 0.1 then cellSize / 180.0 * MathPI * 6371000.0 else cellSize
  }

  /**
   * A positive cell size in degrees becomes more than 100000 times larger,
   * so every size from 0.000001 up to 0.1 ends up larger than 0.1 itself.
   */
  lemma MetricCellSizeScale(cellSize: real)
    requires 0.0 < cellSize < 0.1
    ensures MetricCellSize(cellSize) > 100000.0 * cellSize
    ensures cellSize >= 0.000001 ==> MetricCellSize(cellSize) > MetricCellSize(0.1)
  {
    assert MathPI * 6371000.0 / 180.0 > 100000.0;
  }

  /** `(dotProduct + 1) / 2 * 255`: the gray value of a dot product. */
  function Gray(dot: real): (g: real)
    ensures -1.0 <= dot <= 1.0 ==> 0.0 <= g <= 255.0
    ensures dot == -1.0 ==> g == 0.0
    ensures dot == 1.0 ==> g == 255.0
  {
    (dot + 1.0) / 2.0 * 255.0
  }

  /** Brighter for surfaces that face the light more directly. */
  lemma GrayMonotonic(a: real, b: real)
    requires a <= b
    ensures Gray(a) <= Gray(b)
  {
  }

  /** The stored cell: the gray value of the dot product, void when it is NaN. */
  function ShadeCell(dot: Cell): (g: Cell)
    ensures g.Val? <==> dot.Val?
  {
    if dot.Val? then Val(Gray(dot.r)) else Void
  }

  /** The shading of cell (row, col) for light direction `light`. */
  function Shade(m: Raster, cols: int, col: int, row: int, cellSize: real, vertExaggeration: real,
                 normalize: Vec -> Vec, light: Vec): Cell
    requires IsRaster(m, cols, |m|)
  {
    ShadeCell(Dot(TerrainNormal(m, cols, col, row, MetricCellSize(cellSize), vertExaggeration, normalize), light))
  }

  /** The mutable vector the operator reuses for every cell. */
  class Vector3D {
    var x: Cell
    var y: Cell
    var z: Cell

    constructor (x: Cell, y: Cell, z: Cell)
      ensures Value() == Vec(x, y, z)
    {
      this.x, this.y, this.z := x, y, z;
    }

    function Value(): Vec
      reads this
    {
      Vec(x, y, z)
    }

    /** `Vector3D.vectorProduct(v1, v2, dest)`: the cross product is stored in this vector. */
    method SetVectorProduct(v1x: Cell, v1y: Cell, v1z: Cell, v2x: Cell, v2y: Cell, v2z: Cell)
      modifies this
      ensures Value() == Cross(Vec(v1x, v1y, v1z), Vec(v2x, v2y, v2z))
    {
      x := Sub(Mul(v1y, v2z), Mul(v1z, v2y));
      y := Sub(Mul(v1z, v2x), Mul(v1x, v2z));
      z := Sub(Mul(v1x, v2y), Mul(v1y, v2x));
    }

    /** `addVectorProduct`: v1 x v2 is added to this vector, component by component. */
    method AddVectorProduct(v1x: Cell, v1y: Cell, v1z: Cell, v2x: Cell, v2y: Cell, v2z: Cell)
      modifies this
      ensures Value() == Plus(old(Value()), Cross(Vec(v1x, v1y, v1z), Vec(v2x, v2y, v2z)))
    {
      x := Add(x, Sub(Mul(v1y, v2z), Mul(v1z, v2y)));
      y := Add(y, Sub(Mul(v1z, v2x), Mul(v1x, v2z)));
      z := Add(z, Sub(Mul(v1x, v2y), Mul(v1y, v2x)));
    }

    /** `normalize`. */
    method Normalize(normalize: Vec -> Vec)
      modifies this
      ensures Value() == Normalized(old(Value()), normalize)
    {
      var v := Normalized(Value(), normalize);
      x, y, z := v.x, v.y, v.z;
    }
  }

  class ShaderOperator {
    var vertExaggeration: real
    /** Azimuth of the light in degrees, counted counter-clockwise from north. */
    var illuminationAzimuth: int
    /** Angle of the light from the zenith in degrees. */
    var illuminationZenith: int

    /** A new operator: light from 315 degrees, 45 degrees from the zenith, no exaggeration. */
    constructor ()
      ensures vertExaggeration == 0.0 && illuminationAzimuth == 315 && illuminationZenith == 45
    {
      vertExaggeration := 0.0;
      illuminationAzimuth := 315;
      illuminationZenith := 45;
    }

    method SetIlluminationAzimuth(illuminationAzimuth: int)
      modifies this
      ensures this.illuminationAzimuth == illuminationAzimuth
      ensures vertExaggeration == old(vertExaggeration) && illuminationZenith == old(illuminationZenith)
    {
      this.illuminationAzimuth := illuminationAzimuth;
    }

    method SetIlluminationZenith(illuminationZenith: int)
      modifies this
      ensures this.illuminationZenith == illuminationZenith
      ensures vertExaggeration == old(vertExaggeration) && illuminationAzimuth == old(illuminationAzimuth)
    {
      this.illuminationZenith := illuminationZenith;
    }

    method SetVerticalExaggeration(ve: real)
      modifies this
      ensures vertExaggeration == ve
      ensures illuminationAzimuth == old(illuminationAzimuth) && illuminationZenith == old(illuminationZenith)
    {
      vertExaggeration := ve;
    }

    /** `computeTerrainNormal`: the normal of cell (row, col) is left in `n`. */
    method ComputeTerrainNormal(col: int, row: int, grid: Grid, n: Vector3D, cellSize: real, normalize: Vec -> Vec)
      modifies n
      ensures n.Value() == TerrainNormal(grid.Cells(), grid.Cols(), col, row, cellSize, vertExaggeration, normalize)
    {
      if col > 0 && col < grid.Cols() - 1 && row > 0 && row < grid.Rows() - 1 {
        var elevCenter := grid.data[row, col];
        var elevS := Difference(grid.data[row + 1, col], elevCenter, vertExaggeration);
        var elevE := Difference(grid.data[row, col + 1], elevCenter, vertExaggeration);
        var elevN := Difference(grid.data[row - 1, col], elevCenter, vertExaggeration);
        var elevW := Difference(grid.data[row, col - 1], elevCenter, vertExaggeration);
        // south x east, east x north, north x west, west x south
        n.SetVectorProduct(Val(0.0), Val(-cellSize), elevS, Val(cellSize), Val(0.0), elevE);
        n.AddVectorProduct(Val(cellSize), Val(0.0), elevE, Val(0.0), Val(cellSize), elevN);
        n.AddVectorProduct(Val(0.0), Val(cellSize), elevN, Val(-cellSize), Val(0.0), elevW);
        n.AddVectorProduct(Val(-cellSize), Val(0.0), elevW, Val(0.0), Val(-cellSize), elevS);
        n.Normalize(normalize);
      } else {
        n.x, n.y, n.z := Val(0.0), Val(0.0), Val(1.0);
      }
    }

    /**
     * The per-chunk `operate`: every column of rows [startRow, endRow) of
     * `dst` gets the shading of the source cell, with a cell size in
     * degrees converted to metres; all other rows keep their values.
     * `light` builds the light vector from azimuth and zenith.
     */
    method Operate(src: Grid, dst: Grid, startRow: int, endRow: int, normalize: Vec -> Vec, light: (int, int) -> Vec)
      requires dst.Rows() == src.Rows() && dst.Cols() == src.Cols() && dst.data != src.data
      requires 0 <= startRow && endRow <= src.Rows()
      modifies dst.data
      ensures forall r, c :: 0 <= r < dst.Rows() && 0 <= c < dst.Cols() ==>
        dst.data[r, c] == if startRow <= r < endRow
          then Shade(src.Cells(), src.Cols(), c, r, src.cellSize, vertExaggeration, normalize,
                     light(illuminationAzimuth, illuminationZenith))
          else old(dst.data[r, c])
    {
      var cols := src.Cols();
      var lightVector := light(illuminationAzimuth, illuminationZenith);
      var n := new Vector3D(Val(0.0), Val(0.0), Val(0.0));
      var cellSize := src.cellSize;
      if cellSize < 0.1 {
        cellSize := cellSize / 180.0 * MathPI * 6371000.0;
      }
      assert cellSize == MetricCellSize(src.cellSize);
      var row := startRow;
      while row < endRow
        invariant row == startRow || startRow <= row <= endRow
        invariant forall r, c :: 0 <= r < dst.Rows() && 0 <= c < dst.Cols() ==>
          dst.data[r, c] == if startRow <= r < row
            then Shade(src.Cells(), cols, c, r, src.cellSize, vertExaggeration, normalize, lightVector)
            else old(dst.data[r, c])
      {
        ShadeRow(src, dst, row, n, cellSize, normalize, lightVector);
        row := row + 1;
      }
    }

    /** The column loop of `operate` for one row. */
    method ShadeRow(src: Grid, dst: Grid, row: int, n: Vector3D, cellSize: real, normalize: Vec -> Vec, lightVector: Vec)
      requires dst.Rows() == src.Rows() && dst.Cols() == src.Cols() && dst.data != src.data
      requires 0 <= row < src.Rows() && cellSize == MetricCellSize(src.cellSize)
      modifies dst.data, n
      ensures forall r, c :: 0 <= r < dst.Rows() && 0 <= c < dst.Cols() ==>
        dst.data[r, c] == if r == row
          then Shade(src.Cells(), src.Cols(), c, r, src.cellSize, vertExaggeration, normalize, lightVector)
          else old(dst.data[r, c])
    {
      ghost var m := src.Cells();
      for col := 0 to src.Cols()
        invariant src.Cells() == m
        invariant forall r, c :: 0 <= r < dst.Rows() && 0 <= c < dst.Cols() ==>
          dst.data[r, c] == if r == row && c < col
            then Shade(m, src.Cols(), c, r, src.cellSize, vertExaggeration, normalize, lightVector)
            else old(dst.data[r, c])
      {
        ComputeTerrainNormal(col, row, src, n, cellSize, normalize);
        var dotProduct := Dot(n.Value(), lightVector);
        dst.data[row, col] := ShadeCell(dotProduct);
      }
    }
  }
}
