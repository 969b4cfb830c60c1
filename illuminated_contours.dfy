/**
 * Illuminated contours (Tanaka contours). A cell lies on a contour line when
 * its elevation is within half a line width of a multiple of the contour
 * interval; the line is black on the side facing away from the light,
 * illuminated gray on the side facing it, and blended in between. Widths
 * follow slope and, optionally, the cosine of the angle to the light. Gray
 * values go, packed as opaque ARGB pixels, into the integer buffer of an
 * image that is `scale` times larger than the grid.
 */
module IlluminatedContours {
  import opened Wrappers
  import opened Cells
  import opened Grids

  /** CONTOURS_TRANSPARENT: no line at this cell. */
  const Transparent: int := -1

  /** The final fields of the operator, as its constructor sets them. */
  datatype ContourStyle = ContourStyle(
    illuminated: bool,
    shadowWidth: real,
    illuminatedWidth: real,
    minWidth: real,
    tanaka: bool,
    /** Azimuth of the light, clockwise from north, in degrees. */
    azimuth: real,
    interval: real,
    gradientAngle: int,
    illuminatedGray: int)

  /**
   * `getAngleDifference`: the azimuth is turned into a geometric angle
   * (counter-clockwise from east) and compared with the aspect; the result
   * is the smaller angle between the two directions.
   */
  function AngleDifference(illuminationAzimuth: real, aspectAngle: Cell): (d: Cell)
    ensures d.Val? <==> aspectAngle.Val?
    ensures d.Val? ==> 0.0 <= d.r <= 180.0
  {
    if aspectAngle.Void? then Void
    else
      var geomAngle := 90.0 - illuminationAzimuth;
      var x := Abs(geomAngle - aspectAngle.r) + 180.0;
      JavaRemNonNegative(x, 360.0);
      Val(Abs(JavaRem(x, 360.0).r - 180.0))
  }

  /** How far `turn` degrees is from k full turns. */
  function TurnGap(turn: real, k: int): (g: real)
    ensures g >= 0.0
  {
    Abs(turn - 360.0 * k as real)
  }

  /** A residue in [-180, 180) is no farther from 0 than any shift of it by whole turns. */
  lemma ResidueNearest(e: real, j: int)
    requires -180.0 <= e < 180.0
    ensures Abs(e) <= Abs(e + 360.0 * j as real)
  {
    if j >= 1 {
      assert j as real >= 1.0;
    } else if j <= -1 {
      assert j as real <= -1.0;
    }
  }

  /** The gap of the mirrored turn to the mirrored number of turns is the same. */
  lemma TurnGapMirrored(turn: real, k: int)
    ensures TurnGap(turn, k) == TurnGap(-turn, -k)
  {
  }

  /**
   * The angle difference is the distance from the turn between the two
   * directions to the nearest whole number of full turns.
   */
  lemma AngleDifferenceIsDistance(azimuth: real, aspect: real)
    ensures var d := AngleDifference(azimuth, Val(aspect)).r;
      var turn := 90.0 - azimuth - aspect;
      (exists k: int :: d == TurnGap(turn, k)) && (forall k: int :: d <= TurnGap(turn, k))
  {
    var turn := 90.0 - azimuth - aspect;
    var t := Abs(turn);
    var x := t + 180.0;
    JavaRemNonNegative(x, 360.0);
    var q := Trunc(x / 360.0);
    var d := AngleDifference(azimuth, Val(aspect)).r;
    var e := t - 360.0 * q as real;
    assert JavaRem(x, 360.0).r == x - 360.0 * q as real;
    assert d == Abs(e) && -180.0 <= e < 180.0;
    var k0 := if turn >= 0.0 then q else -q;
    if turn < 0.0 {
      TurnGapMirrored(turn, k0);
    }
    assert d == TurnGap(turn, k0);
    forall k: int
      ensures d <= TurnGap(turn, k)
    {
      var k' := if turn >= 0.0 then k else -k;
      if turn < 0.0 {
        TurnGapMirrored(turn, k);
      }
      assert TurnGap(turn, k) == Abs(t - 360.0 * k' as real);
      ResidueNearest(e, q - k');
    }
  }

  /** `width * slope * cellSize`, NaN when the slope is. */
  function LineWidth(width: real, slope: Cell, cellSize: real): (w: Cell)
    ensures w.Val? <==> slope.Val?
  {
    if slope.Val? then Val(width * slope.r * cellSize) else Void
  }

  /** `Math.max`: NaN when either argument is NaN. */
  function JavaMax(a: Cell, b: Cell): (m: Cell)
    ensures m.Val? <==> a.Val? && b.Val?
    ensures m.Val? ==> m.r >= a.r && m.r >= b.r && (m.r == a.r || m.r == b.r)
  {
    if a.Val? && b.Val? then Val(if a.r >= b.r then a.r else b.r) else Void
  }

  /**
   * The half-width `a` of the line: the shadow width beyond 90 degrees from
   * the light, the illuminated width otherwise, both proportional to slope
   * and cell size; scaled by |cos| of the angle difference for Tanaka
   * lines, and never below the minimum width.
   */
  function HalfWidth(st: ContourStyle, angleDiff: Cell, slope: Cell, cellSize: real, cos: real -> real): (a: Cell)
    ensures a.Val? ==> slope.Val? && a.r >= st.minWidth * slope.r * cellSize
    ensures st.tanaka && angleDiff.Void? ==> a.Void?
    ensures !st.tanaka && slope.Val? ==> a.Val?
  {
    var a0 := if angleDiff.Val? && angleDiff.r > 90.0 then LineWidth(st.shadowWidth, slope, cellSize)
              else LineWidth(st.illuminatedWidth, slope, cellSize);
    var a1 := if st.tanaka then Mul(a0, if angleDiff.Val? then Val(Abs(cos(angleDiff.r / 180.0 * MathPI))) else Void)
              else a0;
    JavaMax(LineWidth(st.minWidth, slope, cellSize), a1)
  }

  /**
   * `dist`: |elevation| % interval, mirrored to interval - dist when it
   * exceeds the half-width, so that both sides of a contour level count.
   */
  function Residual(elevation: Cell, interval: real, a: Cell): (dist: Cell)
    ensures dist.Val? <==> elevation.Val? && interval != 0.0
  {
    var dist := if elevation.Val? then JavaRem(Abs(elevation.r), interval) else Void;
    if dist.Val? && a.Val? && dist.r > a.r then Val(interval - dist.r) else dist
  }

  /** `a > dist`, false when either is NaN. */
  predicate OnLine(a: Cell, dist: Cell) {
    a.Val? && dist.Val? && a.r > dist.r
  }

  /** The distance from a non-negative value to the nearest multiple of a positive interval. */
  function ContourDistance(x: real, interval: real): (d: real)
    requires x >= 0.0 && interval > 0.0
    ensures 0.0 <= d <= interval / 2.0
  {
    JavaRemNonNegative(x, interval);
    var rem := JavaRem(x, interval).r;
    if rem <= interval - rem then rem else interval - rem
  }

  /**
   * With a positive interval, a cell is on a line exactly when its
   * elevation is closer than the half-width to a contour level, unless the
   * remainder equals the half-width exactly (it is then not mirrored).
   */
  lemma OnLineNearContour(elevation: real, interval: real, a: real)
    requires interval > 0.0
    requires JavaRem(Abs(elevation), interval) != Val(a)
    ensures OnLine(Val(a), Residual(Val(elevation), interval, Val(a))) <==> ContourDistance(Abs(elevation), interval) < a
  {
    JavaRemNonNegative(Abs(elevation), interval);
  }

  /** `90 + gradientAngle` in 32-bit `int` arithmetic: from this angle difference on a line is black. */
  function DarkFrom(st: ContourStyle): (d: int)
    ensures IntMin <= 90 + st.gradientAngle <= IntMax ==> d == 90 + st.gradientAngle
  {
    Wrap32(90 + st.gradientAngle)
  }

  /** `90 - gradientAngle` in 32-bit `int` arithmetic: up to this angle difference a line is lit. */
  function LitUpTo(st: ContourStyle): (l: int)
    ensures IntMin <= 90 - st.gradientAngle <= IntMax ==> l == 90 - st.gradientAngle
  {
    Wrap32(90 - st.gradientAngle)
  }

  /**
   * The gray value on a line, by the angle to the light: black from
   * `DarkFrom` degrees on, the illuminated gray (or black when not
   * illuminated) up to `LitUpTo`, and in between a blend that runs from 255
   * down to 0 while the span `DarkFrom - LitUpTo` fits in an `int`. A wider
   * span wraps to a negative divisor, and the saturating cast then gives 255
   * or more.
   */
  function LineTone(st: ContourStyle, angleDiff: real): (g: int)
    ensures angleDiff >= DarkFrom(st) as real ==> g == 0
    ensures angleDiff < DarkFrom(st) as real && angleDiff <= LitUpTo(st) as real ==>
      g == if st.illuminated then st.illuminatedGray else 0
    ensures LitUpTo(st) as real < angleDiff < DarkFrom(st) as real ==>
      if DarkFrom(st) - LitUpTo(st) <= IntMax then 0 <= g < 255 else g >= 255
  {
    var hi := DarkFrom(st);
    var lo := LitUpTo(st);
    if angleDiff >= hi as real then 0
    else if angleDiff <= lo as real then (if st.illuminated then st.illuminatedGray else 0)
    else
      // here lo < angleDiff < hi, so 0 < hi - lo < 2^32 and the wrapped span is not 0
      Blend(angleDiff - lo as real, hi - lo)
  }

  /**
   * `(int) (part / span * (-255) + 255)` with the span of the gradient band
   * in 32-bit arithmetic: a span that fits gives a gray in [0, 255), a
   * wider one wraps to a negative divisor and gives 255 or more.
   */
  function Blend(part: real, width: int): (g: int)
    requires 0.0 < part < width as real && width < IntRange
    ensures width <= IntMax ==> 0 <= g < 255
    ensures width > IntMax ==> g >= 255
  {
    var span := Wrap32(width);
    if width <= IntMax then
      BlendInRange(part, span as real);
      IntCast(part / span as real * -255.0 + 255.0)
    else
      WrapOnce(width);
      BlendWrapped(part, span as real);
      IntCast(part / span as real * -255.0 + 255.0)
  }

  /** For 0 < part < span the blend (part / span) * -255 + 255 lies strictly between 0 and 255. */
  lemma BlendInRange(part: real, span: real)
    requires 0.0 < part < span
    ensures 0.0 < part / span * -255.0 + 255.0 < 255.0
  {
    var p := part / span;
    assert p * span == part;
    if p >= 1.0 {
      MulLeq(1.0, p, span);
    }
    if p <= 0.0 {
      MulLeq(p, 0.0, span);
    }
  }

  /** For a negative span the blend exceeds 255. */
  lemma BlendWrapped(part: real, span: real)
    requires 0.0 < part && span < 0.0
    ensures part / span * -255.0 + 255.0 > 255.0
  {
    var p := part / span;
    assert p * span == part;
    if p >= 0.0 {
      MulLeq(0.0, p, -span);
    }
  }

  /**
   * Where `90 + gradientAngle` and `90 - gradientAngle` do not overflow,
   * the tone's thresholds are those two angles.
   */
  lemma ThresholdsWithoutOverflow(st: ContourStyle)
    requires IntMin + 91 <= st.gradientAngle <= IntMax - 90
    ensures DarkFrom(st) == 90 + st.gradientAngle && LitUpTo(st) == 90 - st.gradientAngle
  {
  }

  /**
   * At the largest gradient angle `90 + gradientAngle` wraps to a negative
   * number, so every line is black, where the exact thresholds would blend
   * every angle difference below 180 degrees.
   */
  lemma LargestGradientIsBlack(st: ContourStyle, angleDiff: real)
    requires st.gradientAngle == IntMax && 0.0 <= angleDiff <= 180.0
    ensures DarkFrom(st) == IntMin + 89
    ensures LineTone(st, angleDiff) == 0
    ensures 90.0 - st.gradientAngle as real < angleDiff < 90.0 + st.gradientAngle as real
  {
  }

  /**
   * With a gradient angle of 0 or less the blend is never used for an angle
   * difference `getAngleDifference` can return: a line is black or illuminated.
   */
  lemma NoBlendWithoutGradient(st: ContourStyle, angleDiff: real)
    requires IntMin <= st.gradientAngle <= 0 && 0.0 <= angleDiff <= 180.0
    ensures LineTone(st, angleDiff) == 0 || LineTone(st, angleDiff) == st.illuminatedGray
  {
  }

  /** `computeGray`: the gray value of a cell, or Transparent when it is not on a line. */
  function ComputeGray(st: ContourStyle, elevation: Cell, aspect: Cell, slope: Cell, cellSize: real,
                       cos: real -> real): (g: int)
    ensures g == Transparent || g == st.illuminatedGray || g >= 0
    ensures var angleDiff := AngleDifference(st.azimuth, aspect);
      var a := HalfWidth(st, angleDiff, slope, cellSize, cos);
      !OnLine(a, Residual(elevation, st.interval, a)) ==> g == Transparent
  {
    var angleDiff := AngleDifference(st.azimuth, aspect);
    var a := HalfWidth(st, angleDiff, slope, cellSize, cos);
    var dist := Residual(elevation, st.interval, a);
    if OnLine(a, dist) && angleDiff.Val? then LineTone(st, angleDiff.r) else Transparent
  }

  /**
   * For a defined aspect and a non-negative illuminated gray, a cell is
   * transparent exactly when the half-width does not exceed the residual.
   */
  lemma TransparentExactlyOffLine(st: ContourStyle, elevation: Cell, aspect: Cell, slope: Cell, cellSize: real,
                                  cos: real -> real)
    requires aspect.Val? && st.illuminatedGray >= 0
    ensures var angleDiff := AngleDifference(st.azimuth, aspect);
      var a := HalfWidth(st, angleDiff, slope, cellSize, cos);
      ComputeGray(st, elevation, aspect, slope, cellSize, cos) == Transparent <==> !OnLine(a, Residual(elevation, st.interval, a))
  {
  }

  /** A void elevation or slope is never drawn. */
  lemma VoidIsTransparent(st: ContourStyle, elevation: Cell, aspect: Cell, slope: Cell, cellSize: real, cos: real -> real)
    requires elevation.Void? || slope.Void?
    ensures ComputeGray(st, elevation, aspect, slope, cellSize, cos) == Transparent
  {
  }

  /** The 32-bit pattern of a Java int. */
  function IntBits(g: int): bv32 {
    (g % 0x1_0000_0000) as bv32
  }

  /** `g | (g << 8) | (g << 16) | 0xFF000000`: an opaque gray pixel. */
  function Argb(g: bv32): bv32 {
    g | (g << 8) | (g << 16) | 0xFF00_0000
  }

  /** A transparent value leaves the pixel as it was; any other value is packed into it. */
  function Paint(before: bv32, g: int): bv32 {
    if g == Transparent then before else Argb(IntBits(g))
  }

  /** A packed gray value below 256 has red = green = blue = g and alpha 0xFF. */
  lemma ArgbChannels(b: bv32)
    requires b <= 0xFF
    ensures Argb(b) & 0xFF == b && (Argb(b) >> 8) & 0xFF == b && (Argb(b) >> 16) & 0xFF == b && Argb(b) >> 24 == 0xFF
  {
  }

  /** A gray value in [0, 255] is packed as itself: the pixel is `Argb` of the value's own bits. */
  lemma PaintGray(before: bv32, g: int)
    requires 0 <= g <= 255
    ensures Paint(before, g) == Argb(g as bv32)
  {
  }

  /** `(aspect + PI) * 180 / PI`: an aspect in radians turned into degrees in [0, 360]. */
  function AspectDegrees(aspect: Cell): (d: Cell)
    ensures d.Val? <==> aspect.Val?
  {
    if aspect.Val? then Val((aspect.r + MathPI) * 180.0 / MathPI) else Void
  }

  /** The gray value `illuminatedContours` computes for cell (col, row) of an image the size of the grid. */
  function CellGray(st: ContourStyle, src: Grid, col: int, row: int, nm: Numerics): int
    reads src, src.data
    requires src.Valid() && 1 <= col < src.Cols() - 1 && 1 <= row < src.Rows() - 1
  {
    var slopeVal := src.Slope(col, row, nm.sqrt);
    var aspectVal := AspectDegrees(src.Aspect(col, row, nm.atan2));
    ComputeGray(st, src.Value(col, row), aspectVal, slopeVal, src.cellSize, nm.cos)
  }

  /**
   * The gray value `scaledIlluminatedContours` computes for sub-cell (c, r)
   * of cell (col, row): elevation and slope interpolated at the sub-cell's
   * position, aspect from interpolated neighbours one sampling distance away.
   */
  function SubcellGray(st: ContourStyle, src: Grid, slopeGrid: Grid, col: int, row: int, c: int, r: int, scale: Positive,
                       nm: Numerics): int
    reads src, src.data, slopeGrid, slopeGrid.data
    requires src.Valid() && slopeGrid.Valid()
  {
    var cellSize := src.cellSize;
    var samplingDist := cellSize / scale as real;
    var x := src.west + ((col as real + c as real / scale as real) * cellSize);
    var y := src.North() - ((row as real + r as real / scale as real) * cellSize);
    var center := src.BilinearInterpol(x, y);
    var w := src.BilinearInterpol(x - samplingDist, y);
    var e := src.BilinearInterpol(x + samplingDist, y);
    var s := src.BilinearInterpol(x, y - samplingDist);
    var n := src.BilinearInterpol(x, y + samplingDist);
    var dx := Sub(e, w);
    var dy := Sub(n, s);
    var slopeVal := slopeGrid.BilinearInterpol(x, y);
    var aspectVal := if dx.Val? && dy.Val? then Val(nm.atan2(dy.r, dx.r)) else Void;
    ComputeGray(st, center, AspectDegrees(aspectVal), slopeVal, cellSize, nm.cos)
  }

  /** The first row in [row, endRow) at which the progress reports a cancel, or endRow. */
  function StopRow(row: int, endRow: int, isCancelled: Option<int -> bool>): (stop: int)
    ensures row < endRow ==> row <= stop <= endRow
    ensures forall k :: row <= k < stop ==> isCancelled.None? || !isCancelled.value(k)
    ensures stop < endRow ==> isCancelled.Some? && isCancelled.value(stop)
    decreases endRow - row
  {
    if row >= endRow then row
    else if isCancelled.Some? && isCancelled.value(row) then row
    else StopRow(row + 1, endRow, isCancelled)
  }

  /** Pixel i of an unscaled image after rows [rowLo, rowHi) have been drawn. */
  function UnscaledPixel(st: ContourStyle, src: Grid, nm: Numerics, width: Positive, rowLo: int, rowHi: int,
                         before: bv32, i: int): bv32
    reads src, src.data
    requires src.Valid()
  {
    var row, col := i / width, i % width;
    if rowLo <= row < rowHi && 1 <= row < src.Rows() - 1 && 1 <= col < src.Cols() - 1 then Paint(before, CellGray(st, src, col, row, nm)) else before
  }

  /** The grid row of the block that pixel i of a row-major image `width` pixels wide belongs to. */
  function BlockRow(i: int, width: Positive, scale: Positive): int
  {
    (i / width) / scale
  }

  /** The grid column of the block that pixel i belongs to. */
  function BlockCol(i: int, width: Positive, scale: Positive): int
  {
    (i % width) / scale
  }

  /** The sub-row of pixel i within its block. */
  function SubRow(i: int, width: Positive, scale: Positive): int
  {
    (i / width) % scale
  }

  /** The sub-column of pixel i within its block. */
  function SubCol(i: int, width: Positive, scale: Positive): int
  {
    (i % width) % scale
  }

  /** Pixel i of a scaled image painted with the gray of the sub-cell it lies in. */
  function BlockPaint(st: ContourStyle, src: Grid, slopeGrid: Grid, nm: Numerics, width: Positive, scale: Positive,
                      before: bv32, i: int): bv32
    reads src, src.data, slopeGrid, slopeGrid.data
    requires src.Valid() && slopeGrid.Valid()
  {
    Paint(before, SubcellGray(st, src, slopeGrid, BlockCol(i, width, scale), BlockRow(i, width, scale),
                              SubCol(i, width, scale), SubRow(i, width, scale), scale, nm))
  }

  /** Pixel i of an image `scale` times larger than the grid after rows [rowLo, rowHi) of cells have been drawn. */
  function ScaledPixel(st: ContourStyle, src: Grid, slopeGrid: Grid, nm: Numerics, width: Positive, scale: Positive,
                       rowLo: int, rowHi: int, before: bv32, i: int): bv32
    reads src, src.data, slopeGrid, slopeGrid.data
    requires src.Valid() && slopeGrid.Valid()
  {
    if rowLo <= BlockRow(i, width, scale) < rowHi && 1 <= BlockCol(i, width, scale) < src.Cols() - 1
    then BlockPaint(st, src, slopeGrid, nm, width, scale, before, i)
    else before
  }

  /** Drawing rows [rowLo, row) and then row `row` draws rows [rowLo, row + 1). */
  lemma ScaledPixelExtend(st: ContourStyle, src: Grid, slopeGrid: Grid, nm: Numerics, width: Positive, scale: Positive,
                          rowLo: int, row: int, before: bv32, i: int)
    requires src.Valid() && slopeGrid.Valid() && rowLo <= row
    ensures ScaledPixel(st, src, slopeGrid, nm, width, scale, rowLo, row + 1, before, i) ==
      ScaledPixel(st, src, slopeGrid, nm, width, scale, row, row + 1,
                  ScaledPixel(st, src, slopeGrid, nm, width, scale, rowLo, row, before, i), i)
  {
  }

  /** Distinct cells own disjoint blocks of scale x scale pixels: each pixel has one cell and one sub-cell. */
  lemma BlocksDisjoint(scale: int, col: int, row: int, c: int, r: int, col': int, row': int, c': int, r': int)
    requires scale > 0 && 0 <= c < scale && 0 <= r < scale && 0 <= c' < scale && 0 <= r' < scale
    requires col * scale + c == col' * scale + c' && row * scale + r == row' * scale + r'
    ensures col == col' && row == row' && c == c' && r == r'
  {
    RowMajorUnique(col * scale + c, scale, col, c);
    RowMajorUnique(col * scale + c, scale, col', c');
    RowMajorUnique(row * scale + r, scale, row, r);
    RowMajorUnique(row * scale + r, scale, row', r');
  }

  /** Pixel `row * width + col` of a row-major buffer is the one whose row is `row` and whose column is `col`. */
  lemma CellIndex(i: int, width: int, row: int, col: int)
    requires 0 <= col < width
    ensures i == row * width + col <==> i / width == row && i % width == col
  {
    if i == row * width + col {
      RowMajorUnique(i, width, row, col);
    }
    assert i == (i / width) * width + i % width;
  }

  /**
   * Pixel `(row * scale + r) * width + col * scale + c` is the one in the
   * block of cell (col, row) at sub-cell (c, r).
   */
  lemma BlockIndex(i: int, width: int, scale: int, row: int, r: int, col: int, c: int)
    requires scale > 0 && 0 <= r < scale && 0 <= c < scale && 0 <= col * scale + c < width
    ensures i == (row * scale + r) * width + col * scale + c <==>
      BlockRow(i, width, scale) == row && SubRow(i, width, scale) == r && BlockCol(i, width, scale) == col && SubCol(i, width, scale) == c
  {
    CellIndex(i, width, row * scale + r, col * scale + c);
    CellIndex(i / width, scale, row, r);
    CellIndex(i % width, scale, col, c);
  }

  /** Every pixel of the block of a grid cell lies in an image at least `scale` times the grid's size. */
  lemma BlockPixelInRange(width: int, height: int, cols: int, rows: int, scale: int, col: int, row: int, c: int, r: int)
    requires scale > 0 && width >= cols * scale && height >= rows * scale
    requires 0 <= col < cols && 0 <= row < rows && 0 <= c < scale && 0 <= r < scale
    ensures 0 <= col * scale + c < width && 0 <= row * scale + r < height
    ensures 0 <= (row * scale + r) * width + col * scale + c < height * width
  {
    RowMajorInRange(col, c, scale, cols);
    RowMajorInRange(row, r, scale, rows);
    RowMajorInRange(row * scale + r, col * scale + c, width, height);
  }

  type Positive = n: int | n > 0 witness 1

  /** The pixels the operator draws into: a row-major buffer of packed ARGB values. */
  class Image {
    const width: Positive
    const height: Positive
    const pixels: array<bv32>

    ghost predicate Valid()
      reads this
    {
      pixels.Length == width * height
    }

    constructor (width: Positive, height: Positive)
      ensures Valid() && this.width == width && this.height == height && fresh(pixels)
    {
      this.width := width;
      this.height := height;
      pixels := new bv32[width * height](_ => 0);
    }
  }

  class IlluminatedContoursOperator {
    const style: ContourStyle
    var image: Image?
    /** The progress indicator: absent, or its `isCancelled` answer at the start of each row. */
    var progress: Option<int -> bool>

    constructor (style: ContourStyle)
      ensures this.style == style && image == null && progress.None?
    {
      this.style := style;
      image := null;
      progress := None;
    }

    /**
     * `renderToImage` up to the hand-over to the chunked operate: a null
     * image is an IllegalArgumentException; otherwise the image and the
     * progress indicator are kept for the chunks.
     */
    method RenderToImage(destinationImage: Image?, progress: Option<int -> bool>) returns (err: Option<Failure>)
      modifies this
      ensures destinationImage == null <==> err == Some(IllegalArgument(""))
      ensures destinationImage == null ==> image == old(image) && this.progress == old(this.progress)
      ensures destinationImage != null ==> image == destinationImage && this.progress == progress
    {
      if destinationImage == null {
        return Some(IllegalArgument(""));
      }
      image := destinationImage;
      this.progress := progress;
      return None;
    }

    /**
     * The per-chunk `operate`: rows max(1, startRow) <= row < min(rows - 2,
     * endRow) and columns 1 <= col < cols - 1 are drawn. An image as wide as
     * the grid gets one pixel per cell; a `scale` times larger one gets a
     * block of scale x scale pixels per cell and stops at the first row at
     * which the progress indicator reports a cancel.
     */
    method Operate(src: Grid, slopeGrid: Grid, startRow: int, endRow: int, nm: Numerics)
      requires image != null && image.Valid() && src.Valid() && slopeGrid.Valid()
      requires image.height >= src.Rows() * (image.width / src.Cols())
      modifies image.pixels
      ensures var rowLo := if startRow < 1 then 1 else startRow;
        var rowHi := if endRow < src.Rows() - 2 then endRow else src.Rows() - 2;
        var scale := image.width / src.Cols();
        forall i :: 0 <= i < image.pixels.Length ==>
          image.pixels[i] ==
            if scale == 1 then UnscaledPixel(style, src, nm, image.width, rowLo, rowHi, old(image.pixels[i]), i)
            else if scale > 1 then
              ScaledPixel(style, src, slopeGrid, nm, image.width, scale, rowLo, StopRow(rowLo, rowHi, progress),
                          old(image.pixels[i]), i)
            else old(image.pixels[i])
    {
      var rowLo := if startRow < 1 then 1 else startRow;
      var rowHi := if endRow < src.Rows() - 2 then endRow else src.Rows() - 2;
      var scale := image.width / src.Cols();
      if scale == 1 {
        DrawUnscaled(src, rowLo, rowHi, nm);
      } else if scale > 1 {
        DrawScaled(src, slopeGrid, rowLo, rowHi, scale, nm);
      }
    }

    /** The row loop of an image as large as the grid. */
    method DrawUnscaled(src: Grid, rowLo: int, rowHi: int, nm: Numerics)
      requires image != null && image.Valid() && src.Valid()
      requires image.width / src.Cols() == 1 && image.height >= src.Rows()
      requires 1 <= rowLo && rowHi <= src.Rows() - 2
      modifies image.pixels
      ensures forall i :: 0 <= i < image.pixels.Length ==>
        image.pixels[i] == UnscaledPixel(style, src, nm, image.width, rowLo, rowHi, old(image.pixels[i]), i)
    {
      var row := rowLo;
      while row < rowHi
        invariant row == rowLo || rowLo <= row <= rowHi
        invariant forall i :: 0 <= i < image.pixels.Length ==>
          image.pixels[i] == UnscaledPixel(style, src, nm, image.width, rowLo, row, old(image.pixels[i]), i)
      {
        DrawRow(src, row, nm);
        row := row + 1;
      }
    }

    /** The row loop of a scaled image, which checks for a cancel at the start of each row. */
    method DrawScaled(src: Grid, slopeGrid: Grid, rowLo: int, rowHi: int, scale: Positive, nm: Numerics)
      requires image != null && image.Valid() && src.Valid() && slopeGrid.Valid()
      requires scale > 1 && scale == image.width / src.Cols() && image.height >= src.Rows() * scale
      requires 1 <= rowLo && rowHi <= src.Rows() - 2
      modifies image.pixels
      ensures forall i :: 0 <= i < image.pixels.Length ==>
        image.pixels[i] == ScaledPixel(style, src, slopeGrid, nm, image.width, scale, rowLo,
                                       StopRow(rowLo, rowHi, progress), old(image.pixels[i]), i)
    {
      var row := rowLo;
      ghost var stop := StopRow(rowLo, rowHi, progress);
      while row < rowHi
        invariant row == rowLo || rowLo <= row <= rowHi
        invariant row <= stop
        invariant forall i :: 0 <= i < image.pixels.Length ==>
          image.pixels[i] == ScaledPixel(style, src, slopeGrid, nm, image.width, scale, rowLo, row, old(image.pixels[i]), i)
      {
        if progress.Some? && progress.value(row) {
          return;
        }
        DrawScaledRow(src, slopeGrid, row, scale, nm);
        forall i | 0 <= i < image.pixels.Length {
          ScaledPixelExtend(style, src, slopeGrid, nm, image.width, scale, rowLo, row, old(image.pixels[i]), i);
        }
        row := row + 1;
      }
    }

    /** The column loop of the unscaled pass for one row. */
    method DrawRow(src: Grid, row: int, nm: Numerics)
      requires image != null && image.Valid() && src.Valid()
      requires image.width / src.Cols() == 1 && image.height >= src.Rows()
      requires 1 <= row < src.Rows() - 2
      modifies image.pixels
      ensures forall i :: 0 <= i < image.pixels.Length ==>
        image.pixels[i] == UnscaledPixel(style, src, nm, image.width, row, row + 1, old(image.pixels[i]), i)
    {
      for col := 1 to src.Cols() - 1
        invariant forall i :: 0 <= i < image.pixels.Length ==>
          image.pixels[i] == if i / image.width == row && 1 <= i % image.width < col
            then Paint(old(image.pixels[i]), CellGray(style, src, i % image.width, row, nm))
            else old(image.pixels[i])
      {
        IlluminatedContours(src, col, row, nm);
        forall i | 0 <= i < image.pixels.Length {
          CellIndex(i, image.width, row, col);
        }
      }
    }

    /** `illuminatedContours`: pixel (col, row) gets the cell's gray, unless it is transparent. */
    method IlluminatedContours(src: Grid, col: int, row: int, nm: Numerics)
      requires image != null && image.Valid() && src.Valid()
      requires image.width >= src.Cols() && image.height >= src.Rows()
      requires 1 <= col < src.Cols() - 1 && 1 <= row < src.Rows() - 1
      modifies image.pixels
      ensures forall i :: 0 <= i < image.pixels.Length ==>
        image.pixels[i] == if i == row * image.width + col
          then Paint(old(image.pixels[i]), CellGray(style, src, col, row, nm))
          else old(image.pixels[i])
    {
      var k := row * image.width + col;
      RowMajorInRange(row, col, image.width, image.height);
      var slopeVal := src.Slope(col, row, nm.sqrt);
      var aspectVal := AspectDegrees(src.Aspect(col, row, nm.atan2));
      var demVal := src.Value(col, row);
      var g := ComputeGray(style, demVal, aspectVal, slopeVal, src.cellSize, nm.cos);
      PaintPixel(k, g);
    }

    /** `if (g != CONTOURS_TRANSPARENT) imageBuffer[k] = argb(g)`. */
    method PaintPixel(k: int, g: int)
      requires image != null && 0 <= k < image.pixels.Length
      modifies image.pixels
      ensures forall i :: 0 <= i < image.pixels.Length ==>
        image.pixels[i] == if i == k then Paint(old(image.pixels[i]), g) else old(image.pixels[i])
    {
      if g != Transparent {
        image.pixels[k] := Argb(IntBits(g));
      }
    }

    /** The column loop of the scaled pass for one row. */
    method DrawScaledRow(src: Grid, slopeGrid: Grid, row: int, scale: Positive, nm: Numerics)
      requires image != null && image.Valid() && src.Valid() && slopeGrid.Valid()
      requires scale > 1 && scale == image.width / src.Cols() && image.height >= src.Rows() * scale
      requires 1 <= row < src.Rows() - 2
      modifies image.pixels
      ensures forall i :: 0 <= i < image.pixels.Length ==>
        image.pixels[i] == ScaledPixel(style, src, slopeGrid, nm, image.width, scale, row, row + 1, old(image.pixels[i]), i)
    {
      assert image.width >= src.Cols() * scale by {
        assert image.width == (image.width / src.Cols()) * src.Cols() + image.width % src.Cols();
      }
      for col := 1 to src.Cols() - 1
        invariant forall i :: 0 <= i < image.pixels.Length ==>
          image.pixels[i] == if BlockRow(i, image.width, scale) == row && 1 <= BlockCol(i, image.width, scale) < col
            then BlockPaint(style, src, slopeGrid, nm, image.width, scale, old(image.pixels[i]), i)
            else old(image.pixels[i])
      {
        ScaledIlluminatedContours(src, col, row, slopeGrid, scale, nm);
        forall i | 0 <= i < image.pixels.Length
          ensures image.pixels[i] == if BlockRow(i, image.width, scale) == row && 1 <= BlockCol(i, image.width, scale) < col + 1
            then BlockPaint(style, src, slopeGrid, nm, image.width, scale, old(image.pixels[i]), i)
            else old(image.pixels[i])
        {
        }
      }
    }

    /** `scaledIlluminatedContours`: the scale x scale block of cell (col, row), sub-cell by sub-cell. */
    method ScaledIlluminatedContours(src: Grid, col: int, row: int, slopeGrid: Grid, scale: Positive, nm: Numerics)
      requires image != null && image.Valid() && src.Valid() && slopeGrid.Valid()
      requires image.width >= src.Cols() * scale && image.height >= src.Rows() * scale
      requires 0 <= col < src.Cols() && 0 <= row < src.Rows()
      modifies image.pixels
      ensures forall i :: 0 <= i < image.pixels.Length ==>
        image.pixels[i] == if BlockRow(i, image.width, scale) == row && BlockCol(i, image.width, scale) == col
          then BlockPaint(style, src, slopeGrid, nm, image.width, scale, old(image.pixels[i]), i)
          else old(image.pixels[i])
    {
      for r := 0 to scale
        invariant forall i :: 0 <= i < image.pixels.Length ==>
          image.pixels[i] == if BlockRow(i, image.width, scale) == row && BlockCol(i, image.width, scale) == col &&
                                SubRow(i, image.width, scale) < r
            then BlockPaint(style, src, slopeGrid, nm, image.width, scale, old(image.pixels[i]), i)
            else old(image.pixels[i])
      {
        DrawSubcellRow(src, col, row, slopeGrid, scale, r, nm);
        forall i | 0 <= i < image.pixels.Length
          ensures image.pixels[i] == if BlockRow(i, image.width, scale) == row && BlockCol(i, image.width, scale) == col &&
                                        SubRow(i, image.width, scale) < r + 1
            then BlockPaint(style, src, slopeGrid, nm, image.width, scale, old(image.pixels[i]), i)
            else old(image.pixels[i])
        {
        }
      }
    }

    /** The inner loop of `scaledIlluminatedContours`: sub-row r of the block of cell (col, row). */
    method DrawSubcellRow(src: Grid, col: int, row: int, slopeGrid: Grid, scale: Positive, r: int, nm: Numerics)
      requires image != null && image.Valid() && src.Valid() && slopeGrid.Valid()
      requires image.width >= src.Cols() * scale && image.height >= src.Rows() * scale
      requires 0 <= col < src.Cols() && 0 <= row < src.Rows() && 0 <= r < scale
      modifies image.pixels
      ensures forall i :: 0 <= i < image.pixels.Length ==>
        image.pixels[i] == if BlockRow(i, image.width, scale) == row && BlockCol(i, image.width, scale) == col &&
                              SubRow(i, image.width, scale) == r
          then BlockPaint(style, src, slopeGrid, nm, image.width, scale, old(image.pixels[i]), i)
          else old(image.pixels[i])
    {
      for c := 0 to scale
        invariant forall i :: 0 <= i < image.pixels.Length ==>
          image.pixels[i] == if BlockRow(i, image.width, scale) == row && BlockCol(i, image.width, scale) == col &&
                                SubRow(i, image.width, scale) == r && SubCol(i, image.width, scale) < c
            then BlockPaint(style, src, slopeGrid, nm, image.width, scale, old(image.pixels[i]), i)
            else old(image.pixels[i])
      {
        BlockPixelInRange(image.width, image.height, src.Cols(), src.Rows(), scale, col, row, c, r);
        DrawSubcell(src, col, row, slopeGrid, scale, r, c, nm);
        forall i | 0 <= i < image.pixels.Length
          ensures image.pixels[i] == if BlockRow(i, image.width, scale) == row && BlockCol(i, image.width, scale) == col &&
                                        SubRow(i, image.width, scale) == r && SubCol(i, image.width, scale) < c + 1
            then BlockPaint(style, src, slopeGrid, nm, image.width, scale, old(image.pixels[i]), i)
            else old(image.pixels[i])
        {
          BlockIndex(i, image.width, scale, row, r, col, c);
        }
      }
    }

    /** One sub-cell of `scaledIlluminatedContours`: pixel (col * scale + c, row * scale + r). */
    method DrawSubcell(src: Grid, col: int, row: int, slopeGrid: Grid, scale: Positive, r: int, c: int, nm: Numerics)
      requires image != null && image.Valid() && src.Valid() && slopeGrid.Valid()
      requires image.width >= src.Cols() * scale && image.height >= src.Rows() * scale
      requires 0 <= col < src.Cols() && 0 <= row < src.Rows() && 0 <= r < scale && 0 <= c < scale
      modifies image.pixels
      ensures forall i :: 0 <= i < image.pixels.Length ==>
        image.pixels[i] == if i == (row * scale + r) * image.width + col * scale + c
          then Paint(old(image.pixels[i]), SubcellGray(style, src, slopeGrid, col, row, c, r, scale, nm))
          else old(image.pixels[i])
    {
      var k := (row * scale + r) * image.width + col * scale + c;
      BlockPixelInRange(image.width, image.height, src.Cols(), src.Rows(), scale, col, row, c, r);
      var g := SubcellGray(style, src, slopeGrid, col, row, c, r, scale, nm);
      PaintPixel(k, g);
    }
  }
}
