/**
 * Cell values. A grid cell is a 32-bit float in the program, with NaN meaning
 * "no data"; here it is an exact real or `Void`. Arithmetic on cells follows
 * IEEE NaN propagation: any void operand gives a void result.
 */
module Cells {

  datatype Cell = Void | Val(r: real)

  function Add(a: Cell, b: Cell): (s: Cell)
    ensures s.Val? <==> a.Val? && b.Val?
  {
    if a.Val? && b.Val? then Val(a.r + b.r) else Void
  }

  function Sub(a: Cell, b: Cell): (d: Cell)
    ensures d.Val? <==> a.Val? && b.Val?
  {
    if a.Val? && b.Val? then Val(a.r - b.r) else Void
  }

  function Mul(a: Cell, b: Cell): (p: Cell)
    ensures p.Val? <==> a.Val? && b.Val?
  {
    if a.Val? && b.Val? then Val(a.r * b.r) else Void
  }

  /** A cell multiplied by a finite number. */
  function Scale(a: Cell, k: real): (p: Cell)
    ensures p.Val? <==> a.Val?
  {
    if a.Val? then Val(a.r * k) else Void
  }

  /** Float.MAX_VALUE, the largest finite 32-bit float. */
  const FloatMax: real := 340282346638528859811704183484516925440.0

  /** Math.PI as a decimal. */
  const MathPI: real := 3.141592653589793

  /** The Java cast `(int) x`, which truncates toward zero. */
  function Trunc(x: real): (t: int)
    ensures x >= 0.0 ==> t >= 0 && t as real <= x < t as real + 1.0
    ensures x < 0.0 ==> t <= 0 && t as real - 1.0 < x <= t as real
  {
    if x >= 0.0 then x.Floor else -((-x).Floor)
  }

  /** The smallest and the largest 32-bit `int`, and the number of `int` values. */
  const IntMin: int := -0x8000_0000
  const IntMax: int := 0x7fff_ffff
  const IntRange: int := 0x1_0000_0000

  /**
   * Java's `int` arithmetic: the exact result wrapped into the 32-bit range,
   * as two's complement addition and multiplication do.
   */
  function Wrap32(x: int): (w: int)
    ensures IntMin <= w <= IntMax
    ensures IntMin <= x <= IntMax ==> w == x
    ensures (x - w) % IntRange == 0
    ensures w % 2 == x % 2
  {
    var q := (x - IntMin) / IntRange;
    var w := (x - IntMin) % IntRange + IntMin;
    assert x - w == q * IntRange;
    ParityShift(w, q * 0x8000_0000);
    w
  }

  /** Just above the range, wrapping subtracts 2^32 once. */
  lemma WrapOnce(x: int)
    requires IntMax < x <= IntMax + IntRange
    ensures Wrap32(x) == x - IntRange
  {
    var y := x - IntMin;
    assert IntRange <= y < 2 * IntRange;
    assert y / IntRange == 1;
  }

  lemma ParityShift(a: int, t: int)
    ensures (a + 2 * t) % 2 == a % 2
  {
  }

  /**
   * The Java cast `(int) x` of a double: truncation toward zero, saturating
   * at the ends of the 32-bit range.
   */
  function IntCast(x: real): (t: int)
    ensures IntMin <= t <= IntMax
    ensures IntMin as real <= x < IntMax as real + 1.0 ==> t == Trunc(x)
  {
    if x >= IntMax as real then IntMax else if x <= IntMin as real then IntMin else Trunc(x)
  }

  /**
   * Java's `%` on doubles: the remainder of a division truncated toward zero,
   * so it takes the sign of the dividend. A zero divisor gives NaN.
   */
  function JavaRem(x: real, y: real): (m: Cell)
    ensures m.Val? <==> y != 0.0
  {
    if y == 0.0 then Void else Val(x - y * Trunc(x / y) as real)
  }

  lemma {:induction false} JavaRemNonNegative(x: real, y: real)
    requires x >= 0.0 && y > 0.0
    ensures JavaRem(x, y).Val? && 0.0 <= JavaRem(x, y).r < y
  {
    var q := x / y;
    var t := Trunc(q) as real;
    assert q * y == x;
    assert t <= q < t + 1.0;
    MulLeq(t, q, y);
    MulLt(q, t + 1.0, y);
    var ty := t * y;
    assert (t + 1.0) * y == ty + y;
    calc {
      x;
    ==
      q * y;
    <
      (t + 1.0) * y;
    }
    assert ty <= x < ty + y;
    assert y * t == ty;
  }

  lemma MulLeq(a: real, b: real, k: real)
    requires a <= b && k >= 0.0
    ensures a * k <= b * k
  {
  }

  lemma MulLt(a: real, b: real, k: real)
    requires a < b && k > 0.0
    ensures a * k < b * k
  {
  }

  function Abs(x: real): (a: real)
    ensures a >= 0.0 && (a == x || a == -x)
  {
    if x < 0.0 then -x else x
  }

  /** The library numerics the program calls, which the model leaves abstract. */
  datatype Numerics = Numerics(sqrt: real -> real, cos: real -> real, atan2: (real, real) -> real)
}
