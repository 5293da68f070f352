/** Small numeric helpers used throughout the renderer (src/util/mathutil.h),
    over mathematical reals instead of IEEE floats. */
module MathUtil {
  import opened Numeric

  const Pi: real := 3.14159265358979323846264338327950288
  const PiHalf: real := 1.57079632679489661923132169163975144
  const PiQuarter: real := 0.785398163397448309615660845819875721
  const E: real := 2.71828182845904523536028747135266250

  /** `std::numeric_limits<float>::epsilon()`, that is 2^-23. */
  const FloatEpsilon: real := 1.0 / 8388608.0

  /** A tolerance scaled by epsilon: `scale * epsilon`, written as a
      division by 2^23 so that it stays linear in `scale`. */
  function Tolerance(scale: real): (t: real)
    ensures t == scale * FloatEpsilon
  {
    scale / 8388608.0
  }

  function Radians(degrees: real): real { degrees * Pi / 180.0 }

  function Degrees(radians: real): real { radians * 180.0 / Pi }

  /** Over the reals the two conversions are inverse to each other. */
  lemma RadiansDegreesInverse(r: real)
    ensures Radians(Degrees(r)) == r
    ensures Degrees(Radians(r)) == r
  {
  }

  /** The `Min` template for integers: `a < b ? a : b`. */
  function Min(a: int, b: int): (r: int)
    ensures r <= a && r <= b
    ensures r == a || r == b
  {
    if a < b then a else b
  }

  /** The `Max` template for integers: `a > b ? a : b`. */
  function Max(a: int, b: int): (r: int)
    ensures r >= a && r >= b
    ensures r == a || r == b
  {
    if a > b then a else b
  }

  /** The float specialisation of `Min`, which calls `std::fminf`. Without
      NaN it picks what the integer template picks; it is a function of
      its own because the model's floats are `real` and its `int`s are
      `int`, and the two share no ordered type. */
  function FMin(a: real, b: real): (r: real)
    ensures r <= a && r <= b
    ensures r == a || r == b
  {
    if a < b then a else b
  }

  /** The float specialisation of `Max`, which calls `std::fmaxf`. */
  function FMax(a: real, b: real): (r: real)
    ensures r >= a && r >= b
    ensures r == a || r == b
  {
    if a > b then a else b
  }

  /** The variadic `Min(a, b, rest...)`, which folds from the left:
      `Min(Min(a, b), rest...)`. */
  function MinOf(xs: seq<real>): (r: real)
    requires |xs| >= 2
    ensures forall i :: 0 <= i < |xs| ==> r <= xs[i]
    ensures r in xs
    decreases |xs|
  {
    if |xs| == 2 then FMin(xs[0], xs[1])
    else
      var head := FMin(xs[0], xs[1]);
      var r := MinOf([head] + xs[2..]);
      assert forall i :: 2 <= i < |xs| ==> xs[i] == ([head] + xs[2..])[i - 1];
      r
  }

  /** The variadic `Max(a, b, rest...)`, folding from the left. */
  function MaxOf(xs: seq<real>): (r: real)
    requires |xs| >= 2
    ensures forall i :: 0 <= i < |xs| ==> r >= xs[i]
    ensures r in xs
    decreases |xs|
  {
    if |xs| == 2 then FMax(xs[0], xs[1])
    else
      var head := FMax(xs[0], xs[1]);
      var r := MaxOf([head] + xs[2..]);
      assert forall i :: 2 <= i < |xs| ==> xs[i] == ([head] + xs[2..])[i - 1];
      r
  }

  /** `FloatEqual`: the difference is within epsilon scaled by the larger
      magnitude. */
  predicate FloatEqual(a: real, b: real)
  {
    Abs(a - b) <= Tolerance(if Abs(a) < Abs(b) then Abs(b) else Abs(a))
  }

  lemma FloatEqualReflexiveSymmetric(a: real, b: real)
    ensures FloatEqual(a, a)
    ensures FloatEqual(a, b) <==> FloatEqual(b, a)
  {
  }

  /** Against zero the scaled tolerance vanishes: only 0 itself is equal. */
  lemma FloatEqualZero(a: real)
    ensures FloatEqual(a, 0.0) <==> a == 0.0
  {
  }

  /** `std::fmodf(a, b)` for b > 0: the remainder after truncated division,
      carrying the sign of a. */
  function Fmod(a: real, b: real): (x: real)
    requires b > 0.0
    ensures 0.0 <= a ==> 0.0 <= x < b
    ensures a < 0.0 ==> -b < x <= 0.0
  {
    var q := Trunc(a / b);
    RemainderBounds(a, b, q);
    a - q as real * b
  }

  /** a - q*b with q the truncated quotient lies in [0, b) for a >= 0 and
      in (-b, 0] for a < 0. */
  lemma RemainderBounds(a: real, b: real, q: int)
    requires b > 0.0 && q == Trunc(a / b)
    ensures 0.0 <= a ==> 0.0 <= a - q as real * b < b
    ensures a < 0.0 ==> -b < a - q as real * b <= 0.0
  {
    var d := a / b;
    DivMul(a, b);
    SignOfQuotient(a, b, d);
    RemainderOfQuotient(a, b, d, q as real);
  }

  lemma SignOfQuotient(a: real, b: real, d: real)
    requires b > 0.0 && d * b == a
    ensures 0.0 <= a <==> 0.0 <= d
  {
    ScaleOrder(0.0, d, b);
  }

  lemma RemainderOfQuotient(a: real, b: real, d: real, qr: real)
    requires b > 0.0 && d * b == a
    ensures qr <= d < qr + 1.0 ==> 0.0 <= a - qr * b < b
    ensures qr - 1.0 < d <= qr ==> -b < a - qr * b <= 0.0
  {
    var f := d - qr;
    var y := a - qr * b;
    assert y == f * b;
    if -1.0 < f < 1.0 {
      FractionScale(f, b, y);
    }
  }

  /** A fraction f in (-1, 1) of a positive b stays within (-b, b), on the
      side of its sign. */
  lemma FractionScale(f: real, b: real, y: real)
    requires b > 0.0 && -1.0 < f < 1.0 && y == f * b
    ensures 0.0 <= f ==> 0.0 <= y < b
    ensures f <= 0.0 ==> -b < y <= 0.0
  {
    if 0.0 <= f {
      MulNonneg(f, b);
      var h := 1.0 - f;
      MulPos(h, b);
      assert h * b == b - y;
    }
    if f <= 0.0 {
      var g := -f;
      MulNonneg(g, b);
      assert g * b == -y;
      var h := f + 1.0;
      MulPos(h, b);
      assert h * b == y + b;
    }
  }

  /** The angle in [0, 2*pi) that `RadiansNormalize` computes before its
      declared `bool` return type converts it. */
  function NormalizedAngle(radians: real): (x: real)
    ensures 0.0 <= x < 2.0 * Pi
  {
    var x := Fmod(radians, 2.0 * Pi);
    if x < 0.0 then x + 2.0 * Pi else x
  }

  /** `RadiansNormalize` is declared to return `bool`, so the normalised
      angle is converted: the result is whether it is non-zero. */
  function RadiansNormalize(radians: real): bool
  {
    NormalizedAngle(radians) != 0.0
  }

  /** The result is false exactly when the remainder modulo 2*pi is zero:
      the negative branch adds 2*pi to a value in (-2*pi, 0), which is
      never zero. */
  lemma RadiansNormalizeIsNonzeroRemainder(radians: real)
    ensures RadiansNormalize(radians) <==> Fmod(radians, 2.0 * Pi) != 0.0
    ensures Fmod(radians, 2.0 * Pi) < 0.0 ==> RadiansNormalize(radians)
  {
  }

  /** Whole turns normalise to 0 (false); angles strictly inside the first
      turn stay put (true). */
  lemma RadiansNormalizeTurns(k: int, radians: real)
    ensures !RadiansNormalize(k as real * (2.0 * Pi))
    ensures 0.0 < radians < 2.0 * Pi ==> RadiansNormalize(radians)
  {
    var b := 2.0 * Pi;
    assert k as real * b / b == k as real;
    assert Trunc(k as real * b / b) == k;
    if 0.0 < radians < b {
      assert 0.0 < radians / b < 1.0 by { MulBoundInv(radians, b); }
      assert Trunc(radians / b) == 0;
    }
  }

  lemma MulBoundInv(v: real, b: real)
    requires 0.0 < v < b
    ensures 0.0 < v / b < 1.0
  {
    var d := v / b;
    DivMul(v, b);
    ScaleOrder(d, 1.0, b);
    assert d * b < 1.0 * b;
    ScaleOrder(0.0, d, b);
  }

  /** `LinearMapping`: clamp `value` to [l0, r0] and map that interval
      linearly onto [l1, r1]. The source divides by r0 - l0 in the middle
      branch, which is reached with a zero divisor only when
      l0 == r0 == value (a 0/0 there). */
  function LinearMapping(value: real, l0: real, r0: real, l1: real, r1: real): real
    requires l0 != r0 || value != l0
  {
    if value < l0 then l1
    else if value > r0 then r1
    else (value - l0) * (r1 - l1) / (r0 - l0) + l1
  }

  /** Below the window the result is l1, above it r1. */
  lemma LinearMappingClamps(value: real, l0: real, r0: real, l1: real, r1: real)
    requires l0 != r0 || value != l0
    ensures value < l0 ==> LinearMapping(value, l0, r0, l1, r1) == l1
    ensures l0 <= value && value > r0 ==> LinearMapping(value, l0, r0, l1, r1) == r1
  {
  }

  /** On a proper window the end points map to the end points. */
  lemma LinearMappingEndpoints(l0: real, r0: real, l1: real, r1: real)
    requires l0 < r0
    ensures LinearMapping(l0, l0, r0, l1, r1) == l1
    ensures LinearMapping(r0, l0, r0, l1, r1) == r1
  {
  }

  /** Linear interpolation a*(1-t) + b*t, the form used for gradient
      channels. */
  function Lerp(a: real, b: real, t: real): real
  {
    a * (1.0 - t) + b * t
  }

  /** For t in [0, 1] the interpolation lies between a and b; it is a at
      t = 0 and b at t = 1. */
  lemma LerpBetween(a: real, b: real, t: real)
    requires 0.0 <= t <= 1.0
    ensures FMin(a, b) <= Lerp(a, b, t) <= FMax(a, b)
    ensures t == 0.0 ==> Lerp(a, b, t) == a
    ensures t == 1.0 ==> Lerp(a, b, t) == b
  {
    var v := Lerp(a, b, t);
    if a <= b {
      MulNonneg(b - a, t);
      MulNonneg(b - a, 1.0 - t);
      assert v - a == (b - a) * t;
      assert b - v == (b - a) * (1.0 - t);
    } else {
      MulNonneg(a - b, t);
      MulNonneg(a - b, 1.0 - t);
      assert a - v == (a - b) * t;
      assert v - b == (a - b) * (1.0 - t);
    }
  }

  /** On a proper window the result always lies between l1 and r1, and it
      is the interpolation l1*(1-t) + r1*t at t = (value-l0)/(r0-l0)
      clamped to [0, 1]. */
  lemma LinearMappingBetween(value: real, l0: real, r0: real, l1: real, r1: real)
    requires l0 < r0
    ensures FMin(l1, r1) <= LinearMapping(value, l0, r0, l1, r1) <= FMax(l1, r1)
    ensures l0 <= value <= r0 ==>
      var t := (value - l0) / (r0 - l0);
      0.0 <= t <= 1.0 && LinearMapping(value, l0, r0, l1, r1) == Lerp(l1, r1, t)
  {
    if l0 <= value <= r0 {
      var t := (value - l0) / (r0 - l0);
      var w := r0 - l0;
      DivMul(value - l0, w);
      MulBoundInvClosed(value - l0, w);
      assert (value - l0) * (r1 - l1) / w == t * (r1 - l1) by {
        assert (value - l0) * (r1 - l1) == t * (r1 - l1) * w;
      }
      LerpBetween(l1, r1, t);
    }
  }

  /** Mapping onto [0, 1] always yields a value in [0, 1], also for an
      inverted window (l0 > r0), where only the two clamps are reachable. */
  lemma LinearMappingUnit(value: real, l0: real, r0: real)
    requires l0 != r0 || value != l0
    ensures 0.0 <= LinearMapping(value, l0, r0, 0.0, 1.0) <= 1.0
    ensures r0 < l0 ==> LinearMapping(value, l0, r0, 0.0, 1.0) in {0.0, 1.0}
  {
    if l0 < r0 {
      LinearMappingBetween(value, l0, r0, 0.0, 1.0);
    }
  }

  lemma MulBoundInvClosed(v: real, b: real)
    requires 0.0 <= v <= b && b > 0.0
    ensures 0.0 <= v / b <= 1.0
  {
    var d := v / b;
    DivMul(v, b);
    ScaleOrder(d, 1.0, b);
    assert d * b <= 1.0 * b;
    ScaleOrder(0.0, d, b);
  }
}
