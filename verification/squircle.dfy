/** `Squircle` (src/shape/squircle.h): the p-norm distance to the centre
    minus the radius, through the library `pow`, drawn in the same box as a
    circle of that radius. */
module Squircles {
  import opened Numeric
  import opened Rects
  import Circles

  datatype Squircle = Squircle(centerX: real, centerY: real, r: real, order: real)

  /** The three-argument constructor: exponent 4. */
  function NewSquircle(centerX: real, centerY: real, r: real): Squircle
  {
    Squircle(centerX, centerY, r, 4.0)
  }

  /** The four-argument constructor: exponent twice the given order. */
  function NewSquircleOrder(centerX: real, centerY: real, r: real, order: int): Squircle
  {
    Squircle(centerX, centerY, r, order as real * 2.0)
  }

  /** The exponent is a positive even whole number, 2j with j >= 1. */
  predicate EvenOrder(q: Squircle)
  {
    var n := q.order.Floor;
    n >= 2 && n % 2 == 0 && q.order == n as real
  }

  /** `GetSDF`: pow(pow(dx, k) + pow(dy, k), 1/k) - r. The exponent 1/k
      needs k != 0. */
  function SDF(m: MathLib, q: Squircle, x: real, y: real): real
    requires q.order != 0.0
  {
    PowNorm(m, x - q.centerX, y - q.centerY, q.order) - q.r
  }

  /** The k-norm of (a, b) as the source computes it. */
  function PowNorm(m: MathLib, a: real, b: real, k: real): real
    requires k != 0.0
  {
    m.pow(m.pow(a, k) + m.pow(b, k), 1.0 / k)
  }

  /** `GetDrawArea`: the box of the circle with the same centre and
      radius; proper for a non-negative radius. */
  function DrawArea(q: Squircle): (box: Rect)
    ensures q.r >= 0.0 ==> box.Proper()
  {
    Circles.DrawArea(Circles.Circle(q.centerX, q.centerY, q.r))
  }

  /** The constructors choose exponent 4 or 2*order, and the exponent
      does not affect the box. */
  lemma Constructors(centerX: real, centerY: real, r: real, order: int, other: real)
    ensures NewSquircle(centerX, centerY, r).order == 4.0
    ensures NewSquircleOrder(centerX, centerY, r, order).order == 2.0 * order as real
    ensures order >= 1 ==> EvenOrder(NewSquircleOrder(centerX, centerY, r, order))
    ensures EvenOrder(NewSquircle(centerX, centerY, r))
    ensures DrawArea(Squircle(centerX, centerY, r, other)) == DrawArea(NewSquircle(centerX, centerY, r))
  {
    if order >= 1 {
      var n := (order as real * 2.0).Floor;
      assert n == 2 * order;
    }
  }

  /** For an even exponent 2j, the norm is the non-negative real whose
      2j-th power is |a|^2j + |b|^2j. */
  lemma PowNormLaw(m: MathLib, a: real, b: real, j: nat)
    requires Lawful(m) && j >= 1
    ensures var v := IntPow(Abs(a), 2 * j) + IntPow(Abs(b), 2 * j);
      0.0 <= v && 0.0 <= PowNorm(m, a, b, (2 * j) as real) &&
      IntPow(PowNorm(m, a, b, (2 * j) as real), 2 * j) == v
  {
    var k := 2 * j;
    assert PowLaw(m, a, k) && PowLaw(m, b, k);
    IntPowEven(a, j);
    IntPowEven(b, j);
    IntPowNonneg(Abs(a), k);
    IntPowNonneg(Abs(b), k);
    var v := m.pow(a, k as real) + m.pow(b, k as real);
    assert RootLaw(m, v, k);
  }

  /** The centre is at depth r. */
  lemma CenterValue(m: MathLib, q: Squircle)
    requires Lawful(m) && EvenOrder(q)
    ensures SDF(m, q, q.centerX, q.centerY) == -q.r
  {
    var j: nat := q.order.Floor / 2;
    PowNormLaw(m, 0.0, 0.0, j);
    IntPowZero(2 * j);
    var p := PowNorm(m, 0.0, 0.0, q.order);
    if p > 0.0 {
      IntPowMonotone(0.0, p, 2 * j);
    }
  }

  /** With an even exponent, every point whose SDF is at most s >= 0 lies
      in the box grown by s: a point with |dx| > r + s or |dy| > r + s is
      further out than that. */
  lemma BoxCovers(m: MathLib, q: Squircle, s: real, x: real, y: real)
    requires Lawful(m) && EvenOrder(q) && s >= 0.0 && SDF(m, q, x, y) <= s
    ensures DrawArea(q).Covers(s, x, y)
  {
    var j: nat := q.order.Floor / 2;
    var k := 2 * j;
    var a, b := x - q.centerX, y - q.centerY;
    PowNormLaw(m, a, b, j);
    var p := PowNorm(m, a, b, q.order);
    IntPowNonneg(Abs(a), k);
    IntPowNonneg(Abs(b), k);
    if Abs(a) > q.r + s {
      IntPowMonotone(p, Abs(a), k);
      assert false;
    }
    if Abs(b) > q.r + s {
      IntPowMonotone(p, Abs(b), k);
      assert false;
    }
  }
}
