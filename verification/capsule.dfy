/** `Capsule` (src/shape/capsule.h): the distance to the segment from A to
    B minus the radius; the point of the segment is found by a projection
    clamped to [0, 1]. */
module Capsules {
  import opened Numeric
  import opened MathUtil
  import opened Rects
  import Circles

  datatype Capsule = Capsule(x0: real, y0: real, x1: real, y1: real, r: real)

  /** The clamped projection parameter of (x, y) onto the segment: the
      dot product of P - A with B - A over |B - A|^2, clamped to [0, 1]. */
  function Projection(c: Capsule, x: real, y: real): (h: real)
    ensures 0.0 <= h <= 1.0
    ensures c.x0 == c.x1 && c.y0 == c.y1 ==> h == 1.0
  {
    var dx1, dy1 := c.x1 - c.x0, c.y1 - c.y0;
    ClampedRatio(Dot(x - c.x0, y - c.y0, dx1, dy1), Dot(dx1, dy1, dx1, dy1))
  }

  function Dot(a: real, b: real, c: real, d: real): real
  {
    a * c + b * d
  }

  /** `fmaxf(fminf(num / den, 1), 0)`. When den is 0 (A == B) the quotient
      is 0/0, a NaN, which `fminf(NaN, 1)` turns into 1 and `fmaxf(1, 0)`
      keeps. */
  function ClampedRatio(num: real, den: real): (h: real)
    ensures 0.0 <= h <= 1.0
    ensures den == 0.0 ==> h == 1.0
    ensures den != 0.0 && num == 0.0 ==> h == 0.0
    ensures den != 0.0 && num == den ==> h == 1.0
  {
    if den == 0.0 then 1.0 else FMax(FMin(num / den, 1.0), 0.0)
  }

  /** `GetSDF`. */
  function SDF(m: MathLib, c: Capsule, x: real, y: real): real
  {
    var h := Projection(c, x, y);
    Norm(m, Offset(x, c.x0, c.x1, h), Offset(y, c.y0, c.y1, h)) - c.r
  }

  /** One coordinate of P - A - (B - A)h, as the source computes it. */
  function Offset(p: real, a: real, b: real, h: real): real
  {
    (p - a) - (b - a) * h
  }

  /** The segment point the SDF measures from: A + h(B - A). */
  function Closest(c: Capsule, x: real, y: real): (real, real)
  {
    var h := Projection(c, x, y);
    (Lerp(c.x0, c.x1, h), Lerp(c.y0, c.y1, h))
  }

  /** `GetDrawArea`: the two end points' bounding box grown by r; proper
      for a non-negative radius. */
  function DrawArea(c: Capsule): (box: Rect)
    ensures c.r >= 0.0 ==> box.Proper()
  {
    Rect(Floor(FMin(c.x0, c.x1) - c.r), Floor(FMin(c.y0, c.y1) - c.r),
         Ceil(FMax(c.x0, c.x1) + c.r), Ceil(FMax(c.y0, c.y1) + c.r))
  }

  /** The SDF is the distance to the clamped segment point minus r. */
  lemma DistanceToClosest(m: MathLib, c: Capsule, x: real, y: real)
    ensures var p := Closest(c, x, y);
      SDF(m, c, x, y) == Norm(m, x - p.0, y - p.1) - c.r
  {
    var h, p := Projection(c, x, y), Closest(c, x, y);
    assert p == (Lerp(c.x0, c.x1, h), Lerp(c.y0, c.y1, h));
    LerpOffset(x, c.x0, c.x1, h);
    LerpOffset(y, c.y0, c.y1, h);
    assert Offset(x, c.x0, c.x1, h) == x - p.0 && Offset(y, c.y0, c.y1, h) == y - p.1;
  }

  /** The offset from a + (b - a)h, written as the source computes it. */
  lemma LerpOffset(p: real, a: real, b: real, h: real)
    ensures Offset(p, a, b, h) == p - Lerp(a, b, h)
  {
  }

  /** For r >= 0 a point is inside exactly when its squared distance from
      the clamped segment point is at most r^2. */
  lemma InsideIff(m: MathLib, c: Capsule, x: real, y: real)
    requires Lawful(m) && c.r >= 0.0
    ensures var p := Closest(c, x, y);
      SDF(m, c, x, y) <= 0.0 <==> (x - p.0) * (x - p.0) + (y - p.1) * (y - p.1) <= c.r * c.r
  {
    var p := Closest(c, x, y);
    DistanceToClosest(m, c, x, y);
    NormAtMost(m, x - p.0, y - p.1, c.r);
  }

  /** The projection of A is 0 and that of B is 1 (also 1 when A == B). */
  lemma ProjectionAtEnds(c: Capsule)
    ensures c.x0 != c.x1 || c.y0 != c.y1 ==> Projection(c, c.x0, c.y0) == 0.0
    ensures Projection(c, c.x1, c.y1) == 1.0
  {
    var dx1, dy1 := c.x1 - c.x0, c.y1 - c.y0;
    if dx1 != 0.0 || dy1 != 0.0 {
      DotSelfPositive(dx1, dy1);
    }
    assert Dot(c.x0 - c.x0, c.y0 - c.y0, dx1, dy1) == 0.0;
  }

  /** |v|^2 is positive for a non-zero vector v. */
  lemma DotSelfPositive(a: real, b: real)
    requires a != 0.0 || b != 0.0
    ensures Dot(a, b, a, b) > 0.0
  {
    SquareNonneg(a);
    SquareNonneg(b);
    DotPositive(a, b, a, b);
  }

  /** A sum of two non-negative products, one of them positive. */
  lemma DotPositive(a: real, b: real, c: real, d: real)
    requires a * c >= 0.0 && b * d >= 0.0 && (a * c > 0.0 || b * d > 0.0)
    ensures Dot(a, b, c, d) > 0.0
  {
  }

  /** Both end points are at depth r. */
  lemma EndpointValues(m: MathLib, c: Capsule)
    requires Lawful(m)
    ensures SDF(m, c, c.x0, c.y0) == -c.r
    ensures SDF(m, c, c.x1, c.y1) == -c.r
  {
    NormZero(m);
    ProjectionAtEnds(c);
  }

  /** With A == B the projection is 1 everywhere and the capsule is the
      circle of radius r around A. */
  lemma DegenerateIsCircle(m: MathLib, c: Capsule, x: real, y: real)
    requires c.x0 == c.x1 && c.y0 == c.y1
    ensures Projection(c, x, y) == 1.0
    ensures SDF(m, c, x, y) == Circles.SDF(m, Circles.Circle(c.x0, c.y0, c.r), x, y)
  {
  }

  /** Swapping the end points leaves the box unchanged. */
  lemma BoxSwap(c: Capsule)
    ensures DrawArea(Capsule(c.x1, c.y1, c.x0, c.y0, c.r)) == DrawArea(c)
  {
  }

  /** Every point whose SDF is at most s >= 0 lies in the box grown by s. */
  lemma BoxCovers(m: MathLib, c: Capsule, s: real, x: real, y: real)
    requires Lawful(m) && s >= 0.0 && SDF(m, c, x, y) <= s
    ensures DrawArea(c).Covers(s, x, y)
  {
    var h := Projection(c, x, y);
    var p := Closest(c, x, y);
    DistanceToClosest(m, c, x, y);
    NormFacts(m, x - p.0, y - p.1);
    LerpBetween(c.x0, c.x1, h);
    LerpBetween(c.y0, c.y1, h);
  }
}
