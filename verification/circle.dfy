/** `Circle` (src/shape/circle.h): the distance to the centre minus the
    radius, drawn inside the floor/ceil of the bounding square. */
module Circles {
  import opened Numeric
  import opened Rects

  datatype Circle = Circle(centerX: real, centerY: real, r: real)

  /** `GetSDF`. */
  function SDF(m: MathLib, c: Circle, x: real, y: real): real
  {
    Norm(m, x - c.centerX, y - c.centerY) - c.r
  }

  /** `GetDrawArea`: floor of the top-left and ceil of the bottom-right
      corner of the bounding square; proper for a non-negative radius. */
  function DrawArea(c: Circle): (box: Rect)
    ensures c.r >= 0.0 ==> box.Proper()
  {
    Rect(Floor(c.centerX - c.r), Floor(c.centerY - c.r), Ceil(c.centerX + c.r), Ceil(c.centerY + c.r))
  }

  /** For r >= 0 a point is inside (SDF <= 0) exactly when its squared
      distance from the centre is at most r^2. */
  lemma InsideIff(m: MathLib, c: Circle, x: real, y: real)
    requires Lawful(m) && c.r >= 0.0
    ensures SDF(m, c, x, y) <= 0.0 <==>
      (x - c.centerX) * (x - c.centerX) + (y - c.centerY) * (y - c.centerY) <= c.r * c.r
  {
    NormAtMost(m, x - c.centerX, y - c.centerY, c.r);
  }

  /** The centre is at depth r, and no point is deeper. */
  lemma CenterDeepest(m: MathLib, c: Circle, x: real, y: real)
    requires Lawful(m)
    ensures SDF(m, c, c.centerX, c.centerY) == -c.r
    ensures SDF(m, c, x, y) >= -c.r
  {
    NormZero(m);
    NormFacts(m, x - c.centerX, y - c.centerY);
  }

  /** Every point whose SDF is at most s >= 0 lies in the box grown by s;
      with s = 0, every inside point lies in the box. */
  lemma BoxCovers(m: MathLib, c: Circle, s: real, x: real, y: real)
    requires Lawful(m) && s >= 0.0 && SDF(m, c, x, y) <= s
    ensures DrawArea(c).Covers(s, x, y)
  {
    NormFacts(m, x - c.centerX, y - c.centerY);
  }
}
