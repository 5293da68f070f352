/** `Rectangle` (src/shape/rectangle.h): the box SDF around a centre with
    two half-extents, which `InitParam` derives from the origin and size
    once, in the constructor. */
module Rectangles {
  import opened Numeric
  import opened MathUtil
  import opened Rects

  /** The stored origin and size, and the derived centre and half-extents. */
  datatype Rectangle = Rectangle(
    x0: real, y0: real, width: real, height: real,
    cx: real, cy: real, sx: real, sy: real)

  /** `InitParam` as written: both half-extents are width/2, and the centre
      is the origin moved by (width/2, width/2). */
  function InitParam(x0: real, y0: real, width: real, height: real): Rectangle
  {
    var sx := width / 2.0;
    var sy := width / 2.0;
    Rectangle(x0, y0, width, height, x0 + sx, y0 + sy, sx, sy)
  }

  /** `Rectangle(x0, y0, width, height)`. */
  function NewRectangle(x0: real, y0: real, width: real, height: real): Rectangle
  {
    InitParam(x0, y0, width, height)
  }

  /** `Rectangle(x0, y0, side)`. */
  function NewSquare(x0: real, y0: real, side: real): Rectangle
  {
    InitParam(x0, y0, side, side)
  }

  /** The excess of |p - c| over the half-extent s along one axis. */
  function Excess(p: real, c: real, s: real): real
  {
    Abs(p - c) - s
  }

  /** `GetSDF`: min(max(dx, dy), 0) + |(max(dx, 0), max(dy, 0))|. */
  function SDF(m: MathLib, q: Rectangle, x: real, y: real): real
  {
    var dx, dy := Excess(x, q.cx, q.sx), Excess(y, q.cy, q.sy);
    FMin(FMax(dx, dy), 0.0) + Norm(m, FMax(dx, 0.0), FMax(dy, 0.0))
  }

  /** `GetDrawArea`: the stored origin and size, height included; proper
      for a non-negative size. */
  function DrawArea(q: Rectangle): (box: Rect)
    ensures q.width >= 0.0 && q.height >= 0.0 ==> box.Proper()
  {
    Rect(Floor(q.x0), Floor(q.y0), Ceil(q.x0 + q.width), Ceil(q.y0 + q.height))
  }

  /** The side constructor stores the side as both width and height; either
      constructor keeps the origin and size it is given. */
  lemma Constructors(x0: real, y0: real, width: real, height: real, side: real)
    ensures NewSquare(x0, y0, side).width == side && NewSquare(x0, y0, side).height == side
    ensures NewSquare(x0, y0, side) == NewRectangle(x0, y0, side, side)
    ensures var q := NewRectangle(x0, y0, width, height);
      q.x0 == x0 && q.y0 == y0 && q.width == width && q.height == height
  {
  }

  /** As written, the derived square has side `width` whatever the height:
      both half-extents are width/2 and the centre is (x0 + w/2, y0 + w/2). */
  lemma InitParamIgnoresHeight(x0: real, y0: real, width: real, height: real, other: real)
    ensures NewRectangle(x0, y0, width, height).sx == width / 2.0
    ensures NewRectangle(x0, y0, width, height).sy == width / 2.0
    ensures NewRectangle(x0, y0, width, height).cy == y0 + width / 2.0
    ensures NewRectangle(x0, y0, width, height).(height := other) == NewRectangle(x0, y0, width, other)
  {
  }

  /** A point is inside (SDF <= 0) exactly when it is within both
      half-extents of the centre. */
  lemma InsideIff(m: MathLib, q: Rectangle, x: real, y: real)
    requires Lawful(m)
    ensures SDF(m, q, x, y) <= 0.0 <==> Abs(x - q.cx) <= q.sx && Abs(y - q.cy) <= q.sy
  {
    var dx, dy := Excess(x, q.cx, q.sx), Excess(y, q.cy, q.sy);
    if dx <= 0.0 && dy <= 0.0 {
      InsideValue(m, q, x, y);
    } else {
      OutsideValue(m, q, x, y);
    }
  }

  /** Inside both half-extents, the SDF is the larger of the two excesses. */
  lemma InsideValue(m: MathLib, q: Rectangle, x: real, y: real)
    requires Lawful(m)
    requires Abs(x - q.cx) <= q.sx && Abs(y - q.cy) <= q.sy
    ensures SDF(m, q, x, y) == FMax(Abs(x - q.cx) - q.sx, Abs(y - q.cy) - q.sy)
  {
    NormZero(m);
  }

  /** Beyond either half-extent, the min term is 0 and the SDF is the
      positive length of the clamped excesses. */
  lemma OutsideValue(m: MathLib, q: Rectangle, x: real, y: real)
    requires Lawful(m)
    requires Abs(x - q.cx) > q.sx || Abs(y - q.cy) > q.sy
    ensures SDF(m, q, x, y) ==
      Norm(m, FMax(Abs(x - q.cx) - q.sx, 0.0), FMax(Abs(y - q.cy) - q.sy, 0.0))
    ensures SDF(m, q, x, y) > 0.0
  {
    var dx, dy := Excess(x, q.cx, q.sx), Excess(y, q.cy, q.sy);
    NormFacts(m, FMax(dx, 0.0), FMax(dy, 0.0));
  }

  /** The derived square lies within the stored origin and size. */
  predicate Fits(q: Rectangle)
  {
    q.x0 <= q.cx - q.sx && q.cx + q.sx <= q.x0 + q.width &&
    q.y0 <= q.cy - q.sy && q.cy + q.sy <= q.y0 + q.height
  }

  /** As written, the square fits exactly when width <= height. */
  lemma InitParamFitsIff(x0: real, y0: real, width: real, height: real)
    ensures Fits(NewRectangle(x0, y0, width, height)) <==> width <= height
  {
  }

  /** A fitting rectangle's box holds every point whose SDF is at most
      s >= 0, grown by s. */
  lemma BoxCovers(m: MathLib, q: Rectangle, s: real, x: real, y: real)
    requires Lawful(m) && Fits(q) && s >= 0.0 && SDF(m, q, x, y) <= s
    ensures DrawArea(q).Covers(s, x, y)
  {
    var dx, dy := Excess(x, q.cx, q.sx), Excess(y, q.cy, q.sy);
    NormFacts(m, FMax(dx, 0.0), FMax(dy, 0.0));
  }

  /** The box as written misses inside points: a 4-wide, 1-high rectangle
      at the origin is modelled as a 4 by 4 square, so (2, 3) is inside
      while its box ends at y = 1. */
  lemma WideRectangleEscapesBox(m: MathLib)
    requires Lawful(m)
    ensures SDF(m, NewRectangle(0.0, 0.0, 4.0, 1.0), 2.0, 3.0) <= 0.0
    ensures !DrawArea(NewRectangle(0.0, 0.0, 4.0, 1.0)).Covers(0.0, 2.0, 3.0)
  {
    InsideIff(m, NewRectangle(0.0, 0.0, 4.0, 1.0), 2.0, 3.0);
  }

  /** The evidently intended `InitParam`: the vertical half-extent and
      centre come from the height. */
  function InitParamIntended(x0: real, y0: real, width: real, height: real): Rectangle
  {
    var sx := width / 2.0;
    var sy := height / 2.0;
    Rectangle(x0, y0, width, height, x0 + sx, y0 + sy, sx, sy)
  }

  /** The intended parameters always fit, so the box holds every inside
      point, and a point is inside exactly when it lies in the real
      rectangle [x0, x0 + width] x [y0, y0 + height]. */
  lemma IntendedCovers(m: MathLib, x0: real, y0: real, width: real, height: real, s: real, x: real, y: real)
    requires Lawful(m) && s >= 0.0
    ensures Fits(InitParamIntended(x0, y0, width, height))
    ensures SDF(m, InitParamIntended(x0, y0, width, height), x, y) <= s ==>
      DrawArea(InitParamIntended(x0, y0, width, height)).Covers(s, x, y)
    ensures SDF(m, InitParamIntended(x0, y0, width, height), x, y) <= 0.0 <==>
      x0 <= x <= x0 + width && y0 <= y <= y0 + height
  {
    var q := InitParamIntended(x0, y0, width, height);
    InsideIff(m, q, x, y);
    if SDF(m, q, x, y) <= s {
      BoxCovers(m, q, s, x, y);
    }
  }
}
