/** `Operation` (src/shape/operation.h) and the shape tree it builds: the
    leaf primitives and the six operations over them, each with its SDF and
    its integer drawing box. Operands are shared, immutable shapes, so the
    tree is a value. */
module Operations {
  import opened Numeric
  import opened MathUtil
  import opened Rects
  import Circles
  import Squircles
  import Rectangles
  import Capsules

  datatype Opcode = Union | Intersection | Difference | Rotate | Scale | Round

  /** The geometry of a shape: a primitive, or an operation over one or
      two operands with the pivot and parameter fixed at construction. */
  datatype Geometry =
    | CircleShape(circle: Circles.Circle)
    | SquircleShape(squircle: Squircles.Squircle)
    | RectangleShape(rectangle: Rectangles.Rectangle)
    | CapsuleShape(capsule: Capsules.Capsule)
    | Operation(opcode: Opcode, opr1: Geometry, opr2: Option<Geometry>,
                centerX: real, centerY: real, param: real)

  predicate IsBinary(op: Opcode)
  {
    op == Union || op == Intersection || op == Difference
  }

  /** What evaluating a shape needs: a binary operation has its second
      operand (the source dereferences it), a scale divides by a non-zero
      factor and a squircle's exponent is non-zero. */
  predicate WellFormed(g: Geometry)
  {
    match g
    case SquircleShape(q) => q.order != 0.0
    case Operation(op, a, b, _, _, k) =>
      WellFormed(a) &&
      (IsBinary(op) ==> b.Some? && WellFormed(b.value)) &&
      (op == Scale ==> k != 0.0)
    case _ => true
  }

  /** `Operation(opcode, opr1, opr2)`: pivot and parameter are 0. */
  function MakeBinary(op: Opcode, a: Geometry, b: Geometry): Geometry
  {
    Operation(op, a, Some(b), 0.0, 0.0, 0.0)
  }

  /** The integer pivot `lo + (hi - lo) / 2`, with C++ division. */
  function Pivot(lo: int, hi: int): int
  {
    lo + DivTrunc(hi - lo, 2)
  }

  /** `Operation(opcode, opr, param)`: the pivot is the integer centre of
      the operand's box, computed once, here. */
  function MakeUnary(m: MathLib, op: Opcode, a: Geometry, param: real): Geometry
    requires WellFormed(a)
  {
    var area := DrawArea(m, a);
    Operation(op, a, None, Pivot(area.left, area.right) as real, Pivot(area.top, area.bottom) as real, param)
  }

  /** `CoordMapping`: without `reverse` a drawn point is taken back to the
      operand's space, with `reverse` an operand point is taken forward.
      Rotate turns about the pivot by -param (+param in reverse), Scale
      divides (multiplies) the offset from the pivot by param, and every
      other operation leaves the point alone. */
  function CoordMapping(m: MathLib, op: Opcode, cx: real, cy: real, k: real,
                        x: real, y: real, reverse: bool): (real, real)
    requires op == Scale && !reverse ==> k != 0.0
  {
    var x1, y1 := x - cx, y - cy;
    match op
    case Rotate =>
      var rho := Norm(m, x1, y1);
      var theta := m.atan2(y1, x1) + (if reverse then k else -k);
      (rho * m.cos(theta) + cx, rho * m.sin(theta) + cy)
    case Scale => (ScaleAxis(cx, k, x, reverse), ScaleAxis(cy, k, y, reverse))
    case _ => (x, y)
  }

  /** One coordinate of the Scale branch: the offset from the pivot c is
      multiplied by k in reverse and divided by k otherwise. */
  function ScaleAxis(c: real, k: real, u: real, reverse: bool): real
    requires !reverse ==> k != 0.0
  {
    var u1 := u - c;
    if reverse then u1 * k + c else u1 / k + c
  }

  /** `GetSDF`, with one switch: `rescale` multiplies a Scale operand's
      distance by |param|. The source does not (`SDF` below); the switch
      gives the corrected operation of the finding about Scale. */
  function SDFWith(m: MathLib, g: Geometry, x: real, y: real, rescale: bool): real
    requires WellFormed(g)
  {
    match g
    case CircleShape(c) => Circles.SDF(m, c, x, y)
    case SquircleShape(q) => Squircles.SDF(m, q, x, y)
    case RectangleShape(q) => Rectangles.SDF(m, q, x, y)
    case CapsuleShape(c) => Capsules.SDF(m, c, x, y)
    case Operation(op, a, b, cx, cy, k) =>
      match op
      case Union => FMin(SDFWith(m, a, x, y, rescale), SDFWith(m, b.value, x, y, rescale))
      case Intersection => FMax(SDFWith(m, a, x, y, rescale), SDFWith(m, b.value, x, y, rescale))
      case Difference => FMax(SDFWith(m, a, x, y, rescale), -SDFWith(m, b.value, x, y, rescale))
      case Rotate =>
        var p := CoordMapping(m, op, cx, cy, k, x, y, false);
        SDFWith(m, a, p.0, p.1, rescale)
      case Scale =>
        var p := CoordMapping(m, op, cx, cy, k, x, y, false);
        Rescaled(SDFWith(m, a, p.0, p.1, rescale), k, rescale)
      case Round => SDFWith(m, a, x, y, rescale) - k
  }

  /** The operand distance a Scale node reports: unchanged as written,
      multiplied by |k| when corrected. */
  function Rescaled(d: real, k: real, rescale: bool): real
  {
    if rescale then d * Abs(k) else d
  }

  /** `GetSDF` as written. */
  function SDF(m: MathLib, g: Geometry, x: real, y: real): real
    requires WellFormed(g)
  {
    SDFWith(m, g, x, y, false)
  }

  /** `GetDrawArea`. */
  function DrawArea(m: MathLib, g: Geometry): Rect
    requires WellFormed(g)
  {
    match g
    case CircleShape(c) => Circles.DrawArea(c)
    case SquircleShape(q) => Squircles.DrawArea(q)
    case RectangleShape(q) => Rectangles.DrawArea(q)
    case CapsuleShape(c) => Capsules.DrawArea(c)
    case Operation(op, a, b, cx, cy, k) =>
      var r1 := DrawArea(m, a);
      match op
      case Union =>
        var r2 := DrawArea(m, b.value);
        Rect(Min(r1.left, r2.left), Min(r1.top, r2.top), Max(r1.right, r2.right), Max(r1.bottom, r2.bottom))
      case Intersection =>
        var r2 := DrawArea(m, b.value);
        Rect(Max(r1.left, r2.left), Max(r1.top, r2.top), Min(r1.right, r2.right), Min(r1.bottom, r2.bottom))
      case Difference => r1
      case Rotate =>
        var p0 := CoordMapping(m, op, cx, cy, k, r1.left as real, r1.top as real, true);
        var p1 := CoordMapping(m, op, cx, cy, k, r1.right as real, r1.top as real, true);
        var p2 := CoordMapping(m, op, cx, cy, k, r1.right as real, r1.bottom as real, true);
        var p3 := CoordMapping(m, op, cx, cy, k, r1.left as real, r1.bottom as real, true);
        Rect(Floor(MinOf([p0.0, p1.0, p2.0, p3.0])), Floor(MinOf([p0.1, p1.1, p2.1, p3.1])),
             Ceil(MaxOf([p0.0, p1.0, p2.0, p3.0])), Ceil(MaxOf([p0.1, p1.1, p2.1, p3.1])))
      case Scale =>
        var p0 := CoordMapping(m, op, cx, cy, k, r1.left as real, r1.top as real, true);
        var p1 := CoordMapping(m, op, cx, cy, k, r1.right as real, r1.bottom as real, true);
        Rect(Floor(p0.0), Floor(p0.1), Ceil(p1.0), Ceil(p1.1))
      case Round =>
        Rect(Floor(r1.left as real - k), Floor(r1.top as real - k),
             Ceil(r1.right as real + k), Ceil(r1.bottom as real + k))
  }

  // ---------------------------------------------------------------------
  // Constructors and the pivot

  /** The binary constructor zeroes pivot and parameter; the unary one
      keeps no second operand. Either is well formed exactly when its
      operands are and the opcode fits it. */
  lemma ConstructorShapes(m: MathLib, op: Opcode, a: Geometry, b: Geometry, param: real)
    requires WellFormed(a)
    ensures var g := MakeBinary(op, a, b);
      g.centerX == 0.0 && g.centerY == 0.0 && g.param == 0.0 &&
      (WellFormed(g) <==> (IsBinary(op) ==> WellFormed(b)) && op != Scale)
    ensures var g := MakeUnary(m, op, a, param);
      g.opr2 == None && g.param == param &&
      (WellFormed(g) <==> !IsBinary(op) && (op == Scale ==> param != 0.0))
  {
  }

  /** The pivot is the midpoint rounded down for a proper range and
      rounded up for an inverted one (truncation toward zero), so it
      always lies between the two ends. */
  lemma PivotIsMidpoint(lo: int, hi: int)
    ensures lo <= hi ==> Pivot(lo, hi) == (lo + hi) / 2
    ensures hi < lo ==> Pivot(lo, hi) == (lo + hi + 1) / 2
    ensures Min(lo, hi) <= Pivot(lo, hi) <= Max(lo, hi)
  {
    var d := hi - lo;
    if d >= 0 {
      DivUnique(lo + hi, 2, lo + d / 2, d % 2);
    } else {
      DivUnique(lo + hi + 1, 2, lo - (-d) / 2, (-d + 1) % 2);
    }
  }

  /** The unary constructor's pivot is the pivot of the operand's box. */
  lemma UnaryPivot(m: MathLib, op: Opcode, a: Geometry, param: real)
    requires WellFormed(a)
    ensures var g, r := MakeUnary(m, op, a, param), DrawArea(m, a);
      r.left as real <= g.centerX <= r.right as real || r.right < r.left
    ensures var g, r := MakeUnary(m, op, a, param), DrawArea(m, a);
      r.top as real <= g.centerY <= r.bottom as real || r.bottom < r.top
  {
    var r := DrawArea(m, a);
    PivotIsMidpoint(r.left, r.right);
    PivotIsMidpoint(r.top, r.bottom);
  }

  // ---------------------------------------------------------------------
  // The coordinate mapping

  /** For k != 0 the two Scale maps are mutual inverses. */
  lemma ScaleMapsInverse(m: MathLib, cx: real, cy: real, k: real, x: real, y: real)
    requires k != 0.0
    ensures var p := CoordMapping(m, Scale, cx, cy, k, x, y, false);
      CoordMapping(m, Scale, cx, cy, k, p.0, p.1, true) == (x, y)
    ensures var p := CoordMapping(m, Scale, cx, cy, k, x, y, true);
      CoordMapping(m, Scale, cx, cy, k, p.0, p.1, false) == (x, y)
  {
    ScaleBack(cx, k, x);
    ScaleBack(cy, k, y);
    ScaleForth(cx, k, x);
    ScaleForth(cy, k, y);
  }

  /** One axis of a forward map undone by the backward one. */
  lemma ScaleBack(c: real, k: real, u: real)
    requires k != 0.0
    ensures ScaleAxis(c, k, ScaleAxis(c, k, u, true), false) == u
  {
    var v := ScaleAxis(c, k, u, true);
    var t := (v - c) / k;
    assert t * k == v - c;
    assert v - c == (u - c) * k;
    MulCancel(t, u - c, k);
  }

  /** One axis of a backward map undone by the forward one. */
  lemma ScaleForth(c: real, k: real, u: real)
    requires k != 0.0
    ensures ScaleAxis(c, k, ScaleAxis(c, k, u, false), true) == u
  {
    var t := (u - c) / k;
    assert t * k == u - c;
  }

  lemma MulCancel(a: real, b: real, k: real)
    requires k != 0.0 && a * k == b * k
    ensures a == b
  {
    assert (a - b) * k == 0.0;
  }

  /** Union, Intersection, Difference and Round map no point. */
  lemma OtherOpsFixPoints(m: MathLib, op: Opcode, cx: real, cy: real, k: real,
                          x: real, y: real, reverse: bool)
    requires op != Rotate && op != Scale
    ensures CoordMapping(m, op, cx, cy, k, x, y, reverse) == (x, y)
  {
  }

  // ---------------------------------------------------------------------
  // The SDF combinators

  /** A point is inside (SDF <= t) a union when it is inside either
      operand, an intersection when inside both, a difference when inside
      the first and not strictly inside the second (-t <= its SDF). */
  lemma CombinatorsInside(m: MathLib, op: Opcode, a: Geometry, b: Geometry, x: real, y: real, t: real)
    requires WellFormed(a) && WellFormed(b) && IsBinary(op)
    ensures var g := MakeBinary(op, a, b);
      op == Union ==> (SDF(m, g, x, y) <= t <==> SDF(m, a, x, y) <= t || SDF(m, b, x, y) <= t)
    ensures var g := MakeBinary(op, a, b);
      op == Intersection ==> (SDF(m, g, x, y) <= t <==> SDF(m, a, x, y) <= t && SDF(m, b, x, y) <= t)
    ensures var g := MakeBinary(op, a, b);
      op == Difference ==> (SDF(m, g, x, y) <= t <==> SDF(m, a, x, y) <= t && -t <= SDF(m, b, x, y))
  {
  }

  /** Rounding by r moves every level set out by r: the rounded shape is
      inside at (x, y) exactly when the operand is within r of it. */
  lemma RoundInside(m: MathLib, a: Geometry, r: real, x: real, y: real)
    requires WellFormed(a)
    ensures SDF(m, MakeUnary(m, Round, a, r), x, y) <= 0.0 <==> SDF(m, a, x, y) <= r
  {
    var g := MakeUnary(m, Round, a, r);
    assert g.Operation? && g.opcode == Round && g.opr1 == a && g.param == r;
    assert SDF(m, g, x, y) == SDF(m, a, x, y) - r;
  }

  /** A Scale node at a mapped point takes the operand's value at the
      original point: as written unchanged, corrected multiplied by |k|. */
  lemma ScaleImage(m: MathLib, g: Geometry, x: real, y: real)
    requires WellFormed(g) && g.Operation? && g.opcode == Scale
    ensures var p := CoordMapping(m, Scale, g.centerX, g.centerY, g.param, x, y, true);
      SDF(m, g, p.0, p.1) == SDF(m, g.opr1, x, y) &&
      SDFWith(m, g, p.0, p.1, true) == Rescaled(SDFWith(m, g.opr1, x, y, true), g.param, true)
  {
    var p := CoordMapping(m, Scale, g.centerX, g.centerY, g.param, x, y, true);
    ScaleMapsInverse(m, g.centerX, g.centerY, g.param, x, y);
    var q := CoordMapping(m, Scale, g.centerX, g.centerY, g.param, p.0, p.1, false);
    assert q == (x, y);
  }

  // ---------------------------------------------------------------------
  // Scaling back

  /** As written, scaling by 2 and then by 1/2 does not give the shape
      back. Each unary node freezes its pivot from its own operand's box:
      the inner node scales the circle about (1, 1), and the outer one
      shrinks about (2, 2), the centre of the scaled box. (0.1, 1.5) is
      inside the circle but outside the result, which reads the circle at
      (-0.4, 1). */
  lemma ScaleRoundTripMovesPivot(m: MathLib)
    requires Lawful(m)
    ensures var g := CircleShape(Circles.Circle(1.5, 1.5, 1.5));
      var t := MakeUnary(m, Scale, MakeUnary(m, Scale, g, 2.0), 0.5);
      SDF(m, g, 0.1, 1.5) <= 0.0 && SDF(m, t, 0.1, 1.5) > 0.0
  {
    var c := Circles.Circle(1.5, 1.5, 1.5);
    var g := CircleShape(c);
    assert DrawArea(m, g) == Rect(0, 0, 3, 3);
    var s := MakeUnary(m, Scale, g, 2.0);
    assert s.centerX == 1.0 && s.centerY == 1.0;
    assert DrawArea(m, s) == Rect(-1, -1, 5, 5);
    var t := MakeUnary(m, Scale, s, 0.5);
    assert t.centerX == 2.0 && t.centerY == 2.0;
    Circles.InsideIff(m, c, 0.1, 1.5);
    Circles.InsideIff(m, c, -0.4, 1.0);
    assert SDF(m, t, 0.1, 1.5) == SDF(m, s, -1.8, 1.0);
    assert SDF(m, s, -1.8, 1.0) == SDF(m, g, -0.4, 1.0);
  }

  /** A Scale node by k about the pivot (cx, cy). */
  function ScaleAbout(a: Geometry, cx: real, cy: real, k: real): (g: Geometry)
    ensures WellFormed(a) && k != 0.0 ==> WellFormed(g)
  {
    Operation(Scale, a, None, cx, cy, k)
  }

  /** The intended round trip: scaling by k and then by 1/k about one and
      the same pivot gives back the operand's SDF at every point, as
      written and with the distance rescaled. */
  lemma ScaleRoundTripSamePivot(m: MathLib, g: Geometry, cx: real, cy: real, k: real, x: real, y: real)
    requires WellFormed(g) && k != 0.0
    ensures var t := ScaleAbout(ScaleAbout(g, cx, cy, k), cx, cy, 1.0 / k);
      SDF(m, t, x, y) == SDF(m, g, x, y) && SDFWith(m, t, x, y, true) == SDFWith(m, g, x, y, true)
  {
    var s := ScaleAbout(g, cx, cy, k);
    var t := ScaleAbout(s, cx, cy, 1.0 / k);
    InverseFactor(cx, k, x);
    InverseFactor(cy, k, y);
    var p := CoordMapping(m, Scale, cx, cy, 1.0 / k, x, y, false);
    assert p == CoordMapping(m, Scale, cx, cy, k, x, y, true);
    ScaleMapsInverse(m, cx, cy, k, x, y);
    assert CoordMapping(m, Scale, cx, cy, k, p.0, p.1, false) == (x, y);
    assert SDFWith(m, t, x, y, false) == SDFWith(m, s, p.0, p.1, false) == SDFWith(m, g, x, y, false);
    var d := SDFWith(m, g, x, y, true);
    assert SDFWith(m, s, p.0, p.1, true) == Rescaled(d, k, true);
    RescaledInverse(d, k);
  }

  /** Rescaling by |k| and then by |1/k| gives the distance back. */
  lemma RescaledInverse(d: real, k: real)
    requires k != 0.0
    ensures Rescaled(Rescaled(d, k, true), 1.0 / k, true) == d
  {
    assert Abs(1.0 / k) == 1.0 / Abs(k);
    assert Abs(k) * (1.0 / Abs(k)) == 1.0;
  }

  /** Dividing the offset by 1/k multiplies it by k. */
  lemma InverseFactor(c: real, k: real, u: real)
    requires k != 0.0
    ensures ScaleAxis(c, 1.0 / k, u, false) == ScaleAxis(c, k, u, true)
  {
    var v := (u - c) / (1.0 / k);
    assert v * (1.0 / k) == u - c;
    assert (u - c) * k * (1.0 / k) == u - c;
    MulCancel(v, (u - c) * k, 1.0 / k);
  }

  // ---------------------------------------------------------------------
  // The box algebra

  /** The union box holds both operand boxes. */
  lemma UnionBoxContains(m: MathLib, a: Geometry, b: Geometry)
    requires WellFormed(a) && WellFormed(b)
    ensures DrawArea(m, a).Within(DrawArea(m, MakeBinary(Union, a, b)))
    ensures DrawArea(m, b).Within(DrawArea(m, MakeBinary(Union, a, b)))
  {
  }

  /** The intersection box lies within both operand boxes... */
  lemma IntersectionBoxWithin(m: MathLib, a: Geometry, b: Geometry)
    requires WellFormed(a) && WellFormed(b)
    ensures DrawArea(m, MakeBinary(Intersection, a, b)).Within(DrawArea(m, a))
    ensures DrawArea(m, MakeBinary(Intersection, a, b)).Within(DrawArea(m, b))
  {
  }

  /** ...and is inverted for two apart circles. */
  lemma IntersectionBoxMayInvert(m: MathLib)
    ensures !DrawArea(m, MakeBinary(Intersection,
      CircleShape(Circles.Circle(0.0, 0.0, 1.0)), CircleShape(Circles.Circle(10.0, 0.0, 1.0)))).Proper()
  {
    var box := DrawArea(m, MakeBinary(Intersection,
      CircleShape(Circles.Circle(0.0, 0.0, 1.0)), CircleShape(Circles.Circle(10.0, 0.0, 1.0))));
    assert Circles.DrawArea(Circles.Circle(0.0, 0.0, 1.0)).right == 1;
    assert Circles.DrawArea(Circles.Circle(10.0, 0.0, 1.0)).left == 9;
  }

  /** The difference box is the first operand's box. */
  lemma DifferenceBox(m: MathLib, a: Geometry, b: Geometry)
    requires WellFormed(a) && WellFormed(b)
    ensures DrawArea(m, MakeBinary(Difference, a, b)) == DrawArea(m, a)
  {
  }

  /** Rounding by r >= 0 grows the box: the operand's box lies within it,
      and it is proper when the operand's is. */
  lemma RoundBoxGrows(m: MathLib, a: Geometry, r: real)
    requires WellFormed(a) && r >= 0.0
    ensures DrawArea(m, a).Within(DrawArea(m, MakeUnary(m, Round, a, r)))
    ensures DrawArea(m, a).Proper() ==> DrawArea(m, MakeUnary(m, Round, a, r)).Proper()
  {
    var g, r1 := MakeUnary(m, Round, a, r), DrawArea(m, a);
    assert g.Operation? && g.opcode == Round && g.opr1 == a && g.param == r;
    assert DrawArea(m, g) == Rect(Floor(r1.left as real - r), Floor(r1.top as real - r),
                                  Ceil(r1.right as real + r), Ceil(r1.bottom as real + r));
  }

  /** For k > 0 the Scale box is proper whenever the operand's box is. */
  lemma ScaleBoxProper(m: MathLib, g: Geometry)
    requires WellFormed(g) && g.Operation? && g.opcode == Scale && g.param > 0.0
    requires DrawArea(m, g.opr1).Proper()
    ensures DrawArea(m, g).Proper()
  {
    var r1, k, cx, cy := DrawArea(m, g.opr1), g.param, g.centerX, g.centerY;
    ScaleAxisMonotone(cx, k, r1.left as real, r1.right as real);
    ScaleAxisMonotone(cy, k, r1.top as real, r1.bottom as real);
    FloorBelowCeil(ScaleAxis(cx, k, r1.left as real, true), ScaleAxis(cx, k, r1.right as real, true));
    FloorBelowCeil(ScaleAxis(cy, k, r1.top as real, true), ScaleAxis(cy, k, r1.bottom as real, true));
  }

  /** The forward Scale map keeps order for k > 0. */
  lemma ScaleAxisMonotone(c: real, k: real, u: real, v: real)
    requires k > 0.0 && u <= v
    ensures ScaleAxis(c, k, u, true) <= ScaleAxis(c, k, v, true)
  {
    ScaleOrder(u - c, v - c, k);
  }

  // ---------------------------------------------------------------------
  // Soundness of the drawing box

  /** The trees whose box holds every point at SDF <= s, grown by s >= 0:
      no Rotate (its box goes through trigonometry), squircles with an even
      exponent, rectangles whose square fits their box, a Round whose
      operand is sound at s + r, and a Scale by k > 0 whose operand is sound
      at s (at s/k when rescaled). As written, a Scale also needs s = 0 or
      k <= 1: its distances are not multiplied by k. */
  predicate Sound(g: Geometry, s: real, rescale: bool)
  {
    s >= 0.0 &&
    match g
    case CircleShape(_) => true
    case SquircleShape(q) => Squircles.EvenOrder(q)
    case RectangleShape(q) => Rectangles.Fits(q)
    case CapsuleShape(_) => true
    case Operation(op, a, b, _, _, k) =>
      match op
      case Union => b.Some? && Sound(a, s, rescale) && Sound(b.value, s, rescale)
      case Intersection => b.Some? && Sound(a, s, rescale) && Sound(b.value, s, rescale)
      case Difference => Sound(a, s, rescale)
      case Rotate => false
      case Scale =>
        k > 0.0 && (rescale || s == 0.0 || k <= 1.0) &&
        Sound(a, if rescale then s / k else s, rescale)
      case Round => Sound(a, s + k, rescale)
  }

  /** Every point at SDF <= s of a sound tree lies in its box grown by s.
      With s = 0: the renderer, which visits only the box, misses no
      inside point. */
  lemma {:induction false} BoxCovers(m: MathLib, g: Geometry, s: real, x: real, y: real, rescale: bool)
    requires Lawful(m) && WellFormed(g) && Sound(g, s, rescale)
    requires SDFWith(m, g, x, y, rescale) <= s
    ensures DrawArea(m, g).Covers(s, x, y)
    decreases g, 1
  {
    match g
    case CircleShape(c) => Circles.BoxCovers(m, c, s, x, y);
    case SquircleShape(q) => Squircles.BoxCovers(m, q, s, x, y);
    case RectangleShape(q) => Rectangles.BoxCovers(m, q, s, x, y);
    case CapsuleShape(c) => Capsules.BoxCovers(m, c, s, x, y);
    case Operation(_, _, _, _, _, _) => OperationCovers(m, g, s, x, y, rescale);
  }

  /** The induction step of `BoxCovers`, one operation at a time. */
  lemma {:induction false} OperationCovers(m: MathLib, g: Geometry, s: real, x: real, y: real, rescale: bool)
    requires Lawful(m) && WellFormed(g) && Sound(g, s, rescale) && g.Operation?
    requires SDFWith(m, g, x, y, rescale) <= s
    ensures DrawArea(m, g).Covers(s, x, y)
    decreases g, 0
  {
    var a, k := g.opr1, g.param;
    match g.opcode
    case Union =>
      if SDFWith(m, a, x, y, rescale) <= s {
        BoxCovers(m, a, s, x, y, rescale);
      } else {
        BoxCovers(m, g.opr2.value, s, x, y, rescale);
      }
      UnionCovers(m, g, s, x, y);
    case Intersection =>
      BoxCovers(m, a, s, x, y, rescale);
      BoxCovers(m, g.opr2.value, s, x, y, rescale);
    case Difference =>
      BoxCovers(m, a, s, x, y, rescale);
    case Rotate =>
      assert false;
    case Scale =>
      var p := CoordMapping(m, Scale, g.centerX, g.centerY, k, x, y, false);
      if rescale {
        RescaledBound(SDFWith(m, a, p.0, p.1, rescale), k, s);
      }
      BoxCovers(m, a, if rescale then s / k else s, p.0, p.1, rescale);
      ScaleCovers(m, g, s, x, y, rescale);
    case Round =>
      BoxCovers(m, a, s + k, x, y, rescale);
      RoundCovers(m, g, s, x, y);
  }

  /** The union step: a point in either operand box is in the union box. */
  lemma UnionCovers(m: MathLib, g: Geometry, s: real, x: real, y: real)
    requires WellFormed(g) && g.Operation? && g.opcode == Union
    requires DrawArea(m, g.opr1).Covers(s, x, y) || DrawArea(m, g.opr2.value).Covers(s, x, y)
    ensures DrawArea(m, g).Covers(s, x, y)
  {
  }

  /** The Scale step: the operand box grown by sa covers the mapped-back
      point, with sa*k <= s. */
  lemma ScaleCovers(m: MathLib, g: Geometry, s: real, x: real, y: real, rescale: bool)
    requires WellFormed(g) && g.Operation? && g.opcode == Scale
    requires s >= 0.0 && g.param > 0.0 && (rescale || s == 0.0 || g.param <= 1.0)
    requires var p := CoordMapping(m, Scale, g.centerX, g.centerY, g.param, x, y, false);
      DrawArea(m, g.opr1).Covers(if rescale then s / g.param else s, p.0, p.1)
    ensures DrawArea(m, g).Covers(s, x, y)
  {
    var k, cx, cy := g.param, g.centerX, g.centerY;
    var p := CoordMapping(m, Scale, cx, cy, k, x, y, false);
    var sa := if rescale then s / k else s;
    ScaleSlack(s, k, rescale, sa);
    ScaleForth(cx, k, x);
    ScaleForth(cy, k, y);
    var r1 := DrawArea(m, g.opr1);
    assert r1.Covers(sa, p.0, p.1);
    assert r1.left as real - sa <= p.0 <= r1.right as real + sa;
    assert r1.top as real - sa <= p.1 <= r1.bottom as real + sa;
    ScaleAxisCover(cx, k, r1.left as real, r1.right as real, p.0, sa, s);
    ScaleAxisCover(cy, k, r1.top as real, r1.bottom as real, p.1, sa, s);
    var lx, ty := ScaleAxis(cx, k, r1.left as real, true), ScaleAxis(cy, k, r1.top as real, true);
    var rx, bt := ScaleAxis(cx, k, r1.right as real, true), ScaleAxis(cy, k, r1.bottom as real, true);
    assert CoordMapping(m, Scale, cx, cy, k, r1.left as real, r1.top as real, true) == (lx, ty);
    assert CoordMapping(m, Scale, cx, cy, k, r1.right as real, r1.bottom as real, true) == (rx, bt);
    assert DrawArea(m, g) == Rect(Floor(lx), Floor(ty), Ceil(rx), Ceil(bt));
    assert ScaleAxis(cx, k, p.0, true) == x && ScaleAxis(cy, k, p.1, true) == y;
  }

  /** The Round step: the operand box grown bt s + r lies in the Round box
      grown by s. */
  lemma RoundCovers(m: MathLib, g: Geometry, s: real, x: real, y: real)
    requires WellFormed(g) && g.Operation? && g.opcode == Round
    requires DrawArea(m, g.opr1).Covers(s + g.param, x, y)
    ensures DrawArea(m, g).Covers(s, x, y)
  {
  }

  /** A rescaled distance within s is an operand distance within s/k. */
  lemma RescaledBound(d: real, k: real, s: real)
    requires k > 0.0 && Rescaled(d, k, true) <= s
    ensures d <= s / k
  {
    ScaleOrder(d, s / k, k);
    DivMul(s, k);
  }

  /** The slack the operand is sound at, multiplied by k, is at most s. */
  lemma ScaleSlack(s: real, k: real, rescale: bool, sa: real)
    requires s >= 0.0 && k > 0.0 && (rescale || s == 0.0 || k <= 1.0)
    requires sa == if rescale then s / k else s
    ensures sa >= 0.0 && sa * k <= s
  {
    if rescale {
      DivMul(s, k);
      if sa < 0.0 {
        MulPos(-sa, k);
      }
    } else if s > 0.0 {
      MulNonneg(s, 1.0 - k);
    }
  }

  /** An operand point within [lo - sa, hi + sa] maps forward into the
      mapped range grown by s, when sa*k <= s. */
  lemma ScaleAxisCover(c: real, k: real, lo: real, hi: real, u: real, sa: real, s: real)
    requires k > 0.0 && sa >= 0.0 && sa * k <= s
    requires lo - sa <= u <= hi + sa
    ensures ScaleAxis(c, k, lo, true) - s <= ScaleAxis(c, k, u, true) <= ScaleAxis(c, k, hi, true) + s
  {
    ScaleOrder(lo - sa - c, u - c, k);
    ScaleOrder(u - c, hi + sa - c, k);
    assert (lo - sa - c) * k == (lo - c) * k - sa * k;
    assert (hi + sa - c) * k == (hi - c) * k + sa * k;
  }

  // ---------------------------------------------------------------------
  // The Scale finding

  /** A unit circle scaled by 2 about its centre, then rounded by 1: a
      disc of radius 3 under the evident intent. */
  function RoundedScaledCircle(m: MathLib): Geometry
  {
    MakeUnary(m, Round, MakeUnary(m, Scale, CircleShape(Circles.Circle(0.0, 0.0, 1.0)), 2.0), 1.0)
  }

  /** Its box as written is [-3, 3] x [-3, 3]. */
  lemma RoundedScaledCircleBox(m: MathLib)
    ensures WellFormed(RoundedScaledCircle(m))
    ensures DrawArea(m, RoundedScaledCircle(m)) == Rect(-3, -3, 3, 3)
  {
    var c := CircleShape(Circles.Circle(0.0, 0.0, 1.0));
    assert DrawArea(m, c) == Rect(-1, -1, 1, 1);
    var sc := MakeUnary(m, Scale, c, 2.0);
    assert sc.centerX == 0.0 && sc.centerY == 0.0;
    assert ScaleAxis(0.0, 2.0, -1.0, true) == -2.0 && ScaleAxis(0.0, 2.0, 1.0, true) == 2.0;
    assert DrawArea(m, sc) == Rect(-2, -2, 2, 2);
  }

  /** As written, Scale does not multiply the operand's distance by 2, so
      the point (4, 0) is on the rounded shape's edge (SDF 0) while the box
      ends at x = 3: the renderer never visits it. */
  lemma RoundedScaleEscapesBox(m: MathLib)
    requires Lawful(m)
    ensures SDF(m, RoundedScaledCircle(m), 4.0, 0.0) == 0.0
    ensures !DrawArea(m, RoundedScaledCircle(m)).Covers(0.0, 4.0, 0.0)
  {
    RoundedScaledCircleBox(m);
    NormOnAxis(m, 2.0);
    var c := CircleShape(Circles.Circle(0.0, 0.0, 1.0));
    var sc := MakeUnary(m, Scale, c, 2.0);
    assert sc.centerX == 0.0 && sc.centerY == 0.0 && sc.param == 2.0;
    assert CoordMapping(m, Scale, 0.0, 0.0, 2.0, 4.0, 0.0, false) == (2.0, 0.0);
    assert SDFWith(m, c, 2.0, 0.0, false) == 1.0;
    assert SDF(m, sc, 4.0, 0.0) == 1.0;
  }

  /** Rescaled, the same point is at distance 1 outside, and every point at
      SDF <= 0 lies in the box: the tree is sound for the corrected SDF. */
  lemma RoundedScaleRescaledSound(m: MathLib, x: real, y: real)
    requires Lawful(m)
    ensures SDFWith(m, RoundedScaledCircle(m), 4.0, 0.0, true) == 1.0
    ensures SDFWith(m, RoundedScaledCircle(m), x, y, true) <= 0.0 ==>
      DrawArea(m, RoundedScaledCircle(m)).Covers(0.0, x, y)
  {
    RoundedScaledCircleBox(m);
    NormOnAxis(m, 2.0);
    var g := RoundedScaledCircle(m);
    var sc := MakeUnary(m, Scale, CircleShape(Circles.Circle(0.0, 0.0, 1.0)), 2.0);
    assert CoordMapping(m, Scale, 0.0, 0.0, 2.0, 4.0, 0.0, false) == (2.0, 0.0);
    assert SDFWith(m, sc, 4.0, 0.0, true) == 2.0;
    assert Sound(g, 0.0, true) by {
      assert Sound(sc, 1.0, true);
    }
    if SDFWith(m, g, x, y, true) <= 0.0 {
      BoxCovers(m, g, 0.0, x, y, true);
    }
  }
}
