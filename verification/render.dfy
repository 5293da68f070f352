/** `cvf::render::Render` (src/render/render.h): the state every renderer
    shares (the target buffer, its size and two switches), the byte blend
    and the per-pixel coverage of a shape. */
module Renders {
  import opened Numeric
  import opened MathUtil
  import Operations

  /** `AlphaBlendX`: x*(1 - alpha) + y*alpha, truncated toward zero and
      stored in a byte. For alpha in [0, 1] the value is already a byte;
      outside that range the float-to-byte conversion of the source is
      undefined and the model wraps it modulo 256. */
  function AlphaBlend(x: Byte, y: Byte, alpha: real): (r: Byte)
    ensures 0.0 <= alpha <= 1.0 ==> Min(x, y) <= r <= Max(x, y)
    ensures 0.0 <= alpha <= 1.0 ==> r == Trunc(Lerp(x as real, y as real, alpha))
    ensures alpha == 0.0 ==> r == x
    ensures alpha == 1.0 ==> r == y
  {
    var v := Lerp(x as real, y as real, alpha);
    if 0.0 <= alpha <= 1.0 then
      BlendInRange(x, y, alpha);
      Trunc(v)
    else
      Trunc(v) % 256
  }

  /** The blend of two bytes with alpha in [0, 1] truncates to a value
      between them. */
  lemma BlendInRange(x: Byte, y: Byte, alpha: real)
    requires 0.0 <= alpha <= 1.0
    ensures Min(x, y) <= Trunc(Lerp(x as real, y as real, alpha)) <= Max(x, y)
    ensures alpha == 0.0 ==> Trunc(Lerp(x as real, y as real, alpha)) == x
    ensures alpha == 1.0 ==> Trunc(Lerp(x as real, y as real, alpha)) == y
  {
    LerpBetween(x as real, y as real, alpha);
  }

  /** `GetPixelVisible` applied to the shape's signed distance: with
      anti-aliasing the distance is mapped from [-0.5, 0.5] onto [1, 0];
      without, the pixel is fully covered inside the shape and not at all
      outside. Either way the coverage is in [0, 1]. */
  function Coverage(sdf: real, antiAliasing: bool): (v: real)
    ensures 0.0 <= v <= 1.0
    ensures !antiAliasing ==> (v == 1.0 <==> sdf <= 0.0) && (v == 0.0 <==> sdf > 0.0)
  {
    if antiAliasing then
      LinearMappingBetween(sdf, -0.5, 0.5, 1.0, 0.0);
      LinearMapping(sdf, -0.5, 0.5, 1.0, 0.0)
    else if sdf <= 0.0 then 1.0 else 0.0
  }

  /** With anti-aliasing a pixel half a unit or more inside is fully
      covered, one half a unit or more outside not at all, one on the edge
      half covered, and coverage never grows as the distance grows. */
  lemma AntiAliasedCoverage(sdf: real, other: real)
    ensures sdf <= -0.5 ==> Coverage(sdf, true) == 1.0
    ensures sdf >= 0.5 ==> Coverage(sdf, true) == 0.0
    ensures Coverage(0.0, true) == 0.5
    ensures sdf <= other ==> Coverage(other, true) <= Coverage(sdf, true)
  {
    if sdf <= other && -0.5 <= sdf && other <= 0.5 {
      var t, u := sdf + 0.5, other + 0.5;
      assert LinearMapping(sdf, -0.5, 0.5, 1.0, 0.0) == 1.0 - t;
      assert LinearMapping(other, -0.5, 0.5, 1.0, 0.0) == 1.0 - u;
    }
  }

  /** `UpdateProgress`'s two percentages: the current pass and the whole
      redraw. */
  datatype Progress = Progress(current: real, total: real)

  /** The percent arithmetic of `UpdateProgress` (src/render/basic.h):
      (y*w + x)/(w*h) for the current pass; the background is the first of
      1 + shapeCount passes and shape i the (i+2)-th; an index past the
      last shape reports completion. */
  function UpdateProgress(shapeIndex: int, x: int, y: int, w: int, h: int, shapeCount: nat): (p: Progress)
    requires w * h != 0
    ensures shapeIndex >= shapeCount ==> p == Progress(1.0, 1.0)
    ensures shapeIndex < 0 ==> p.total * (1 + shapeCount) as real == p.current
  {
    var percent := (y * w + x) as real / (w * h) as real;
    if shapeIndex < 0 then
      Progress(percent, percent / (1 + shapeCount) as real)
    else if shapeIndex < shapeCount then
      Progress(percent, ((1 + shapeIndex) as real + percent) / (1 + shapeCount) as real)
    else
      Progress(1.0, 1.0)
  }

  /** A pixel of a w-by-h grid lies before position w*h in row-major
      order. */
  lemma RowMajorBounds(w: int, h: int, x: int, y: int)
    requires 0 <= x < w && 0 <= y < h
    ensures 0 <= y * w + x < w * h
  {
    MulNonneg(y as real, w as real);
    assert (y + 1) * w <= h * w by {
      MulNonneg((h - y - 1) as real, w as real);
    }
  }

  /** During the background pass both percentages stay in [0, 1). */
  lemma BackgroundProgressBounds(x: int, y: int, w: int, h: int, shapeCount: nat)
    requires 0 <= x < w && 0 <= y < h
    ensures var p := UpdateProgress(-1, x, y, w, h, shapeCount);
      0.0 <= p.current < 1.0 && 0.0 <= p.total < 1.0
  {
    RowMajorBounds(w, h, x, y);
    var n, d := (y * w + x) as real, (w * h) as real;
    FractionBelowOne(n, d);
    var c := (1 + shapeCount) as real;
    FractionBelowOne(n / d, c);
  }

  /** A shape pass passes absolute pixel coordinates with the size of the
      clipped area: a one-pixel area at x = 5 reports 500% for the current
      shape and 300% for the whole redraw of a single shape. */
  lemma ShapeProgressOverflows()
    ensures UpdateProgress(0, 5, 0, 1, 1, 1) == Progress(5.0, 3.0)
  {
  }

  /** The evident intent: the position relative to the clipped area's
      top-left corner. */
  function ShapeProgressIntended(shapeIndex: nat, x: int, y: int,
                                 left: int, top: int, w: int, h: int, shapeCount: nat): (p: Progress)
    requires w * h != 0 && shapeIndex < shapeCount
  {
    UpdateProgress(shapeIndex, x - left, y - top, w, h, shapeCount)
  }

  /** With it, a pixel of the clipped area reports a current percentage in
      [0, 1), and the total stays within shape i's share of [0, 1). */
  lemma ShapeProgressIntendedBounds(shapeIndex: nat, x: int, y: int,
                                    left: int, top: int, w: int, h: int, shapeCount: nat)
    requires shapeIndex < shapeCount
    requires left <= x < left + w && top <= y < top + h
    ensures var p := ShapeProgressIntended(shapeIndex, x, y, left, top, w, h, shapeCount);
      0.0 <= p.current < 1.0 &&
      (1 + shapeIndex) as real / (1 + shapeCount) as real <= p.total < (2 + shapeIndex) as real / (1 + shapeCount) as real &&
      p.total < 1.0
  {
    RowMajorBounds(w, h, x - left, y - top);
    var n, d := ((y - top) * w + (x - left)) as real, (w * h) as real;
    FractionBelowOne(n, d);
    ShareBounds((1 + shapeIndex) as real, n / d, (1 + shapeCount) as real);
  }

  /** 0 <= n < d gives a fraction n/d in [0, 1). */
  lemma FractionBelowOne(n: real, d: real)
    requires 0.0 <= n < d
    ensures 0.0 <= n / d < 1.0
  {
    MulBoundInvClosed(n, d);
    DivMul(n, d);
    if n / d >= 1.0 {
      ScaleOrder(1.0, n / d, d);
    }
  }

  /** Adding a fraction q in [0, 1) to pass i of c keeps the total within
      that pass's share [i/c, (i+1)/c), which ends at or before 1. */
  lemma ShareBounds(i: real, q: real, c: real)
    requires 0.0 <= q < 1.0 && 1.0 <= i && i + 1.0 <= c
    ensures i / c <= (i + q) / c < (i + 1.0) / c <= 1.0
  {
    var a, t, u := i / c, (i + q) / c, (i + 1.0) / c;
    DivMul(i, c);
    DivMul(i + q, c);
    DivMul(i + 1.0, c);
    assert a * c == i && t * c == i + q && u * c == i + 1.0;
    ScaleOrder(a, t, c);
    ScaleOrder(t, u, c);
    ScaleOrder(u, 1.0, c);
  }

  /** The state of a renderer: the caller's pixel buffer (row-major, three
      bytes per pixel), its size and the two switches. */
  class Render {
    var buffer: array?<Byte>
    var width: int
    var height: int
    var antiAliasing: bool
    var showProgress: bool

    /** A new renderer has no buffer, size 0x0 and both switches off. */
    constructor ()
      ensures buffer == null && width == 0 && height == 0
      ensures !antiAliasing && !showProgress
    {
      buffer := null;
      width, height := 0, 0;
      antiAliasing, showProgress := false, false;
    }

    /** `ReadBuffer`: adopt the caller's buffer and size as given. */
    method ReadBuffer(b: array<Byte>, w: int, h: int)
      modifies this
      ensures buffer == b && width == w && height == h
      ensures antiAliasing == old(antiAliasing) && showProgress == old(showProgress)
    {
      buffer := b;
      width := w;
      height := h;
    }

    /** `set_show_progress`. */
    method SetShowProgress(on: bool)
      modifies this
      ensures showProgress == on
      ensures buffer == old(buffer) && width == old(width) && height == old(height)
      ensures antiAliasing == old(antiAliasing)
    {
      showProgress := on;
    }

    /** `set_anti_aliasing`. */
    method SetAntiAliasing(on: bool)
      modifies this
      ensures antiAliasing == on
      ensures buffer == old(buffer) && width == old(width) && height == old(height)
      ensures showProgress == old(showProgress)
    {
      antiAliasing := on;
    }

    /** `GetPixelVisible(x, y, shape)`. */
    function PixelVisible(m: MathLib, g: Operations.Geometry, x: real, y: real): (v: real)
      reads this
      requires Operations.WellFormed(g)
      ensures 0.0 <= v <= 1.0
      ensures !antiAliasing ==> (v == 1.0 <==> Operations.SDF(m, g, x, y) <= 0.0)
    {
      Coverage(Operations.SDF(m, g, x, y), antiAliasing)
    }

    /** `AlphaBlendX` on byte i of the buffer: that byte becomes the blend
        and every other byte is kept. */
    method AlphaBlendX(i: int, y: Byte, alpha: real)
      requires buffer != null && 0 <= i < buffer.Length
      modifies buffer
      ensures buffer[..] == old(buffer[..])[i := AlphaBlend(old(buffer[i]), y, alpha)]
    {
      buffer[i] := AlphaBlend(buffer[i], y, alpha);
    }
  }
}
