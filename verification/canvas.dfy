/** `cvf::Canvas` (src/canvas.h): the older redraw path. It owns its pixel
    buffer (a growable byte vector, three bytes per pixel, row-major), a
    background colour, the anti-aliasing switch and the list of shapes in
    paint order. Its colours are the older solid `cvf::Color` struct. */
module Canvases {
  import opened Numeric
  import opened MathUtil
  import opened Rects
  import SolidColors
  import Colors
  import LegacyColors
  import Operations
  import opened Renders
  import opened Shapes
  import opened BasicRenders

  /** A shape as the canvas reads it: its geometry and its solid colour. */
  datatype CanvasShape = CanvasShape(geometry: Operations.Geometry, color: LegacyColors.Color)

  /** Every geometry of the list has a defined SDF and box. */
  predicate AllWellFormed(shapes: seq<CanvasShape>)
  {
    forall k :: 0 <= k < |shapes| ==> Operations.WellFormed(shapes[k].geometry)
  }

  /** Channel k of a legacy colour. */
  function LegacyChannel(c: LegacyColors.Color, k: int): Byte
  {
    Channel(LegacyColors.ToSolid(c), k)
  }

  /** `GetPixel(x, y, shape)`: the colour of the shape at the signed
      distance of pixel (x, y). */
  function GetPixel(m: MathLib, antiAliasing: bool, s: CanvasShape, x: int, y: int): LegacyColors.Color
    requires Operations.WellFormed(s.geometry)
  {
    PixelColor(antiAliasing, s.color, Operations.SDF(m, s.geometry, x as real, y as real))
  }

  /** The colour `GetPixel` returns at signed distance `sdf`: with
      anti-aliasing, colour c rebuilt from its packed RGB with alpha scaled
      by the coverage that `LinearMapping` gives the distance; without, c
      itself inside the shape and the transparent default outside. */
  function PixelColor(antiAliasing: bool, c: LegacyColors.Color, sdf: real): LegacyColors.Color
  {
    if antiAliasing then
      LegacyColors.FromRGBA(c.GetRGB(), c.alpha * LinearMapping(sdf, -0.5, 0.5, 1.0, 0.0))
    else if sdf <= 0.0 then c
    else LegacyColors.Default()
  }

  /** With anti-aliasing the channels are the shape's and, for an alpha in
      [0, 1], the alpha is the shape's alpha times the coverage. */
  lemma AntiAliasedPixel(c: LegacyColors.Color, sdf: real)
    ensures var p := PixelColor(true, c, sdf);
      p.red == c.red && p.green == c.green && p.blue == c.blue &&
      (0.0 <= c.alpha <= 1.0 ==> p.alpha == c.alpha * Coverage(sdf, true))
  {
    var cov := Coverage(sdf, true);
    assert cov == LinearMapping(sdf, -0.5, 0.5, 1.0, 0.0);
    Recolored(c, cov);
  }

  /** `Color(c.GetRGB(), c.alpha * cov)` keeps the channels of c and, for
      alpha and cov in [0, 1], stores their product as alpha. */
  lemma Recolored(c: LegacyColors.Color, cov: real)
    requires 0.0 <= cov <= 1.0
    ensures var p := LegacyColors.FromRGBA(c.GetRGB(), c.alpha * cov);
      p.red == c.red && p.green == c.green && p.blue == c.blue &&
      (0.0 <= c.alpha <= 1.0 ==> p.alpha == c.alpha * cov)
  {
    var a := c.alpha * cov;
    UnpackPack(c.red, c.green, c.blue);
    if 0.0 <= c.alpha <= 1.0 {
      UnitProduct(c.alpha, cov);
      StoredAlpha(c.GetRGB(), a);
    }
  }

  /** An alpha in [0, 1] is stored unchanged. */
  lemma StoredAlpha(rgb: U32, a: real)
    requires 0.0 <= a <= 1.0
    ensures LegacyColors.FromRGBA(rgb, a).alpha == a
  {
    LegacyColors.AlphaFacts(LegacyColors.Default(), rgb, a);
  }

  /** Without anti-aliasing, the pixel is visible exactly when it is inside
      the shape and the shape's colour is visible. */
  lemma AliasedPixel(c: LegacyColors.Color, sdf: real)
    ensures PixelColor(false, c, sdf).ToBool() <==> sdf <= 0.0 && c.ToBool()
  {
    LegacyColors.AlphaFacts(c, 0, 0.0);
    LegacyColors.AlphaFacts(LegacyColors.Default(), 0, 0.0);
  }

  /** The product of two values in [0, 1] is in [0, 1]. */
  lemma UnitProduct(a: real, b: real)
    requires 0.0 <= a <= 1.0 && 0.0 <= b <= 1.0
    ensures 0.0 <= a * b <= 1.0
  {
    MulNonneg(a, b);
    if a > 0.0 {
      ScaleOrder(b, 1.0, a);
      assert a * b == b * a <= 1.0 * a == a;
    }
  }

  /** Byte k (old value v) blended with the pixel colour `p`: only a
      visible colour blends, with its own alpha. */
  function CanvasByte(v: Byte, p: LegacyColors.Color, k: int): Byte
  {
    if p.ToBool() then AlphaBlend(v, LegacyChannel(p, k), p.alpha) else v
  }

  /** The buffer after the background pass: every byte of the w-by-h image
      holds its channel of the background; any byte past the image is
      kept. */
  function Fill(back: LegacyColors.Color, w: int, h: int, buf: seq<Byte>): (r: seq<Byte>)
    ensures |r| == |buf|
  {
    seq(|buf|, i requires 0 <= i < |buf| => if InCanvas(i, w, h) then LegacyChannel(back, i % 3) else buf[i])
  }

  /** The buffer after one shape is drawn: a byte of a pixel that is both
      on the image and in the shape's box is blended with `GetPixel`; every
      other byte is kept. */
  function ShapePaint(m: MathLib, antiAliasing: bool, s: CanvasShape, w: int, h: int, buf: seq<Byte>): (r: seq<Byte>)
    requires Operations.WellFormed(s.geometry)
    ensures |r| == |buf|
  {
    var area := Operations.DrawArea(m, s.geometry);
    seq(|buf|, i requires 0 <= i < |buf| =>
      if InBox(i, w, h, area) then CanvasByte(buf[i], GetPixel(m, antiAliasing, s, PixelX(i, w), PixelY(i, w)), i % 3)
      else buf[i])
  }

  /** The buffer after the shapes are drawn, the first one first. */
  function PaintShapes(m: MathLib, antiAliasing: bool, shapes: seq<CanvasShape>, w: int, h: int, buf: seq<Byte>): (r: seq<Byte>)
    requires AllWellFormed(shapes)
    ensures |r| == |buf|
    decreases |shapes|
  {
    if shapes == [] then buf
    else
      var n := |shapes| - 1;
      ShapePaint(m, antiAliasing, shapes[n], w, h, PaintShapes(m, antiAliasing, shapes[..n], w, h, buf))
  }

  /** The buffer after `Redraw`: the background, then every shape. */
  function Redrawn(m: MathLib, antiAliasing: bool, back: LegacyColors.Color, shapes: seq<CanvasShape>,
                   w: int, h: int, buf: seq<Byte>): (r: seq<Byte>)
    requires AllWellFormed(shapes)
    ensures |r| == |buf|
  {
    PaintShapes(m, antiAliasing, shapes, w, h, Fill(back, w, h, buf))
  }

  /** Every image pixel takes the background's colour... */
  lemma FillByte(back: LegacyColors.Color, w: int, h: int, buf: seq<Byte>, x: int, y: int, k: int)
    requires 0 <= x < w && 0 <= y < h && 0 <= k < 3 && (y * w + x) * 3 + k < |buf|
    ensures Fill(back, w, h, buf)[(y * w + x) * 3 + k] == LegacyChannel(back, k)
  {
    RowMajorBounds(w, h, x, y);
    PixelBytes(w, x, y, k);
  }

  /** ...and a byte past the image keeps its value. */
  lemma FillKeepsTail(back: LegacyColors.Color, w: int, h: int, buf: seq<Byte>, j: int)
    requires 0 <= w * h * 3 <= j < |buf|
    ensures Fill(back, w, h, buf)[j] == buf[j]
  {
    if 0 < w {
      CanvasBytes(w, h, j);
    }
  }

  /** A redraw forgets what the buffer held before: when the buffer is
      exactly the image, two buffers of that size redraw to the same
      pixels. */
  lemma RedrawForgets(m: MathLib, antiAliasing: bool, back: LegacyColors.Color, shapes: seq<CanvasShape>,
                      w: int, h: int, buf1: seq<Byte>, buf2: seq<Byte>)
    requires AllWellFormed(shapes) && 0 <= w && 0 <= h
    requires |buf1| == |buf2| == w * h * 3
    ensures Redrawn(m, antiAliasing, back, shapes, w, h, buf1) == Redrawn(m, antiAliasing, back, shapes, w, h, buf2)
  {
    var f1, f2 := Fill(back, w, h, buf1), Fill(back, w, h, buf2);
    forall i | 0 <= i < |buf1|
      ensures f1[i] == f2[i]
    {
      CanvasBytes(w, h, i);
    }
    assert f1 == f2;
  }

  /** A shape leaves every pixel outside its box, or off the image, as it
      was, and without anti-aliasing every pixel outside the shape too. */
  lemma ShapeKeeps(m: MathLib, antiAliasing: bool, s: CanvasShape, w: int, h: int, buf: seq<Byte>, i: int)
    requires Operations.WellFormed(s.geometry) && 0 <= i < |buf|
    ensures !InBox(i, w, h, Operations.DrawArea(m, s.geometry)) ==> ShapePaint(m, antiAliasing, s, w, h, buf)[i] == buf[i]
    ensures (InCanvas(i, w, h) && !antiAliasing &&
             Operations.SDF(m, s.geometry, PixelX(i, w) as real, PixelY(i, w) as real) > 0.0) ==>
      ShapePaint(m, antiAliasing, s, w, h, buf)[i] == buf[i]
  {
    if InCanvas(i, w, h) {
      AliasedPixel(s.color, Operations.SDF(m, s.geometry, PixelX(i, w) as real, PixelY(i, w) as real));
    }
  }

  /** An opaque colour (alpha 1) without anti-aliasing paints its colour
      over every image pixel of its box that lies inside the shape. */
  lemma OpaqueCanvasShape(m: MathLib, s: CanvasShape, w: int, h: int, buf: seq<Byte>, x: int, y: int, k: int)
    requires Operations.WellFormed(s.geometry) && s.color.alpha == 1.0
    requires 0 <= x < w && 0 <= y < h && 0 <= k < 3 && 0 <= (y * w + x) * 3 + k < |buf|
    requires InRect(Operations.DrawArea(m, s.geometry), x, y)
    requires Operations.SDF(m, s.geometry, x as real, y as real) <= 0.0
    ensures ShapePaint(m, false, s, w, h, buf)[(y * w + x) * 3 + k] == LegacyChannel(s.color, k)
  {
    RowMajorBounds(w, h, x, y);
    PixelBytes(w, x, y, k);
    LegacyColors.AlphaFacts(s.color, 0, 0.0);
    assert GetPixel(m, false, s, x, y) == s.color;
  }

  /** The two redraw paths agree on a solid colour with alpha in [0, 1]:
      the byte `Canvas::Redraw` writes at a pixel is the one `DrawShape`
      of the basic renderer writes for the same shape filled with the same
      colour. */
  lemma RedrawPathsAgree(m: MathLib, antiAliasing: bool, s: CanvasShape, v: Byte, x: int, y: int, k: int)
    requires Operations.WellFormed(s.geometry) && 0.0 <= s.color.alpha <= 1.0
    ensures var fill := LegacyColors.ToSolid(s.color);
      var basic := ShapeValue(s.geometry, Colors.FromSolid(fill));
      CanvasByte(v, GetPixel(m, antiAliasing, s, x, y), k) ==
      PaintByte(v, fill, BlendFactor(PixelCoverage(m, basic, antiAliasing, x, y), fill), k)
  {
    var fill := LegacyColors.ToSolid(s.color);
    var basic := ShapeValue(s.geometry, Colors.FromSolid(fill));
    var sdf := Operations.SDF(m, s.geometry, x as real, y as real);
    assert PixelCoverage(m, basic, antiAliasing, x, y) == Coverage(sdf, antiAliasing);
    ColorPathsAgree(antiAliasing, s.color, sdf, v, k);
  }

  /** The same agreement at a given signed distance. */
  lemma ColorPathsAgree(antiAliasing: bool, c: LegacyColors.Color, sdf: real, v: Byte, k: int)
    requires 0.0 <= c.alpha <= 1.0
    ensures var fill := LegacyColors.ToSolid(c);
      CanvasByte(v, PixelColor(antiAliasing, c, sdf), k) ==
      PaintByte(v, fill, BlendFactor(Coverage(sdf, antiAliasing), fill), k)
  {
    var fill := LegacyColors.ToSolid(c);
    var cov := Coverage(sdf, antiAliasing);
    var p := PixelColor(antiAliasing, c, sdf);
    LegacyColors.AlphaFacts(p, 0, 0.0);
    if antiAliasing {
      AntiAliasedPixel(c, sdf);
      assert p.alpha == BlendFactor(cov, fill);
      assert LegacyChannel(p, k) == Channel(fill, k);
    } else if sdf <= 0.0 {
      assert p == c && cov == 1.0;
    } else {
      assert p == LegacyColors.Default() && cov == 0.0;
    }
  }

  /** `vector::resize(n)`: the first n bytes are kept and any new byte is
      zero. */
  function Resized(buf: seq<Byte>, n: nat): (r: seq<Byte>)
    ensures |r| == n
    ensures forall i :: 0 <= i < n && i < |buf| ==> r[i] == buf[i]
    ensures forall i :: |buf| <= i < n ==> r[i] == 0
  {
    if n <= |buf| then buf[..n] else buf + seq(n - |buf|, _ => 0)
  }

  /** `buf` after pixel o is blended with colour `p`: its three bytes when
      `p` is visible, nothing otherwise. */
  function PixelBlended(buf: seq<Byte>, o: int, p: LegacyColors.Color): (r: seq<Byte>)
    requires 0 <= o && o + 3 <= |buf|
    ensures |r| == |buf|
    ensures forall i :: 0 <= i < |buf| && !(o <= i < o + 3) ==> r[i] == buf[i]
  {
    if p.ToBool() then
      buf[o := AlphaBlend(buf[o], p.red, p.alpha)]
        [o + 1 := AlphaBlend(buf[o + 1], p.green, p.alpha)]
        [o + 2 := AlphaBlend(buf[o + 2], p.blue, p.alpha)]
    else buf
  }

  /** Blending pixel (x, y), not yet painted, is painting it. */
  lemma CanvasStep(m: MathLib, antiAliasing: bool, s: CanvasShape, w: int, h: int,
                   start: seq<Byte>, before: seq<Byte>, x: int, y: int)
    requires Operations.WellFormed(s.geometry)
    requires 0 <= x < w && 0 <= y < h && InRect(Operations.DrawArea(m, s.geometry), x, y)
    requires PixelPending(before, start, (y * w + x) * 3)
    ensures PixelBlended(before, (y * w + x) * 3, GetPixel(m, antiAliasing, s, x, y)) ==
      WithPixel(before, ShapePaint(m, antiAliasing, s, w, h, start), (y * w + x) * 3)
  {
    var o, p := (y * w + x) * 3, GetPixel(m, antiAliasing, s, x, y);
    var target := ShapePaint(m, antiAliasing, s, w, h, start);
    PixelBytes(w, x, y, 0);
    PixelBytes(w, x, y, 1);
    PixelBytes(w, x, y, 2);
    assert target[o] == CanvasByte(start[o], p, 0);
    assert target[o + 1] == CanvasByte(start[o + 1], p, 1);
    assert target[o + 2] == CanvasByte(start[o + 2], p, 2);
  }

  /** Stepping over a position off the image paints nothing. */
  lemma SkipStep(buf: seq<Byte>, start: seq<Byte>, target: seq<Byte>, w: int, h: int, draw: Rect, x: int, y: int)
    requires |buf| == |start| == |target|
    requires x < 0 || y < 0 || x >= w || y >= h
    requires forall i :: 0 <= i < |start| ==>
      buf[i] == if Done(i, w, h, draw, x, y) then target[i] else start[i]
    ensures forall i :: 0 <= i < |start| ==>
      buf[i] == if Done(i, w, h, draw, x + 1, y) then target[i] else start[i]
  {
    forall i | 0 <= i < |start|
      ensures Done(i, w, h, draw, x + 1, y) == Done(i, w, h, draw, x, y)
    {
    }
  }

  class Canvas {
    var width: int
    var height: int
    var antiAliasing: bool
    var backcolor: LegacyColors.Color
    var shapes: seq<CanvasShape>
    var buffer: seq<Byte>

    /** The buffer holds exactly the w*h pixels, three bytes each. */
    ghost predicate Valid()
      reads this
    {
      width * height >= 0 && |buffer| == width * height * 3
    }

    /** `Canvas(width, height)`: opaque black background, an empty buffer
        resized to the image, anti-aliasing off and no shapes. */
    constructor (w: int, h: int)
      requires w * h >= 0
      ensures Valid() && width == w && height == h
      ensures buffer == Resized([], w * h * 3)
      ensures backcolor == LegacyColors.FromRGB(0) && !antiAliasing && shapes == []
    {
      width, height := 0, 0;
      antiAliasing := false;
      backcolor := LegacyColors.FromRGB(0);
      shapes := [];
      buffer := [];
      new;
      SetSize(w, h);
      antiAliasing := false;
    }

    /** `set_size`: the new size, and the buffer resized to w*h*3 bytes
        (kept prefix, zero padding); the caller is expected to redraw. */
    method SetSize(w: int, h: int)
      requires w * h >= 0
      modifies this
      ensures Valid() && width == w && height == h
      ensures buffer == Resized(old(buffer), w * h * 3)
      ensures antiAliasing == old(antiAliasing) && backcolor == old(backcolor) && shapes == old(shapes)
    {
      width := w;
      height := h;
      buffer := Resized(buffer, w * h * 3);
    }

    /** `AddShape`: append, and return the new shape's index. */
    method AddShape(s: CanvasShape) returns (index: int)
      modifies this
      ensures shapes == old(shapes) + [s] && index == |old(shapes)| && shapes[index] == s
      ensures width == old(width) && height == old(height) && buffer == old(buffer)
      ensures antiAliasing == old(antiAliasing) && backcolor == old(backcolor)
    {
      shapes := shapes + [s];
      index := |shapes| - 1;
    }

    /** `ClearShape`. */
    method ClearShape()
      modifies this
      ensures shapes == []
      ensures width == old(width) && height == old(height) && buffer == old(buffer)
      ensures antiAliasing == old(antiAliasing) && backcolor == old(backcolor)
    {
      shapes := [];
    }

    /** `set_anti_aliasing`. */
    method SetAntiAliasing(on: bool)
      modifies this
      ensures antiAliasing == on
      ensures width == old(width) && height == old(height) && buffer == old(buffer)
      ensures shapes == old(shapes) && backcolor == old(backcolor)
    {
      antiAliasing := on;
    }

    /** `set_backcolor`. */
    method SetBackcolor(c: LegacyColors.Color)
      modifies this
      ensures backcolor == c
      ensures width == old(width) && height == old(height) && buffer == old(buffer)
      ensures shapes == old(shapes) && antiAliasing == old(antiAliasing)
    {
      backcolor := c;
    }

    /** `AlphaBlendX` on byte i: the same blend as the renderer's. */
    method AlphaBlendX(i: int, y: Byte, alpha: real)
      requires 0 <= i < |buffer|
      modifies this
      ensures buffer == old(buffer)[i := AlphaBlend(old(buffer)[i], y, alpha)]
      ensures width == old(width) && height == old(height) && shapes == old(shapes)
      ensures antiAliasing == old(antiAliasing) && backcolor == old(backcolor)
    {
      buffer := buffer[i := AlphaBlend(buffer[i], y, alpha)];
    }

    /** `Redraw`: the background over every pixel, then each shape in list
        order over its whole box, skipping positions off the image. */
    method Redraw(m: MathLib)
      requires Valid() && AllWellFormed(shapes)
      modifies this
      ensures Valid() && width == old(width) && height == old(height)
      ensures shapes == old(shapes) && antiAliasing == old(antiAliasing) && backcolor == old(backcolor)
      ensures buffer == Redrawn(m, antiAliasing, backcolor, shapes, width, height, old(buffer))
    {
      FillBackground();
      ghost var filled := buffer;
      var index := 0;
      while index < |shapes|
        invariant 0 <= index <= |shapes| && Valid()
        invariant width == old(width) && height == old(height)
        invariant shapes == old(shapes) && antiAliasing == old(antiAliasing) && backcolor == old(backcolor)
        invariant buffer == PaintShapes(m, antiAliasing, shapes[..index], width, height, filled)
      {
        assert shapes[..index + 1][..index] == shapes[..index];
        DrawShape(m, shapes[index]);
        index := index + 1;
      }
      assert shapes[..index] == shapes;
    }

    /** The background loop of `Redraw`: three bytes per pixel, row by
        row. */
    method FillBackground()
      requires Valid()
      modifies this
      ensures buffer == Fill(backcolor, width, height, old(buffer))
      ensures Valid() && width == old(width) && height == old(height)
      ensures shapes == old(shapes) && antiAliasing == old(antiAliasing) && backcolor == old(backcolor)
    {
      var w, h, back := width, height, backcolor;
      ghost var start := buffer;
      ghost var goal := Fill(back, w, h, start);
      var p := 0;
      var y := 0;
      while y < h
        invariant 0 <= y && (0 < h ==> y <= h) && (h <= 0 ==> y == 0)
        invariant 0 < w ==> p == y * w * 3
        invariant w <= 0 ==> p == 0
        invariant width == w && height == h && backcolor == back
        invariant shapes == old(shapes) && antiAliasing == old(antiAliasing)
        invariant PrefixDone(buffer, start, goal, p)
      {
        var x := 0;
        while x < w
          invariant 0 <= x && (0 < w ==> x <= w && p == (y * w + x) * 3)
          invariant w <= 0 ==> p == 0
          invariant width == w && height == h && backcolor == back
          invariant shapes == old(shapes) && antiAliasing == old(antiAliasing)
          invariant PrefixDone(buffer, start, goal, p)
        {
          RowMajorBounds(w, h, x, y);
          FillByte(back, w, h, start, x, y, 0);
          FillByte(back, w, h, start, x, y, 1);
          FillByte(back, w, h, start, x, y, 2);
          ghost var before := buffer;
          buffer := buffer[p := back.red][p + 1 := back.green][p + 2 := back.blue];
          PrefixStep(before, buffer, start, goal, p);
          p := p + 3;
          x := x + 1;
        }
        assert 0 < w ==> p == (y + 1) * w * 3;
        y := y + 1;
      }
      FillDone(back, w, h, start, buffer, p);
    }

    /** One shape's pass of `Redraw`. */
    method DrawShape(m: MathLib, s: CanvasShape)
      requires Valid() && Operations.WellFormed(s.geometry)
      modifies this
      ensures buffer == ShapePaint(m, antiAliasing, s, width, height, old(buffer))
      ensures Valid() && width == old(width) && height == old(height)
      ensures shapes == old(shapes) && antiAliasing == old(antiAliasing) && backcolor == old(backcolor)
    {
      var w, h, aa := width, height, antiAliasing;
      var area := Operations.DrawArea(m, s.geometry);
      ghost var start := buffer;
      ghost var target := ShapePaint(m, aa, s, w, h, start);
      var y := area.top;
      while y <= area.bottom
        invariant area.top <= y && (area.top <= area.bottom ==> y <= area.bottom + 1)
        invariant width == w && height == h && antiAliasing == aa && Valid()
        invariant shapes == old(shapes) && backcolor == old(backcolor)
        invariant |buffer| == |start|
        invariant forall i :: 0 <= i < |start| ==>
          buffer[i] == if Done(i, w, h, area, area.left, y) then target[i] else start[i]
      {
        var x := area.left;
        while x <= area.right
          invariant area.left <= x && (area.left <= area.right ==> x <= area.right + 1)
          invariant width == w && height == h && antiAliasing == aa && Valid()
          invariant shapes == old(shapes) && backcolor == old(backcolor)
          invariant |buffer| == |start|
          invariant forall i :: 0 <= i < |start| ==>
            buffer[i] == if Done(i, w, h, area, x, y) then target[i] else start[i]
        {
          if x < 0 || y < 0 || x >= w || y >= h {
            SkipStep(buffer, start, target, w, h, area, x, y);
            x := x + 1;
            continue;
          }
          RowMajorBounds(w, h, x, y);
          PixelFresh(buffer, start, target, w, h, area, x, y);
          ghost var before := buffer;
          var pixel := GetPixel(m, aa, s, x, y);
          BlendPixel((y * w + x) * 3, pixel);
          CanvasStep(m, aa, s, w, h, start, before, x, y);
          WalkStep(before, buffer, start, target, w, h, area, x, y);
          x := x + 1;
        }
        RowStep(buffer, start, target, w, h, area, x, y);
        y := y + 1;
      }
      BoxDone(buffer, start, target, w, h, area, y);
      assert buffer == target;
    }

    /** The blend of one pixel whose bytes start at p with the colour
        `GetPixel` gave, made only when that colour is visible. */
    method BlendPixel(p: int, pixel: LegacyColors.Color)
      requires Valid() && 0 <= p && p + 3 <= |buffer|
      modifies this
      ensures buffer == PixelBlended(old(buffer), p, pixel)
      ensures Valid() && width == old(width) && height == old(height)
      ensures shapes == old(shapes) && antiAliasing == old(antiAliasing) && backcolor == old(backcolor)
    {
      if pixel.ToBool() {
        AlphaBlendX(p, pixel.red, pixel.alpha);
        AlphaBlendX(p + 1, pixel.green, pixel.alpha);
        AlphaBlendX(p + 2, pixel.blue, pixel.alpha);
      }
    }
  }

  /** Once the walk has passed the last pixel, the buffer is the filled
      one. */
  lemma FillDone(back: LegacyColors.Color, w: int, h: int, start: seq<Byte>, buf: seq<Byte>, p: int)
    requires PrefixDone(buf, start, Fill(back, w, h, start), p)
    requires 0 < w && 0 < h ==> p == h * w * 3
    requires w <= 0 || h <= 0 ==> p == 0
    ensures buf == Fill(back, w, h, start)
  {
    var goal := Fill(back, w, h, start);
    forall i | 0 <= i < |buf|
      ensures buf[i] == goal[i]
    {
      if 0 < w && p <= i {
        CanvasBytes(w, h, i);
      }
    }
  }
}
