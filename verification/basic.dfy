/** `cvf::render::BasicRender` (src/render/basic.h): paints the background
    into the caller's row-major RGB buffer, then each shape of the list in
    order, blending the shape's colour into the pixels of its clipped box.

    The specification is a pure function of the old buffer: byte i belongs
    to pixel (PixelX(i), PixelY(i)), channel i % 3. `Background`, `Paint`
    and `PaintAll` give the buffer after each pass; the methods of
    `BasicRender` are proved to produce exactly them. */
module BasicRenders {
  import opened Numeric
  import opened MathUtil
  import opened Rects
  import SolidColors
  import Colors
  import Operations
  import Rectangles
  import opened Renders
  import opened Shapes

  // ---------------------------------------------------------------------
  // Buffer layout

  /** Channel k of a colour: 0 red, 1 green, 2 blue. */
  function Channel(c: SolidColors.SolidColor, k: int): Byte
  {
    if k == 0 then c.red else if k == 1 then c.green else c.blue
  }

  /** The column of the pixel that byte i of a w-wide buffer belongs to. */
  function PixelX(i: int, w: int): (x: int)
    requires 0 <= i && 0 < w
    ensures 0 <= x < w
  {
    (i / 3) % w
  }

  /** The row of that pixel; the byte is channel i % 3 of it. */
  function PixelY(i: int, w: int): (y: int)
    requires 0 <= i && 0 < w
    ensures 0 <= y
  {
    (i / 3) / w
  }

  /** And every byte is byte i % 3 of its pixel. */
  lemma PixelOfByte(i: int, w: int)
    requires 0 <= i && 0 < w
    ensures i == (PixelY(i, w) * w + PixelX(i, w)) * 3 + i % 3
  {
  }

  /** Byte k of pixel (x, y) sits at (y*w + x)*3 + k and decodes back. */
  lemma PixelBytes(w: int, x: int, y: int, k: int)
    requires 0 <= x < w && 0 <= y && 0 <= k < 3
    ensures var i := (y * w + x) * 3 + k;
      PixelX(i, w) == x && PixelY(i, w) == y && i % 3 == k
  {
    var q := y * w + x;
    MulNonneg(y as real, w as real);
    DivUnique(q * 3 + k, 3, q, k);
    DivUnique(q, w, y, x);
  }

  /** Byte i lies in the w-by-h image. */
  predicate InCanvas(i: int, w: int, h: int)
  {
    0 < w && 0 <= i && PixelY(i, w) < h
  }

  /** The image is exactly the first w*h*3 bytes. */
  lemma CanvasBytes(w: int, h: int, i: int)
    requires 0 < w && 0 <= i
    ensures InCanvas(i, w, h) <==> i < w * h * 3
  {
    var x, y := PixelX(i, w), PixelY(i, w);
    PixelOfByte(i, w);
    if y < h {
      RowMajorBounds(w, h, x, y);
    } else {
      MulNonneg((y - h) as real, w as real);
      assert y * w >= h * w;
    }
  }

  /** The source requires a buffer of at least w*h*3 bytes when it draws
      anything at all. */
  predicate BufferFits(w: int, h: int, length: int)
  {
    w <= 0 || h <= 0 || w * h * 3 <= length
  }

  // ---------------------------------------------------------------------
  // The background pass

  /** The position (x/w, y/h) of pixel (x, y) can be sampled. */
  predicate BackSamplable(m: MathLib, back: Colors.Color, w: int, h: int, x: int, y: int)
    requires Lawful(m)
  {
    0 < w && 0 < h && Colors.Samplable(m, back, x as real / w as real, y as real / h as real)
  }

  ghost predicate BackgroundReady(m: MathLib, back: Colors.Color, w: int, h: int)
    requires Lawful(m)
  {
    back.IsSolid() ||
    forall x, y :: 0 <= x < w && 0 <= y < h ==> BackSamplable(m, back, w, h, x, y)
  }

  /** The colour `DrawBackground` gives pixel (x, y): `GetColor()` of a
      solid fill, `GetColor(x/w, y/h)` of any other. */
  function BackgroundColor(m: MathLib, back: Colors.Color, w: int, h: int, x: int, y: int): SolidColors.SolidColor
    requires Lawful(m)
    requires back.IsSolid() || BackSamplable(m, back, w, h, x, y)
  {
    if back.IsSolid() then back.GetColor()
    else Colors.GetColorAt(m, back, x as real / w as real, y as real / h as real)
  }

  /** Byte i (old value v) after the background pass: the image's bytes
      take their pixel's colour, the bytes past it keep theirs. */
  function BackgroundByte(m: MathLib, back: Colors.Color, w: int, h: int, v: Byte, i: int): Byte
    requires Lawful(m) && BackgroundReady(m, back, w, h)
  {
    if InCanvas(i, w, h) then Channel(BackgroundColor(m, back, w, h, PixelX(i, w), PixelY(i, w)), i % 3)
    else v
  }

  /** The buffer after the background pass. */
  function Background(m: MathLib, back: Colors.Color, w: int, h: int, buf: seq<Byte>): (r: seq<Byte>)
    requires Lawful(m) && BackgroundReady(m, back, w, h)
    ensures |r| == |buf|
  {
    seq(|buf|, i requires 0 <= i < |buf| => BackgroundByte(m, back, w, h, buf[i], i))
  }

  /** Every pixel of the image gets its background colour, 3 bytes in
      row-major order... */
  lemma BackgroundPixel(m: MathLib, back: Colors.Color, w: int, h: int, buf: seq<Byte>, x: int, y: int, k: int)
    requires Lawful(m) && BackgroundReady(m, back, w, h)
    requires 0 <= x < w && 0 <= y < h && 0 <= k < 3 && (y * w + x) * 3 + k < |buf|
    ensures Background(m, back, w, h, buf)[(y * w + x) * 3 + k] ==
      Channel(BackgroundColor(m, back, w, h, x, y), k)
  {
    PixelBytes(w, x, y, k);
  }

  /** ...and no byte past the image changes. */
  lemma BackgroundOutside(m: MathLib, back: Colors.Color, w: int, h: int, buf: seq<Byte>, j: int)
    requires Lawful(m) && BackgroundReady(m, back, w, h)
    requires 0 <= j < |buf| && (w <= 0 || h <= 0 || j >= w * h * 3)
    ensures Background(m, back, w, h, buf)[j] == buf[j]
  {
    if 0 < w {
      CanvasBytes(w, h, j);
    }
  }

  /** A solid background paints every pixel the same colour. */
  lemma SolidBackground(m: MathLib, back: Colors.Color, w: int, h: int, buf: seq<Byte>, x: int, y: int, k: int)
    requires Lawful(m) && back.IsSolid()
    requires 0 <= x < w && 0 <= y < h && 0 <= k < 3 && (y * w + x) * 3 + k < |buf|
    ensures Background(m, back, w, h, buf)[(y * w + x) * 3 + k] == Channel(back.color1, k)
  {
    BackgroundPixel(m, back, w, h, buf, x, y, k);
  }

  /** Byte i of `goal` is byte i of `buf` after the background pass. */
  ghost predicate BackgroundFixed(m: MathLib, back: Colors.Color, w: int, h: int,
                                  buf: seq<Byte>, goal: seq<Byte>, i: int)
    requires Lawful(m) && BackgroundReady(m, back, w, h)
    requires 0 <= i < |buf| == |goal|
  {
    goal[i] == BackgroundByte(m, back, w, h, buf[i], i)
  }

  /** `goal` is `buf` after the background pass, byte by byte. */
  ghost predicate BackgroundOf(m: MathLib, back: Colors.Color, w: int, h: int, buf: seq<Byte>, goal: seq<Byte>)
    requires Lawful(m) && BackgroundReady(m, back, w, h)
  {
    |goal| == |buf| &&
    forall i :: 0 <= i < |buf| ==> BackgroundFixed(m, back, w, h, buf, goal, i)
  }

  /** The background pass's result, known byte by byte. */
  lemma BackgroundGoal(m: MathLib, back: Colors.Color, w: int, h: int, buf: seq<Byte>) returns (goal: seq<Byte>)
    requires Lawful(m) && BackgroundReady(m, back, w, h)
    ensures BackgroundOf(m, back, w, h, buf, goal)
  {
    goal := Background(m, back, w, h, buf);
  }

  /** The three bytes of pixel (x, y) in that result. */
  lemma BackgroundGoalPixel(m: MathLib, back: Colors.Color, w: int, h: int, buf: seq<Byte>, goal: seq<Byte>, x: int, y: int)
    requires Lawful(m) && BackgroundReady(m, back, w, h) && BackgroundOf(m, back, w, h, buf, goal)
    requires 0 <= x < w && 0 <= y < h && (y * w + x) * 3 + 3 <= |buf|
    ensures var o, c := (y * w + x) * 3, BackgroundColor(m, back, w, h, x, y);
      goal[o] == c.red && goal[o + 1] == c.green && goal[o + 2] == c.blue
  {
    var o := (y * w + x) * 3;
    PixelBytes(w, x, y, 0);
    PixelBytes(w, x, y, 1);
    PixelBytes(w, x, y, 2);
    assert BackgroundFixed(m, back, w, h, buf, goal, o);
    assert BackgroundFixed(m, back, w, h, buf, goal, o + 1);
    assert BackgroundFixed(m, back, w, h, buf, goal, o + 2);
  }

  /** Once the first p bytes hold the result and p is the image's end, the
      whole buffer is the background pass's result. */
  lemma BackgroundGoalDone(m: MathLib, back: Colors.Color, w: int, h: int,
                           buf: seq<Byte>, goal: seq<Byte>, now: seq<Byte>, p: int)
    requires Lawful(m) && BackgroundReady(m, back, w, h) && BackgroundOf(m, back, w, h, buf, goal)
    requires PrefixDone(now, buf, goal, p)
    requires if 0 < w && 0 < h then p == h * w * 3 else p == 0
    ensures now == Background(m, back, w, h, buf)
  {
    forall i | 0 <= i < |buf| && p <= i
      ensures goal[i] == buf[i]
    {
      assert BackgroundFixed(m, back, w, h, buf, goal, i);
      if 0 < w && 0 < h {
        CanvasBytes(w, h, i);
        assert h * w == w * h;
      }
    }
    assert now == goal;
    forall i | 0 <= i < |buf|
      ensures goal[i] == Background(m, back, w, h, buf)[i]
    {
      assert BackgroundFixed(m, back, w, h, buf, goal, i);
    }
  }

  // ---------------------------------------------------------------------
  // A shape pass

  /** `draw`: the box clipped to the image. */
  function Clip(area: Rect, w: int, h: int): (draw: Rect)
    ensures 0 <= draw.left && draw.right < w && 0 <= draw.top && draw.bottom < h
    ensures area.left <= draw.left && draw.right <= area.right
    ensures area.top <= draw.top && draw.bottom <= area.bottom
  {
    Rect(Max(area.left, 0), Max(area.top, 0), Min(area.right, w - 1), Min(area.bottom, h - 1))
  }

  predicate InRect(r: Rect, x: int, y: int)
  {
    r.left <= x <= r.right && r.top <= y <= r.bottom
  }

  /** The gradient position of pixel (x, y) in the un-clipped box: both
      coordinates in [0, 1). */
  function SampleX(area: Rect, x: int): (px: real)
    requires area.left <= x <= area.right
    ensures 0.0 <= px < 1.0
  {
    FractionBelowOne((x - area.left) as real, (area.right - area.left + 1) as real);
    (x - area.left) as real / (area.right - area.left + 1) as real
  }

  function SampleY(area: Rect, y: int): (py: real)
    requires area.top <= y <= area.bottom
    ensures 0.0 <= py < 1.0
  {
    FractionBelowOne((y - area.top) as real, (area.bottom - area.top + 1) as real);
    (y - area.top) as real / (area.bottom - area.top + 1) as real
  }

  predicate ShapeSamplable(m: MathLib, c: Colors.Color, area: Rect, x: int, y: int)
    requires Lawful(m)
  {
    c.IsSolid() ||
    (InRect(area, x, y) && Colors.Samplable(m, c, SampleX(area, x), SampleY(area, y)))
  }

  /** The fill can be sampled at every pixel of the box `area` clipped to
      the image. */
  ghost predicate FillReady(m: MathLib, c: Colors.Color, area: Rect, w: int, h: int)
    requires Lawful(m)
  {
    forall x, y {:trigger ShapeSamplable(m, c, area, x, y)} ::
      InRect(Clip(area, w, h), x, y) ==> ShapeSamplable(m, c, area, x, y)
  }

  /** What `DrawShape` needs of a shape: a well-formed geometry and a fill
      that can be sampled at every pixel it draws. */
  ghost predicate ShapeReady(m: MathLib, s: ShapeValue, w: int, h: int)
    requires Lawful(m)
  {
    Operations.WellFormed(s.geometry) &&
    FillReady(m, s.color, Operations.DrawArea(m, s.geometry), w, h)
  }

  /** The colour a shape paints at pixel (x, y). */
  function ShapeColorAt(m: MathLib, c: Colors.Color, area: Rect, x: int, y: int): SolidColors.SolidColor
    requires Lawful(m) && ShapeSamplable(m, c, area, x, y)
  {
    if c.IsSolid() then c.GetColor()
    else Colors.GetColorAt(m, c, SampleX(area, x), SampleY(area, y))
  }

  /** `GetPixelVisible` at pixel (x, y): the coverage of the pixel by the
      shape's geometry. */
  function PixelCoverage(m: MathLib, s: ShapeValue, antiAliasing: bool, x: int, y: int): (v: real)
    requires Operations.WellFormed(s.geometry)
    ensures 0.0 <= v <= 1.0
  {
    Coverage(Operations.SDF(m, s.geometry, x as real, y as real), antiAliasing)
  }

  /** The blend factor of a pixel: its coverage times the colour's
      alpha. */
  function BlendFactor(coverage: real, rgba: SolidColors.SolidColor): real
  {
    coverage * rgba.alpha
  }

  /** Byte k (old value v) of a pixel painted with colour `rgba` and blend
      factor `alpha`: a positive factor blends, any other keeps the
      byte. */
  function PaintByte(v: Byte, rgba: SolidColors.SolidColor, alpha: real, k: int): Byte
  {
    if alpha > 0.0 then AlphaBlend(v, Channel(rgba, k), alpha) else v
  }

  /** Byte k of pixel (x, y) (old value v) after a shape with box `area`
      is painted: a pixel of the clipped box is painted with the fill's
      colour there; every other byte keeps its value. */
  function PixelPaint(m: MathLib, s: ShapeValue, antiAliasing: bool, area: Rect, w: int, h: int,
                      v: Byte, x: int, y: int, k: int): Byte
    requires Lawful(m) && Operations.WellFormed(s.geometry) && FillReady(m, s.color, area, w, h)
  {
    if InRect(Clip(area, w, h), x, y) then
      var rgba := ShapeColorAt(m, s.color, area, x, y);
      PaintByte(v, rgba, BlendFactor(PixelCoverage(m, s, antiAliasing, x, y), rgba), k)
    else v
  }

  /** Byte i (old value v) after the shape is painted. */
  function PaintedByte(m: MathLib, s: ShapeValue, antiAliasing: bool, area: Rect, w: int, h: int, v: Byte, i: int): Byte
    requires Lawful(m) && Operations.WellFormed(s.geometry) && FillReady(m, s.color, area, w, h)
  {
    if InCanvas(i, w, h) then PixelPaint(m, s, antiAliasing, area, w, h, v, PixelX(i, w), PixelY(i, w), i % 3)
    else v
  }

  /** The buffer after one shape is painted. */
  function Paint(m: MathLib, s: ShapeValue, antiAliasing: bool, w: int, h: int, buf: seq<Byte>): (r: seq<Byte>)
    requires Lawful(m) && ShapeReady(m, s, w, h)
    ensures |r| == |buf|
  {
    var area := Operations.DrawArea(m, s.geometry);
    seq(|buf|, i requires 0 <= i < |buf| => PaintedByte(m, s, antiAliasing, area, w, h, buf[i], i))
  }

  /** Only the bytes of pixels in the clipped box can change; there a
      pixel is blended exactly when coverage times alpha is positive, and
      kept otherwise. */
  lemma PaintPixel(m: MathLib, s: ShapeValue, antiAliasing: bool, w: int, h: int, buf: seq<Byte>, x: int, y: int, k: int)
    requires Lawful(m) && ShapeReady(m, s, w, h)
    requires 0 <= x < w && 0 <= y < h && 0 <= k < 3 && (y * w + x) * 3 + k < |buf|
    ensures var i := (y * w + x) * 3 + k;
      var area := Operations.DrawArea(m, s.geometry);
      Paint(m, s, antiAliasing, w, h, buf)[i] ==
        if InRect(Clip(area, w, h), x, y) then
          var rgba := ShapeColorAt(m, s.color, area, x, y);
          PaintByte(buf[i], rgba, BlendFactor(PixelCoverage(m, s, antiAliasing, x, y), rgba), k)
        else buf[i]
  {
    PixelBytes(w, x, y, k);
  }

  /** A shape whose clipped box is empty (for instance one entirely off
      the image) leaves the buffer as it was, and so do bytes past the
      image. */
  lemma PaintOffCanvas(m: MathLib, s: ShapeValue, antiAliasing: bool, w: int, h: int, buf: seq<Byte>, j: int)
    requires Lawful(m) && ShapeReady(m, s, w, h)
    requires 0 <= j < |buf| && (w <= 0 || h <= 0 || j >= w * h * 3)
    ensures Paint(m, s, antiAliasing, w, h, buf)[j] == buf[j]
    ensures var d := Clip(Operations.DrawArea(m, s.geometry), w, h);
      d.right < d.left || d.bottom < d.top ==> Paint(m, s, antiAliasing, w, h, buf) == buf
  {
    if 0 < w {
      CanvasBytes(w, h, j);
    }
  }

  /** A solid, fully opaque (alpha 1) shape without anti-aliasing paints
      its colour over every image pixel inside it that its box covers. */
  lemma OpaqueShapeOverwrites(m: MathLib, s: ShapeValue, w: int, h: int, buf: seq<Byte>, x: int, y: int, k: int)
    requires Lawful(m) && ShapeReady(m, s, w, h)
    requires s.color.IsSolid() && s.color.color1.alpha == 1.0
    requires 0 <= x < w && 0 <= y < h && 0 <= k < 3 && 0 <= (y * w + x) * 3 + k < |buf|
    requires Operations.SDF(m, s.geometry, x as real, y as real) <= 0.0
    requires Operations.DrawArea(m, s.geometry).Covers(0.0, x as real, y as real)
    ensures Paint(m, s, false, w, h, buf)[(y * w + x) * 3 + k] == Channel(s.color.color1, k)
  {
    var area := Operations.DrawArea(m, s.geometry);
    RowMajorBounds(w, h, x, y);
    PaintPixel(m, s, false, w, h, buf, x, y, k);
    assert InRect(Clip(area, w, h), x, y);
    var rgba := ShapeColorAt(m, s.color, area, x, y);
    assert rgba == s.color.color1;
    var coverage := PixelCoverage(m, s, false, x, y);
    assert coverage == 1.0;
    OpaqueByte(buf[(y * w + x) * 3 + k], rgba, k);
  }

  /** At full coverage an opaque colour replaces the byte with its
      channel. */
  lemma OpaqueByte(v: Byte, rgba: SolidColors.SolidColor, k: int)
    requires rgba.alpha == 1.0
    ensures PaintByte(v, rgba, BlendFactor(1.0, rgba), k) == Channel(rgba, k)
  {
  }

  /** Without anti-aliasing, painting a solid, fully opaque shape a second
      time changes nothing: each pixel of its clipped box is either
      overwritten with the colour or kept, both times alike. */
  lemma OpaqueShapeIdempotent(m: MathLib, s: ShapeValue, w: int, h: int, buf: seq<Byte>)
    requires Lawful(m) && ShapeReady(m, s, w, h)
    requires s.color.IsSolid() && s.color.color1.alpha == 1.0
    ensures Paint(m, s, false, w, h, Paint(m, s, false, w, h, buf)) == Paint(m, s, false, w, h, buf)
  {
    var area := Operations.DrawArea(m, s.geometry);
    var once := Paint(m, s, false, w, h, buf);
    var twice := Paint(m, s, false, w, h, once);
    forall i | 0 <= i < |buf|
      ensures twice[i] == once[i]
    {
      if InCanvas(i, w, h) {
        var x, y := PixelX(i, w), PixelY(i, w);
        if InRect(Clip(area, w, h), x, y) {
          var rgba := ShapeColorAt(m, s.color, area, x, y);
          assert rgba == s.color.color1;
          var f := BlendFactor(PixelCoverage(m, s, false, x, y), rgba);
          assert f == 0.0 || f == 1.0;
        }
      }
    }
  }

  /** With anti-aliasing the second coat is not idle: a white, opaque
      square whose corner touches pixel (0, 0) of a black 1-by-1 image
      covers it by one half, so the pixel goes to 127 and then to 191. */
  lemma AntiAliasedRepaintBlends(m: MathLib)
    requires Lawful(m)
    ensures var s := ShapeValue(Operations.RectangleShape(Rectangles.NewSquare(-1.0, -1.0, 1.0)),
                                Colors.FromSolid(SolidColors.FromChannels(255, 255, 255)));
      ShapeReady(m, s, 1, 1) &&
      Paint(m, s, true, 1, 1, [0, 0, 0]) == [127, 127, 127] &&
      Paint(m, s, true, 1, 1, Paint(m, s, true, 1, 1, [0, 0, 0])) == [191, 191, 191]
  {
    var q := Rectangles.NewSquare(-1.0, -1.0, 1.0);
    var s := ShapeValue(Operations.RectangleShape(q), Colors.FromSolid(SolidColors.FromChannels(255, 255, 255)));
    var area := Operations.DrawArea(m, s.geometry);
    assert area == Rect(-1, -1, 0, 0);
    assert Clip(area, 1, 1) == Rect(0, 0, 0, 0);
    assert FillReady(m, s.color, area, 1, 1);
    NormZero(m);
    assert Rectangles.SDF(m, q, 0.0, 0.0) == 0.0;
    assert PixelCoverage(m, s, true, 0, 0) == 0.5;
    var once := Paint(m, s, true, 1, 1, [0, 0, 0]);
    forall i | 0 <= i < 3
      ensures once[i] == 127
    {
      assert PixelX(i, 1) == 0 && PixelY(i, 1) == 0;
      assert AlphaBlend(0, 255, 0.5) == 127;
    }
    forall i | 0 <= i < 3
      ensures Paint(m, s, true, 1, 1, once)[i] == 191
    {
      assert PixelX(i, 1) == 0 && PixelY(i, 1) == 0;
      assert AlphaBlend(127, 255, 0.5) == 191;
    }
  }

  /** The number of bytes the w-by-h image takes. */
  function CanvasSize(w: int, h: int): int
  {
    if 0 < w && 0 < h then w * h * 3 else 0
  }

  /** Byte k of pixel (x, y) of `target` is that byte of `buf` after the
      shape is painted. */
  ghost predicate PixelFixed(m: MathLib, s: ShapeValue, antiAliasing: bool, area: Rect, w: int, h: int,
                             buf: seq<Byte>, target: seq<Byte>, x: int, y: int, k: int)
    requires Lawful(m) && Operations.WellFormed(s.geometry) && FillReady(m, s.color, area, w, h)
    requires |target| == |buf| && 0 <= (y * w + x) * 3 + k < |buf|
  {
    target[(y * w + x) * 3 + k] ==
      PixelPaint(m, s, antiAliasing, area, w, h, buf[(y * w + x) * 3 + k], x, y, k)
  }

  /** `target` is `buf` after the shape is painted, pixel by pixel. */
  ghost predicate PaintOf(m: MathLib, s: ShapeValue, antiAliasing: bool, area: Rect, w: int, h: int,
                          buf: seq<Byte>, target: seq<Byte>)
    requires Lawful(m) && Operations.WellFormed(s.geometry) && FillReady(m, s.color, area, w, h)
  {
    |target| == |buf| &&
    (forall x, y, k :: 0 <= x < w && 0 <= y < h && 0 <= k < 3 && 0 <= (y * w + x) * 3 + k < |buf| ==>
      PixelFixed(m, s, antiAliasing, area, w, h, buf, target, x, y, k)) &&
    (forall i :: CanvasSize(w, h) <= i < |buf| ==> target[i] == buf[i])
  }

  /** The shape pass's result, known pixel by pixel. */
  lemma PaintGoal(m: MathLib, s: ShapeValue, antiAliasing: bool, w: int, h: int, buf: seq<Byte>) returns (target: seq<Byte>)
    requires Lawful(m) && ShapeReady(m, s, w, h)
    ensures FillReady(m, s.color, Operations.DrawArea(m, s.geometry), w, h)
    ensures PaintOf(m, s, antiAliasing, Operations.DrawArea(m, s.geometry), w, h, buf, target)
  {
    var area := Operations.DrawArea(m, s.geometry);
    target := Paint(m, s, antiAliasing, w, h, buf);
    forall x, y, k | 0 <= x < w && 0 <= y < h && 0 <= k < 3 && 0 <= (y * w + x) * 3 + k < |buf|
      ensures PixelFixed(m, s, antiAliasing, area, w, h, buf, target, x, y, k)
    {
      PixelBytes(w, x, y, k);
    }
    forall i | CanvasSize(w, h) <= i < |buf|
      ensures target[i] == buf[i]
    {
      if 0 < w && 0 < h {
        CanvasBytes(w, h, i);
      }
    }
  }

  /** Byte k of pixel (x, y) of `after` is that byte of `before` painted. */
  ghost predicate ByteDrawn(m: MathLib, s: ShapeValue, antiAliasing: bool, area: Rect, w: int, h: int,
                            before: seq<Byte>, after: seq<Byte>, x: int, y: int, k: int)
    requires Lawful(m) && Operations.WellFormed(s.geometry) && FillReady(m, s.color, area, w, h)
    requires |after| == |before| && 0 <= (y * w + x) * 3 + k < |before|
  {
    after[(y * w + x) * 3 + k] ==
      PixelPaint(m, s, antiAliasing, area, w, h, before[(y * w + x) * 3 + k], x, y, k)
  }

  /** `after` is `before` with pixel (x, y) painted and every other byte
      kept. */
  ghost predicate PixelDrawn(m: MathLib, s: ShapeValue, antiAliasing: bool, area: Rect, w: int, h: int,
                             before: seq<Byte>, after: seq<Byte>, x: int, y: int)
    requires Lawful(m) && Operations.WellFormed(s.geometry) && FillReady(m, s.color, area, w, h)
  {
    var o := (y * w + x) * 3;
    |after| == |before| && 0 <= o && o + 3 <= |before| &&
    (forall i :: 0 <= i < |before| && !(o <= i < o + 3) ==> after[i] == before[i]) &&
    (forall k :: 0 <= k < 3 ==> ByteDrawn(m, s, antiAliasing, area, w, h, before, after, x, y, k))
  }

  /** Drawing a pixel that still holds its old bytes writes its bytes of
      the pass's result. */
  lemma PixelStep(m: MathLib, s: ShapeValue, antiAliasing: bool, area: Rect, w: int, h: int,
                  start: seq<Byte>, target: seq<Byte>, before: seq<Byte>, after: seq<Byte>, x: int, y: int)
    requires Lawful(m) && Operations.WellFormed(s.geometry) && FillReady(m, s.color, area, w, h)
    requires PaintOf(m, s, antiAliasing, area, w, h, start, target)
    requires 0 <= x < w && 0 <= y < h
    requires PixelPending(before, start, (y * w + x) * 3)
    requires PixelDrawn(m, s, antiAliasing, area, w, h, before, after, x, y)
    ensures after == WithPixel(before, target, (y * w + x) * 3)
  {
    var o := (y * w + x) * 3;
    assert ByteDrawn(m, s, antiAliasing, area, w, h, before, after, x, y, 0);
    assert ByteDrawn(m, s, antiAliasing, area, w, h, before, after, x, y, 1);
    assert ByteDrawn(m, s, antiAliasing, area, w, h, before, after, x, y, 2);
    assert PixelFixed(m, s, antiAliasing, area, w, h, start, target, x, y, 0);
    assert PixelFixed(m, s, antiAliasing, area, w, h, start, target, x, y, 1);
    assert PixelFixed(m, s, antiAliasing, area, w, h, start, target, x, y, 2);
    var r := WithPixel(before, target, o);
    forall i | 0 <= i < |after|
      ensures after[i] == r[i]
    {
    }
  }

  /** `buf` after the blend of a pixel at o with factor alpha: its three
      bytes are blended when alpha is positive, nothing changes
      otherwise. */
  function Blended(buf: seq<Byte>, o: int, rgba: SolidColors.SolidColor, alpha: real): (r: seq<Byte>)
    requires 0 <= o && o + 3 <= |buf|
    ensures |r| == |buf|
    ensures forall i :: 0 <= i < |buf| && !(o <= i < o + 3) ==> r[i] == buf[i]
  {
    if alpha > 0.0 then
      buf[o := AlphaBlend(buf[o], rgba.red, alpha)]
        [o + 1 := AlphaBlend(buf[o + 1], rgba.green, alpha)]
        [o + 2 := AlphaBlend(buf[o + 2], rgba.blue, alpha)]
    else buf
  }

  /** Channel k and the alpha of `rgba` are those of the fill at pixel
      (x, y). */
  ghost predicate ChannelOf(m: MathLib, c: Colors.Color, area: Rect, x: int, y: int,
                            rgba: SolidColors.SolidColor, k: int)
    requires Lawful(m) && ShapeSamplable(m, c, area, x, y)
  {
    var fill := ShapeColorAt(m, c, area, x, y);
    Channel(rgba, k) == Channel(fill, k) && rgba.alpha == fill.alpha
  }

  /** `rgba` is the colour of the fill at pixel (x, y), channel by
      channel. */
  ghost predicate ColorOf(m: MathLib, c: Colors.Color, area: Rect, x: int, y: int, rgba: SolidColors.SolidColor)
    requires Lawful(m) && ShapeSamplable(m, c, area, x, y)
  {
    forall k :: 0 <= k < 3 ==> ChannelOf(m, c, area, x, y, rgba, k)
  }

  /** `color().GetColor(px, py)` for pixel (x, y) of the box `area`. */
  method SampleColor(m: MathLib, c: Colors.Color, area: Rect, x: int, y: int) returns (rgba: SolidColors.SolidColor)
    requires Lawful(m) && ShapeSamplable(m, c, area, x, y)
    ensures ColorOf(m, c, area, x, y, rgba)
  {
    rgba := ShapeColorAt(m, c, area, x, y);
    forall k | 0 <= k < 3
      ensures ChannelOf(m, c, area, x, y, rgba, k)
    {
    }
  }

  /** Blending pixel (x, y) with the shape's colour and blend factor there
      paints it. */
  lemma BlendedDrawn(m: MathLib, s: ShapeValue, antiAliasing: bool, area: Rect, w: int, h: int,
                     before: seq<Byte>, x: int, y: int, rgba: SolidColors.SolidColor, coverage: real)
    requires Lawful(m) && Operations.WellFormed(s.geometry) && FillReady(m, s.color, area, w, h)
    requires InRect(Clip(area, w, h), x, y)
    requires 0 <= (y * w + x) * 3 && (y * w + x) * 3 + 3 <= |before|
    requires ColorOf(m, s.color, area, x, y, rgba)
    requires coverage == PixelCoverage(m, s, antiAliasing, x, y)
    ensures PixelDrawn(m, s, antiAliasing, area, w, h, before,
                       Blended(before, (y * w + x) * 3, rgba, BlendFactor(coverage, rgba)), x, y)
  {
    var o := (y * w + x) * 3;
    var alpha := BlendFactor(coverage, rgba);
    var after := Blended(before, o, rgba, alpha);
    ColorIs(m, s.color, area, x, y, rgba);
    BlendedByte(before, w, x, y, rgba, alpha, 0);
    BlendedByte(before, w, x, y, rgba, alpha, 1);
    BlendedByte(before, w, x, y, rgba, alpha, 2);
    assert ByteDrawn(m, s, antiAliasing, area, w, h, before, after, x, y, 0);
    assert ByteDrawn(m, s, antiAliasing, area, w, h, before, after, x, y, 1);
    assert ByteDrawn(m, s, antiAliasing, area, w, h, before, after, x, y, 2);
  }

  /** A colour that agrees with the fill in every channel is the fill's
      colour. */
  lemma ColorIs(m: MathLib, c: Colors.Color, area: Rect, x: int, y: int, rgba: SolidColors.SolidColor)
    requires Lawful(m) && ShapeSamplable(m, c, area, x, y)
    requires ColorOf(m, c, area, x, y, rgba)
    ensures rgba == ShapeColorAt(m, c, area, x, y)
  {
    assert ChannelOf(m, c, area, x, y, rgba, 0);
    assert ChannelOf(m, c, area, x, y, rgba, 1);
    assert ChannelOf(m, c, area, x, y, rgba, 2);
  }

  /** Byte k of the blended pixel. */
  lemma BlendedByte(buf: seq<Byte>, w: int, x: int, y: int, rgba: SolidColors.SolidColor, alpha: real, k: int)
    requires 0 <= (y * w + x) * 3 && (y * w + x) * 3 + 3 <= |buf| && 0 <= k < 3
    ensures |Blended(buf, (y * w + x) * 3, rgba, alpha)| == |buf|
    ensures Blended(buf, (y * w + x) * 3, rgba, alpha)[(y * w + x) * 3 + k] ==
      PaintByte(buf[(y * w + x) * 3 + k], rgba, alpha, k)
  {
  }

  /** Byte i lies in a pixel of the box `draw`. */
  predicate InBox(i: int, w: int, h: int, draw: Rect)
  {
    InCanvas(i, w, h) && InRect(draw, PixelX(i, w), PixelY(i, w))
  }

  /** Once every pixel of the clipped box holds its result the buffer is
      the shape pass's result. */
  lemma PaintGoalDone(m: MathLib, s: ShapeValue, antiAliasing: bool, w: int, h: int,
                      buf: seq<Byte>, target: seq<Byte>, now: seq<Byte>)
    requires Lawful(m) && ShapeReady(m, s, w, h) && |now| == |buf|
    requires PaintOf(m, s, antiAliasing, Operations.DrawArea(m, s.geometry), w, h, buf, target)
    requires var draw := Clip(Operations.DrawArea(m, s.geometry), w, h);
      forall i :: 0 <= i < |buf| ==> now[i] == if InBox(i, w, h, draw) then target[i] else buf[i]
    ensures now == Paint(m, s, antiAliasing, w, h, buf)
  {
    var area := Operations.DrawArea(m, s.geometry);
    forall i | 0 <= i < |buf|
      ensures now[i] == PaintedByte(m, s, antiAliasing, area, w, h, buf[i], i)
    {
      PaintGoalByte(m, s, antiAliasing, area, w, h, buf, target, i);
    }
  }

  /** Byte i of the target is byte i of the painted buffer, and a byte
      outside the clipped box is left as it was. */
  lemma PaintGoalByte(m: MathLib, s: ShapeValue, antiAliasing: bool, area: Rect, w: int, h: int,
                      buf: seq<Byte>, target: seq<Byte>, i: int)
    requires Lawful(m) && Operations.WellFormed(s.geometry) && FillReady(m, s.color, area, w, h)
    requires PaintOf(m, s, antiAliasing, area, w, h, buf, target) && 0 <= i < |buf|
    ensures target[i] == PaintedByte(m, s, antiAliasing, area, w, h, buf[i], i)
    ensures !InBox(i, w, h, Clip(area, w, h)) ==> PaintedByte(m, s, antiAliasing, area, w, h, buf[i], i) == buf[i]
  {
    if InCanvas(i, w, h) {
      var x, y, k := PixelX(i, w), PixelY(i, w), i % 3;
      PixelOfByte(i, w);
      assert PixelFixed(m, s, antiAliasing, area, w, h, buf, target, x, y, k);
    } else if 0 < w {
      CanvasBytes(w, h, i);
    }
  }

  /** What `RenderProcess` needs of every shape of the list. */
  ghost predicate AllReady(m: MathLib, shapes: seq<ShapeValue>, w: int, h: int)
    requires Lawful(m)
  {
    forall k :: 0 <= k < |shapes| ==> ShapeReady(m, shapes[k], w, h)
  }

  /** The buffer after the shapes are painted, the first one first. */
  function PaintAll(m: MathLib, shapes: seq<ShapeValue>, antiAliasing: bool, w: int, h: int, buf: seq<Byte>): (r: seq<Byte>)
    requires Lawful(m) && AllReady(m, shapes, w, h)
    ensures |r| == |buf|
    decreases |shapes|
  {
    if shapes == [] then buf
    else PaintAll(m, shapes[1..], antiAliasing, w, h, Paint(m, shapes[0], antiAliasing, w, h, buf))
  }

  /** Painting a list and then one more shape is painting the longer
      list: the order of the list is the order of application. */
  lemma {:induction false} PaintAllSnoc(m: MathLib, shapes: seq<ShapeValue>, s: ShapeValue,
                                        antiAliasing: bool, w: int, h: int, buf: seq<Byte>)
    requires Lawful(m) && AllReady(m, shapes + [s], w, h)
    ensures AllReady(m, shapes, w, h) && ShapeReady(m, s, w, h)
    ensures PaintAll(m, shapes + [s], antiAliasing, w, h, buf) ==
      Paint(m, s, antiAliasing, w, h, PaintAll(m, shapes, antiAliasing, w, h, buf))
    decreases |shapes|
  {
    assert forall k :: 0 <= k < |shapes| ==> shapes[k] == (shapes + [s])[k];
    assert (shapes + [s])[|shapes|] == s;
    if shapes == [] {
      assert [s][1..] == [];
    } else {
      assert (shapes + [s])[1..] == shapes[1..] + [s];
      assert (shapes + [s])[0] == shapes[0];
      assert forall k :: 0 <= k < |shapes[1..] + [s]| ==> (shapes[1..] + [s])[k] == (shapes + [s])[k + 1];
      PaintAllSnoc(m, shapes[1..], s, antiAliasing, w, h, Paint(m, shapes[0], antiAliasing, w, h, buf));
    }
  }

  /** Painting the first i + 1 shapes of a list paints shape i over the
      first i. */
  lemma PaintAllPrefix(m: MathLib, shapes: seq<ShapeValue>, i: int, antiAliasing: bool, w: int, h: int, buf: seq<Byte>)
    requires Lawful(m) && AllReady(m, shapes, w, h) && 0 <= i < |shapes|
    ensures AllReady(m, shapes[..i + 1], w, h) && AllReady(m, shapes[..i], w, h)
    ensures PaintAll(m, shapes[..i + 1], antiAliasing, w, h, buf) ==
      Paint(m, shapes[i], antiAliasing, w, h, PaintAll(m, shapes[..i], antiAliasing, w, h, buf))
  {
    assert shapes[..i + 1] == shapes[..i] + [shapes[i]];
    PaintAllSnoc(m, shapes[..i], shapes[i], antiAliasing, w, h, buf);
  }

  /** A redraw never touches a byte past the image. */
  lemma {:induction false} PaintAllOutside(m: MathLib, shapes: seq<ShapeValue>, antiAliasing: bool,
                                           w: int, h: int, buf: seq<Byte>, j: int)
    requires Lawful(m) && AllReady(m, shapes, w, h)
    requires 0 <= j < |buf| && (w <= 0 || h <= 0 || j >= w * h * 3)
    ensures PaintAll(m, shapes, antiAliasing, w, h, buf)[j] == buf[j]
    decreases |shapes|
  {
    if shapes != [] {
      PaintOffCanvas(m, shapes[0], antiAliasing, w, h, buf, j);
      assert AllReady(m, shapes[1..], w, h) by {
        assert forall k :: 0 <= k < |shapes[1..]| ==> shapes[1..][k] == shapes[k + 1];
      }
      PaintAllOutside(m, shapes[1..], antiAliasing, w, h, Paint(m, shapes[0], antiAliasing, w, h, buf), j);
    }
  }

  // ---------------------------------------------------------------------
  // The renderer

  class BasicRender {
    /** The `Render` base: buffer, size and switches. */
    const base: Render
    /** `shape_count_`, set for the progress display. */
    var shapeCount: int

    constructor ()
      ensures fresh(base)
      ensures base.buffer == null && base.width == 0 && base.height == 0
      ensures !base.antiAliasing && !base.showProgress
    {
      base := new Render();
      shapeCount := 0;
    }

    /** `DrawBackground`: writes the background colour of every pixel,
        three bytes at a time through a moving position p. */
    method DrawBackground(m: MathLib, back: Colors.Color)
      requires Lawful(m) && base.buffer != null
      requires BufferFits(base.width, base.height, base.buffer.Length)
      requires BackgroundReady(m, back, base.width, base.height)
      modifies base.buffer
      ensures base.buffer[..] == Background(m, back, base.width, base.height, old(base.buffer[..]))
    {
      var buf, w, h := base.buffer, base.width, base.height;
      ghost var start := buf[..];
      ghost var goal := BackgroundGoal(m, back, w, h, start);
      var p := 0;
      var y := 0;
      while y < h
        invariant 0 <= y && (0 < h ==> y <= h) && (h <= 0 ==> y == 0)
        invariant 0 < w ==> p == y * w * 3
        invariant w <= 0 ==> p == 0
        invariant PrefixDone(buf[..], start, goal, p)
      {
        var x := 0;
        while x < w
          invariant 0 <= x && (0 < w ==> x <= w && p == (y * w + x) * 3)
          invariant w <= 0 ==> p == 0
          invariant PrefixDone(buf[..], start, goal, p)
        {
          RowMajorBounds(w, h, x, y);
          FillPixel(m, back, x, y, p, start, goal);
          p := p + 3;
          x := x + 1;
        }
        assert 0 < w ==> p == (y + 1) * w * 3;
        y := y + 1;
      }
      assert 0 < w && 0 < h ==> y == h && p == h * w * 3;
      assert w <= 0 || h <= 0 ==> p == 0;
      BackgroundGoalDone(m, back, w, h, start, goal, buf[..], p);
    }

    /** One pixel of `DrawBackground`: its three bytes take the
        background's colour there, extending the finished prefix by one
        pixel. */
    method FillPixel(m: MathLib, back: Colors.Color, x: int, y: int, p: int,
                     ghost start: seq<Byte>, ghost goal: seq<Byte>)
      requires Lawful(m) && base.buffer != null
      requires BackgroundReady(m, back, base.width, base.height)
      requires BackgroundOf(m, back, base.width, base.height, start, goal)
      requires 0 <= x < base.width && 0 <= y < base.height
      requires p == (y * base.width + x) * 3 && p + 3 <= base.buffer.Length
      requires PrefixDone(base.buffer[..], start, goal, p)
      modifies base.buffer
      ensures PrefixDone(base.buffer[..], start, goal, p + 3)
    {
      var buf, w, h := base.buffer, base.width, base.height;
      var rgba := BackgroundColor(m, back, w, h, x, y);
      BackgroundGoalPixel(m, back, w, h, start, goal, x, y);
      ghost var before := buf[..];
      buf[p] := rgba.red;
      buf[p + 1] := rgba.green;
      buf[p + 2] := rgba.blue;
      PrefixStep(before, buf[..], start, goal, p);
    }

    /** One pixel of `DrawShape`: blend the three bytes of (x, y) when the
        coverage times the colour's alpha is positive. */
    method DrawPixel(m: MathLib, s: ShapeValue, area: Rect, x: int, y: int)
      requires Lawful(m) && base.buffer != null
      requires Operations.WellFormed(s.geometry) && FillReady(m, s.color, area, base.width, base.height)
      requires InRect(Clip(area, base.width, base.height), x, y)
      requires 0 <= (y * base.width + x) * 3 && (y * base.width + x) * 3 + 3 <= base.buffer.Length
      modifies base.buffer
      ensures PixelDrawn(m, s, base.antiAliasing, area, base.width, base.height, old(base.buffer[..]), base.buffer[..], x, y)
    {
      var w, h, aa := base.width, base.height, base.antiAliasing;
      var o := (y * w + x) * 3;
      var rgba := SampleColor(m, s.color, area, x, y);
      var coverage := base.PixelVisible(m, s.geometry, x as real, y as real);
      ghost var before := base.buffer[..];
      BlendedDrawn(m, s, aa, area, w, h, before, x, y, rgba, coverage);
      BlendPixel(o, rgba, BlendFactor(coverage, rgba));
    }

    /** The three `AlphaBlendX` calls of a pixel whose bytes start at o,
        made only when alpha is positive. */
    method BlendPixel(o: int, rgba: SolidColors.SolidColor, alpha: real)
      requires base.buffer != null && 0 <= o && o + 3 <= base.buffer.Length
      modifies base.buffer
      ensures base.buffer[..] == Blended(old(base.buffer[..]), o, rgba, alpha)
    {
      if alpha > 0.0 {
        base.AlphaBlendX(o, rgba.red, alpha);
        base.AlphaBlendX(o + 1, rgba.green, alpha);
        base.AlphaBlendX(o + 2, rgba.blue, alpha);
      }
    }

    /** `DrawShape`: every pixel of the shape's box clipped to the image,
        row by row. */
    method DrawShape(m: MathLib, index: int, shape: Shape)
      requires Lawful(m) && base.buffer != null
      requires ShapeReady(m, shape.Value(), base.width, base.height)
      requires BufferFits(base.width, base.height, base.buffer.Length)
      modifies base.buffer
      ensures base.buffer[..] ==
        Paint(m, shape.Value(), base.antiAliasing, base.width, base.height, old(base.buffer[..]))
    {
      var s := shape.Value();
      var area := Operations.DrawArea(m, s.geometry);
      ghost var start := base.buffer[..];
      ghost var target := PaintGoal(m, s, base.antiAliasing, base.width, base.height, start);
      DrawBox(m, s, area, start, target);
      PaintGoalDone(m, s, base.antiAliasing, base.width, base.height, start, target, base.buffer[..]);
    }

    /** The two loops of `DrawShape` over the clipped box: afterwards the
        bytes of the box's pixels hold `target` and all others are kept. */
    method DrawBox(m: MathLib, s: ShapeValue, area: Rect, ghost start: seq<Byte>, ghost target: seq<Byte>)
      requires Lawful(m) && base.buffer != null
      requires Operations.WellFormed(s.geometry) && FillReady(m, s.color, area, base.width, base.height)
      requires BufferFits(base.width, base.height, base.buffer.Length)
      requires base.buffer[..] == start
      requires PaintOf(m, s, base.antiAliasing, area, base.width, base.height, start, target)
      modifies base.buffer
      ensures forall i :: 0 <= i < |start| ==>
        base.buffer[i] == if InBox(i, base.width, base.height, Clip(area, base.width, base.height)) then target[i] else start[i]
    {
      var buf, w, h := base.buffer, base.width, base.height;
      var draw := Clip(area, w, h);
      var y := draw.top;
      while y <= draw.bottom
        invariant draw.top <= y && (draw.top <= draw.bottom ==> y <= draw.bottom + 1)
        invariant forall i :: 0 <= i < buf.Length ==>
          buf[i] == if Done(i, w, h, draw, draw.left, y) then target[i] else start[i]
      {
        var x := draw.left;
        while x <= draw.right
          invariant draw.left <= x && (draw.left <= draw.right ==> x <= draw.right + 1)
          invariant forall i :: 0 <= i < buf.Length ==>
            buf[i] == if Done(i, w, h, draw, x, y) then target[i] else start[i]
        {
          RowMajorBounds(w, h, x, y);
          PixelFresh(buf[..], start, target, w, h, draw, x, y);
          ghost var before := buf[..];
          DrawPixel(m, s, area, x, y);
          PixelStep(m, s, base.antiAliasing, area, w, h, start, target, before, buf[..], x, y);
          WalkStep(before, buf[..], start, target, w, h, draw, x, y);
          x := x + 1;
        }
        RowStep(buf[..], start, target, w, h, draw, x, y);
        y := y + 1;
      }
      BoxDone(buf[..], start, target, w, h, draw, y);
    }

    /** `RenderProcess`: the background, then each shape in list order. */
    method RenderProcess(m: MathLib, back: Colors.Color, shapes: ShapeList)
      requires Lawful(m) && base.buffer != null
      requires BufferFits(base.width, base.height, base.buffer.Length)
      requires BackgroundReady(m, back, base.width, base.height)
      requires AllReady(m, Snapshot(shapes), base.width, base.height)
      modifies base.buffer
      ensures base.buffer[..] ==
        PaintAll(m, Snapshot(shapes), base.antiAliasing, base.width, base.height,
                 Background(m, back, base.width, base.height, old(base.buffer[..])))
    {
      var w, h := base.width, base.height;
      DrawBackground(m, back);
      ghost var painted := base.buffer[..];
      ghost var values := Snapshot(shapes);
      var index := 0;
      while index < |shapes|
        invariant 0 <= index <= |shapes|
        invariant AllReady(m, values[..index], w, h)
        invariant base.buffer[..] == PaintAll(m, values[..index], base.antiAliasing, w, h, painted)
      {
        PaintAllPrefix(m, values, index, base.antiAliasing, w, h, painted);
        DrawShape(m, index, shapes[index]);
        index := index + 1;
      }
      assert values[..index] == values;
    }

    /** `Redraw` without the progress display (the threaded path runs the
        same `RenderProcess`). */
    method Redraw(m: MathLib, back: Colors.Color, shapes: ShapeList)
      requires Lawful(m) && base.buffer != null
      requires BufferFits(base.width, base.height, base.buffer.Length)
      requires BackgroundReady(m, back, base.width, base.height)
      requires AllReady(m, Snapshot(shapes), base.width, base.height)
      modifies this, base.buffer
      ensures base.buffer[..] ==
        PaintAll(m, Snapshot(shapes), base.antiAliasing, base.width, base.height,
                 Background(m, back, base.width, base.height, old(base.buffer[..])))
      ensures base.showProgress ==> shapeCount == |shapes|
    {
      if base.showProgress {
        shapeCount := |shapes|;
      }
      RenderProcess(m, back, shapes);
    }
  }

  /** Byte i belongs to a pixel of the clipped box that the row-by-row
      walk has passed before reaching (x, y). */
  predicate Done(i: int, w: int, h: int, draw: Rect, x: int, y: int)
  {
    InCanvas(i, w, h) && InRect(draw, PixelX(i, w), PixelY(i, w)) &&
    (PixelY(i, w) < y || (PixelY(i, w) == y && PixelX(i, w) < x))
  }

  /** The first p bytes hold the target, the rest their old values. */
  predicate PrefixDone(buf: seq<Byte>, start: seq<Byte>, goal: seq<Byte>, p: int)
  {
    |buf| == |start| == |goal| &&
    forall i :: 0 <= i < |buf| ==> buf[i] == if i < p then goal[i] else start[i]
  }

  /** Writing the next three target bytes extends the prefix by three. */
  lemma PrefixStep(before: seq<Byte>, after: seq<Byte>, start: seq<Byte>, goal: seq<Byte>, p: int)
    requires PrefixDone(before, start, goal, p) && 0 <= p && p + 3 <= |before|
    requires after == before[p := goal[p]][p + 1 := goal[p + 1]][p + 2 := goal[p + 2]]
    ensures PrefixDone(after, start, goal, p + 3)
  {
  }

  /** The three bytes of the pixel at o still hold their old values. */
  predicate PixelPending(buf: seq<Byte>, start: seq<Byte>, o: int)
  {
    |buf| == |start| && 0 <= o && o + 3 <= |buf| &&
    buf[o] == start[o] && buf[o + 1] == start[o + 1] && buf[o + 2] == start[o + 2]
  }

  /** `buf` with the three bytes of the pixel at o taken from `target`. */
  function WithPixel(buf: seq<Byte>, target: seq<Byte>, o: int): (r: seq<Byte>)
    requires 0 <= o && o + 3 <= |buf| <= |target|
    ensures |r| == |buf|
  {
    buf[o := target[o]][o + 1 := target[o + 1]][o + 2 := target[o + 2]]
  }

  /** The pixel at which the walk stands is not painted yet. */
  lemma PixelFresh(buf: seq<Byte>, start: seq<Byte>, target: seq<Byte>,
                   w: int, h: int, draw: Rect, x: int, y: int)
    requires |buf| == |start| == |target| && 0 <= x < w && 0 <= y < h && (y * w + x) * 3 + 3 <= |start|
    requires forall i :: 0 <= i < |start| ==>
      buf[i] == if Done(i, w, h, draw, x, y) then target[i] else start[i]
    ensures PixelPending(buf, start, (y * w + x) * 3)
  {
    PixelBytes(w, x, y, 0);
    PixelBytes(w, x, y, 1);
    PixelBytes(w, x, y, 2);
  }

  /** The walk reaching (x + 1, y) has painted pixel (x, y) as well. */
  lemma WalkStep(before: seq<Byte>, after: seq<Byte>, start: seq<Byte>, target: seq<Byte>,
                 w: int, h: int, draw: Rect, x: int, y: int)
    requires |before| == |start| == |target|
    requires InRect(draw, x, y) && 0 <= x < w && 0 <= y < h
    requires (y * w + x) * 3 + 3 <= |start|
    requires forall i :: 0 <= i < |start| ==>
      before[i] == if Done(i, w, h, draw, x, y) then target[i] else start[i]
    requires after == WithPixel(before, target, (y * w + x) * 3)
    ensures forall i :: 0 <= i < |start| ==>
      after[i] == if Done(i, w, h, draw, x + 1, y) then target[i] else start[i]
  {
    forall i | 0 <= i < |start|
      ensures after[i] == if Done(i, w, h, draw, x + 1, y) then target[i] else start[i]
    {
      DoneStep(i, w, h, draw, x, y);
    }
  }

  /** Finishing row y is starting row y + 1. */
  lemma RowStep(buf: seq<Byte>, start: seq<Byte>, target: seq<Byte>, w: int, h: int, draw: Rect, x: int, y: int)
    requires |buf| == |start| == |target| && x > draw.right
    requires forall i :: 0 <= i < |start| ==>
      buf[i] == if Done(i, w, h, draw, x, y) then target[i] else start[i]
    ensures forall i :: 0 <= i < |start| ==>
      buf[i] == if Done(i, w, h, draw, draw.left, y + 1) then target[i] else start[i]
  {
    forall i | 0 <= i < |start|
      ensures Done(i, w, h, draw, x, y) == Done(i, w, h, draw, draw.left, y + 1)
    {
    }
  }

  /** Past the last row the walk has painted the whole box. */
  lemma BoxDone(buf: seq<Byte>, start: seq<Byte>, target: seq<Byte>, w: int, h: int, draw: Rect, y: int)
    requires |buf| == |start| == |target| && y > draw.bottom
    requires forall i :: 0 <= i < |start| ==>
      buf[i] == if Done(i, w, h, draw, draw.left, y) then target[i] else start[i]
    ensures forall i :: 0 <= i < |start| ==>
      buf[i] == if InBox(i, w, h, draw) then target[i] else start[i]
  {
    forall i | 0 <= i < |start|
      ensures Done(i, w, h, draw, draw.left, y) == InBox(i, w, h, draw)
    {
    }
  }

  /** Advancing the walk by one pixel adds exactly that pixel's bytes. */
  lemma DoneStep(i: int, w: int, h: int, draw: Rect, x: int, y: int)
    requires 0 <= i && InRect(draw, x, y) && 0 <= x < w && 0 <= y < h
    ensures var o := (y * w + x) * 3;
      Done(i, w, h, draw, x + 1, y) <==> Done(i, w, h, draw, x, y) || o <= i < o + 3
  {
    var o := (y * w + x) * 3;
    if o <= i < o + 3 {
      PixelBytes(w, x, y, i - o);
    } else if 0 < w {
      PixelOfByte(i, w);
    }
  }
}
