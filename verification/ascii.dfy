/** `cvf::container::AsciiContainer` (src/container/asciicont.h): ASCII art
    of the framebuffer. Each character stands for one column of a pair of
    rows; its luminance picks one of 70 characters, from the densest for
    black to a space for white. The C++ class derives from
    `ImageContainer`; here it holds one, whose buffer and size the export
    reads. */
module AsciiContainers {
  import opened Numeric
  import opened MathUtil
  import opened Renders
  import opened ImageContainers
  import Netpbm

  /** `grayscale_count`. */
  const GrayscaleCount: nat := 70

  /** `ascii_grayscale`: the characters from the densest to the lightest,
      written in pieces of ten. (The C++ literal ends in a NUL at index 70,
      which the export never reads, as `GlyphRange` shows.) */
  const Palette: string := "$@B%8&WM#*" + "oahkbdpqwm" + "ZO0QLCJUYX" + "zcvunxrjft"
                         + "/\\|()1{}[]" + "?-_+~<>i!l" + "I;:,\"^`'. "

  /** The palette literal holds exactly `grayscale_count` characters, none
      of them a newline. */
  lemma PaletteSize()
    ensures |Palette| == GrayscaleCount
    ensures forall k :: 0 <= k < |Palette| ==> Palette[k] != '\n'
  {
  }

  // ---------------------------------------------------------------------
  // Luminance of a pair of pixels
  // ---------------------------------------------------------------------

  /** The byte offsets `pos[]` of the two pixels behind character (x, y):
      column x of rows y and y + 1. */
  function PairPositions(w: int, x: int, y: int): seq<int>
  {
    [(y * w + x) * 3, ((y + 1) * w + x) * 3]
  }

  /** Every pixel at `ps` lies inside the buffer. */
  predicate InBuffer(buf: seq<Byte>, ps: seq<int>)
  {
    forall k :: 0 <= k < |ps| ==> 0 <= ps[k] && ps[k] + 3 <= |buf|
  }

  /** The two pixels of a character lie in a buffer that covers the image,
      as long as the pair of rows does. */
  lemma PairFits(buf: seq<Byte>, w: int, h: int, x: int, y: int)
    requires 0 <= x < w && 0 <= y && y + 1 < h && w * h * 3 <= |buf|
    ensures InBuffer(buf, PairPositions(w, x, y))
  {
    RowMajorBounds(w, h, x, y);
    RowMajorBounds(w, h, x, y + 1);
  }

  /** A pixel's contribution to `gray`: its three channels weighted by
      0.2126, 0.7152 and 0.0722, each added to the running `int` and so
      truncated on its own. */
  function PixelGray(buf: seq<Byte>, pos: int): nat
    requires 0 <= pos && pos + 3 <= |buf|
  {
    Netpbm.Weighted(buf[pos], 2126) + Netpbm.Weighted(buf[pos + 1], 7152)
      + Netpbm.Weighted(buf[pos + 2], 722)
  }

  /** A pixel contributes at most 254, and exactly the grey level that the
      PPM writer's `GetGrayscale` computes for it. */
  lemma PixelGrayRange(buf: seq<Byte>, pos: int)
    requires 0 <= pos && pos + 3 <= |buf|
    ensures PixelGray(buf, pos) <= 254
    ensures PixelGray(buf, pos) == Netpbm.Grayscale(buf, pos)
  {
    Netpbm.GrayscaleRange(buf, pos);
    var r := Netpbm.Weighted(buf[pos], 2126);
    var g := Netpbm.Weighted(buf[pos + 1], 7152);
    var b := Netpbm.Weighted(buf[pos + 2], 722);
    assert r <= 54 && g <= 182 && b <= 18;
  }

  /** `gray` after the loop over the positions `ps`. */
  function GraySum(buf: seq<Byte>, ps: seq<int>): nat
    requires InBuffer(buf, ps)
  {
    if ps == [] then 0 else GraySum(buf, ps[..|ps| - 1]) + PixelGray(buf, ps[|ps| - 1])
  }

  /** Over n pixels `gray` is at most 254·n; a pair gives at most 508. */
  lemma {:induction false} GraySumBound(buf: seq<Byte>, ps: seq<int>)
    requires InBuffer(buf, ps)
    ensures GraySum(buf, ps) <= 254 * |ps|
  {
    if ps != [] {
      GraySumBound(buf, ps[..|ps| - 1]);
      PixelGrayRange(buf, ps[|ps| - 1]);
    }
  }

  /** Adding `v * c` to a non-negative `int`, where c is a weight written
      in ten-thousandths, adds the truncated product `Weighted(v, weight)`. */
  lemma AddWeighted(g: int, v: Byte, weight: nat, c: real)
    requires 0 <= g && weight < 10000 && c == weight as real / 10000.0
    ensures Trunc(g as real + v as real * c) == g + Netpbm.Weighted(v, weight)
  {
    var p := v * weight;
    var q, s := p / 10000, p % 10000;
    assert p == 10000 * q + s;
    assert v as real * c == p as real / 10000.0;
    assert p as real / 10000.0 == q as real + s as real / 10000.0;
  }

  /** The three truncating additions for one pixel add its `PixelGray`. */
  lemma AddPixel(g: int, buf: seq<Byte>, pos: int)
    requires 0 <= g && 0 <= pos && pos + 3 <= |buf|
    ensures var g1 := Trunc(g as real + buf[pos] as real * 0.2126);
            var g2 := Trunc(g1 as real + buf[pos + 1] as real * 0.7152);
            Trunc(g2 as real + buf[pos + 2] as real * 0.0722) == g + PixelGray(buf, pos)
  {
    AddWeighted(g, buf[pos], 2126, 0.2126);
    var g1 := g + Netpbm.Weighted(buf[pos], 2126);
    AddWeighted(g1, buf[pos + 1], 7152, 0.7152);
    var g2 := g1 + Netpbm.Weighted(buf[pos + 1], 7152);
    AddWeighted(g2, buf[pos + 2], 722, 0.0722);
  }

  // ---------------------------------------------------------------------
  // From luminance to a character
  // ---------------------------------------------------------------------

  /** `LinearMapping(gray, 0, 255 * 2, 0, grayscale_count)` converted to
      the `int` index. */
  function GlyphIndex(gray: int): int
  {
    Trunc(LinearMapping(gray as real, 0.0, 510.0, 0.0, GrayscaleCount as real))
  }

  /** A non-negative ratio truncates to the integer quotient. */
  lemma TruncRatio(a: nat, d: nat)
    requires d > 0
    ensures Trunc(a as real / d as real) == a / d
  {
    var q, s := a / d, a % d;
    var f := s as real / d as real;
    assert 0.0 <= f < 1.0;
    assert a as real / d as real == q as real + f;
    var r := Trunc(a as real / d as real);
    assert r as real <= q as real + f < r as real + 1.0;
    assert q <= r < q + 1;
  }

  /** For a pair's luminance (at most 508) the index is 70·gray/510
      rounded down, so it lies in [0, 69]: a palette character, never the
      NUL after it. */
  lemma GlyphRange(gray: int)
    requires 0 <= gray <= 508
    ensures GlyphIndex(gray) == gray * 70 / 510
    ensures 0 <= GlyphIndex(gray) < |Palette|
  {
    assert LinearMapping(gray as real, 0.0, 510.0, 0.0, 70.0) == (gray * 70) as real / 510.0;
    TruncRatio(gray * 70, 510);
    PaletteSize();
  }

  /** A brighter pair never gets a denser character. */
  lemma GlyphMonotone(g1: int, g2: int)
    requires 0 <= g1 <= g2 <= 508
    ensures GlyphIndex(g1) <= GlyphIndex(g2)
  {
    GlyphRange(g1);
    GlyphRange(g2);
    var q1, q2 := g1 * 70 / 510, g2 * 70 / 510;
    assert q1 * 510 <= g1 * 70 <= g2 * 70 < (q2 + 1) * 510;
  }

  /** `GetASCII(x, y)`: the palette character for the luminance of column
      x of rows y and y + 1. */
  function Glyph(buf: seq<Byte>, w: int, h: int, x: int, y: int): (c: char)
    requires 0 <= x < w && 0 <= y && y + 1 < h && w * h * 3 <= |buf|
    ensures c != '\n'
  {
    PairFits(buf, w, h, x, y);
    var ps := PairPositions(w, x, y);
    GraySumBound(buf, ps);
    GlyphRange(GraySum(buf, ps));
    PaletteSize();
    Palette[GlyphIndex(GraySum(buf, ps))]
  }

  /** Both pixels behind character (x, y) have all three channels equal
      to v. */
  predicate Uniform(buf: seq<Byte>, w: int, h: int, x: int, y: int, v: Byte)
    requires 0 <= x < w && 0 <= y && y + 1 < h && w * h * 3 <= |buf|
  {
    PairFits(buf, w, h, x, y);
    var ps := PairPositions(w, x, y);
    forall k :: 0 <= k < 2 ==> buf[ps[k]] == v && buf[ps[k] + 1] == v && buf[ps[k] + 2] == v
  }

  /** The luminance of a pair is the sum of its two pixels'. */
  lemma PairSum(buf: seq<Byte>, ps: seq<int>)
    requires |ps| == 2 && InBuffer(buf, ps)
    ensures GraySum(buf, ps) == PixelGray(buf, ps[0]) + PixelGray(buf, ps[1])
  {
    var first := ps[..1];
    assert GraySum(buf, ps) == GraySum(buf, first) + PixelGray(buf, ps[1]);
    assert first[..0] == [] && first[0] == ps[0];
    assert GraySum(buf, first) == PixelGray(buf, ps[0]);
  }

  /** A black pair of pixels prints as `$`, the densest character, and a
      white pair as a space, the lightest. */
  lemma BlackAndWhite(buf: seq<Byte>, w: int, h: int, x: int, y: int)
    requires 0 <= x < w && 0 <= y && y + 1 < h && w * h * 3 <= |buf|
    ensures Uniform(buf, w, h, x, y, 0) ==> Glyph(buf, w, h, x, y) == '$'
    ensures Uniform(buf, w, h, x, y, 255) ==> Glyph(buf, w, h, x, y) == ' '
  {
    PairFits(buf, w, h, x, y);
    var ps := PairPositions(w, x, y);
    PairSum(buf, ps);
    var g := GraySum(buf, ps);
    GraySumBound(buf, ps);
    GlyphRange(g);
    if Uniform(buf, w, h, x, y, 0) {
      assert PixelGray(buf, ps[0]) == 0 && PixelGray(buf, ps[1]) == 0;
    }
    if Uniform(buf, w, h, x, y, 255) {
      assert PixelGray(buf, ps[0]) == 254 && PixelGray(buf, ps[1]) == 254;
    }
  }

  // ---------------------------------------------------------------------
  // The picture
  // ---------------------------------------------------------------------

  /** The first n characters of the line for rows y and y + 1 of a w×h
      image. */
  function Line(buf: seq<Byte>, w: nat, h: nat, y: nat, n: nat): (r: string)
    requires n <= w && y + 1 < h && w * h * 3 <= |buf|
    ensures |r| == n
  {
    if n == 0 then [] else Line(buf, w, h, y, n - 1) + [Glyph(buf, w, h, n - 1, y)]
  }

  /** The first n lines of the picture: line k holds rows 2k and 2k + 1 and
      ends in a newline. */
  function Lines(buf: seq<Byte>, w: nat, h: nat, n: nat): string
    requires 2 * n <= h && w * h * 3 <= |buf|
  {
    if n == 0 then [] else Lines(buf, w, h, n - 1) + Line(buf, w, h, 2 * (n - 1), w) + ['\n']
  }

  /** One more line: rows 2k and 2k + 1, then a newline. */
  lemma LinesSnoc(buf: seq<Byte>, w: nat, h: nat, k: nat)
    requires 2 * k + 2 <= h && w * h * 3 <= |buf|
    ensures Lines(buf, w, h, k + 1) == Lines(buf, w, h, k) + Line(buf, w, h, 2 * k, w) + ['\n']
  {
  }

  /** The text `ExportStream` writes for a buffer of the given size: one
      line for every whole pair of rows, so a last odd row is dropped. */
  function Picture(buf: seq<Byte>, width: int, height: int): string
    requires width * height * 3 <= |buf|
  {
    var w: nat := if width > 0 then width else 0;
    var h: nat := if height > 0 then height else 0;
    Netpbm.PlaneFits(width, height, |buf|);
    assert h * w == w * h;
    Lines(buf, w, h, h / 2)
  }

  /** No character of a line is a newline. */
  lemma {:induction false} LineChars(buf: seq<Byte>, w: nat, h: nat, y: nat, n: nat)
    requires n <= w && y + 1 < h && w * h * 3 <= |buf|
    ensures forall i :: 0 <= i < n ==> Line(buf, w, h, y, n)[i] != '\n'
  {
    if n > 0 {
      LineChars(buf, w, h, y, n - 1);
    }
  }

  /** n lines are n·(w + 1) characters, and a character is a newline
      exactly when it ends a line: at every position w modulo w + 1. */
  lemma {:induction false} LinesShape(buf: seq<Byte>, w: nat, h: nat, n: nat)
    requires 2 * n <= h && w * h * 3 <= |buf|
    ensures |Lines(buf, w, h, n)| == n * (w + 1)
    ensures forall i :: 0 <= i < |Lines(buf, w, h, n)| ==>
              (Lines(buf, w, h, n)[i] == '\n' <==> i % (w + 1) == w)
  {
    if n > 0 {
      LinesShape(buf, w, h, n - 1);
      assert n * (w + 1) == (n - 1) * (w + 1) + (w + 1);
      var prev := Lines(buf, w, h, n - 1);
      var line := Line(buf, w, h, 2 * (n - 1), w);
      var r := Lines(buf, w, h, n);
      assert r == prev + line + ['\n'];
      LineChars(buf, w, h, 2 * (n - 1), w);
      PaletteSize();
      forall i | |prev| <= i < |r|
        ensures r[i] == '\n' <==> i % (w + 1) == w
      {
        var j := i - |prev|;
        DivUnique(i, w + 1, n - 1, j);
        if j < w {
          assert r[i] == line[j];
        }
      }
    }
  }

  /** The picture of a w×h image has ⌊h/2⌋ lines of w characters, each
      followed by a newline. */
  lemma PictureShape(buf: seq<Byte>, width: int, height: int)
    requires width * height * 3 <= |buf|
    ensures var w := if width > 0 then width else 0;
            var h := if height > 0 then height else 0;
            var p := Picture(buf, width, height);
            |p| == h / 2 * (w + 1)
            && (forall i :: 0 <= i < |p| ==> (p[i] == '\n' <==> i % (w + 1) == w))
  {
    var w: nat := if width > 0 then width else 0;
    var h: nat := if height > 0 then height else 0;
    Netpbm.PlaneFits(width, height, |buf|);
    assert h * w == w * h;
    LinesShape(buf, w, h, h / 2);
  }

  class AsciiContainer {
    const image: ImageContainer

    /** A container starts with no buffer and a 0×0 size. */
    constructor ()
      ensures fresh(image) && image.buffer == [] && image.width == 0 && image.height == 0
    {
      image := new ImageContainer();
    }

    /** `ReadBuffer`, inherited: hands the framebuffer and its size to the
        container. */
    method ReadBuffer(buf: seq<Byte>, w: int, h: int)
      modifies image
      ensures image.buffer == buf && image.width == w && image.height == h
    {
      image.ReadBuffer(buf, w, h);
    }

    /** `ExportStream`: for y = 0, 2, 4, … while row y + 1 exists, the
        characters of columns 0 … width - 1, then a newline. */
    method ExportStream() returns (out: string)
      requires image.Covers()
      ensures out == Picture(image.buffer, image.width, image.height)
    {
      var buf, width, height := image.buffer, image.width, image.height;
      var w: nat := if width > 0 then width else 0;
      var h: nat := if height > 0 then height else 0;
      Netpbm.PlaneFits(width, height, |buf|);
      assert h * w == w * h;
      out := [];
      var y := 0;
      ghost var k := 0;
      while y + 1 < height
        invariant 0 <= y == 2 * k <= h
        invariant out == Lines(buf, w, h, k)
      {
        out := WriteLine(y, out);
        LinesSnoc(buf, w, h, k);
        y, k := y + 2, k + 1;
      }
    }

    /** One pass of the loop above: the characters of rows y and y + 1,
        column by column, then a newline, after the text already written. */
    method WriteLine(y: int, out0: string) returns (out: string)
      requires image.Covers() && 0 <= y && y + 1 < image.height
      ensures var w := if image.width > 0 then image.width else 0;
              out == out0 + Line(image.buffer, w, image.height, y, w) + ['\n']
    {
      var width := image.width;
      var w: nat := if width > 0 then width else 0;
      out := out0;
      var x := 0;
      while x < width
        invariant 0 <= x <= w
        invariant out == out0 + Line(image.buffer, w, image.height, y, x)
      {
        var c := GetAscii(x, y);
        out := out + [c];
        x := x + 1;
      }
      out := out + ['\n'];
    }

    /** `GetASCII(x, y)`: sums the truncated weighted channels of the two
        pixels into `gray`, maps it linearly from [0, 510] onto [0, 70] and
        indexes the palette with the truncated result. */
    method GetAscii(x: int, y: int) returns (c: char)
      requires image.Covers() && 0 <= x < image.width && 0 <= y && y + 1 < image.height
      ensures c == Glyph(image.buffer, image.width, image.height, x, y)
    {
      var buf, width := image.buffer, image.width;
      PairFits(buf, width, image.height, x, y);
      var pos := [(y * width + x) * 3, ((y + 1) * width + x) * 3];
      var gray := 0;
      for k := 0 to |pos|
        invariant gray == GraySum(buf, pos[..k])
      {
        var i := pos[k];
        assert pos[..k + 1][..k] == pos[..k];
        AddPixel(gray, buf, i);
        gray := Trunc(gray as real + buf[i] as real * 0.2126);
        gray := Trunc(gray as real + buf[i + 1] as real * 0.7152);
        gray := Trunc(gray as real + buf[i + 2] as real * 0.0722);
      }
      assert pos[..|pos|] == pos;
      GraySumBound(buf, pos);
      GlyphRange(gray);
      var i := Trunc(LinearMapping(gray as real, 0.0, 255.0 * 2.0, 0.0, GrayscaleCount as real));
      c := Palette[i];
    }
  }
}
