/** The `PpmContainer` class itself (src/container/ppmcont.h): the writer
    methods, step by step, proved to put out the header and body that the
    Netpbm module specifies. The C++ class derives from `ImageContainer`;
    here it holds one, whose buffer and size the writers read. */
module PpmContainers {
  import opened Numeric
  import opened Renders
  import opened ImageContainers
  import opened Netpbm

  class PpmContainer {
    const format: Format
    const binary: bool
    const image: ImageContainer

    /** The default container writes plain PPM. */
    constructor ()
      ensures format == PPM && !binary
      ensures fresh(image) && image.buffer == [] && image.width == 0 && image.height == 0
    {
      format := PPM;
      binary := false;
      image := new ImageContainer();
    }

    /** A container for one format, in the plain variant. */
    constructor WithFormat(f: Format)
      ensures format == f && !binary
      ensures fresh(image) && image.buffer == [] && image.width == 0 && image.height == 0
    {
      format := f;
      binary := false;
      image := new ImageContainer();
    }

    /** A container for one format and variant. */
    constructor WithVariant(f: Format, b: bool)
      ensures format == f && binary == b
      ensures fresh(image) && image.buffer == [] && image.width == 0 && image.height == 0
    {
      format := f;
      binary := b;
      image := new ImageContainer();
    }

    /** `ReadBuffer`, inherited: hands the framebuffer and its size to the
        container. */
    method ReadBuffer(buf: seq<Byte>, w: int, h: int)
      modifies image
      ensures image.buffer == buf && image.width == w && image.height == h
    {
      image.ReadBuffer(buf, w, h);
    }

    /** `ExportStream`: the header, then the body in the container's
        variant. */
    method ExportStream() returns (out: seq<Byte>)
      requires image.Covers()
      ensures out == Header(format, binary, image.width, image.height)
                   + Body(format, binary, image.buffer, image.width, image.height)
    {
      var header := WriteHeader();
      var body;
      if binary {
        body := WriteBodyBinary();
      } else {
        body := WriteBodyAscii();
      }
      out := header + body;
    }

    /** `WriteHeader`: the magic number, the size and, except for PBM, the
        maximum value. */
    method WriteHeader() returns (out: seq<Byte>)
      ensures out == Header(format, binary, image.width, image.height)
    {
      var magic: Byte := match format
        case PBM => '1' as int
        case PGM => '2' as int
        case PPM => '3' as int;
      if binary {
        magic := magic + 3;
      }
      out := [LetterP, magic, Newline] + Decimal(image.width) + [Space] + Decimal(image.height) + [Newline];
      if format != PBM {
        out := out + MaxValueLine;
      }
    }

    /** `GetOtsuThreshold`: builds the grey-level histogram in a 256-entry
        array, sums the grey levels, then tries every threshold from 1 to
        255, keeping the first with the largest between-class variance. */
    method GetOtsuThreshold() returns (threshold: Byte)
      requires image.Covers()
      ensures threshold == OtsuThreshold(image.buffer, image.width, image.height)
    {
      var gray := CountLevels();
      threshold := ScanLevels(gray, image.width * image.height);
    }

    /** The histogram loops of `GetOtsuThreshold`: a zeroed array, then one
        increment per pixel at its grey level. */
    method CountLevels() returns (gray: array<int>)
      requires image.Covers()
      ensures fresh(gray) && gray.Length == 256
      ensures var n := if image.width * image.height > 0 then image.width * image.height else 0;
              gray[..] == Histogram(image.buffer, n)
    {
      var buf, width, height := image.buffer, image.width, image.height;
      var n := if width * height > 0 then width * height else 0;
      gray := new int[256];
      for g := 0 to 256
        invariant forall k :: 0 <= k < g ==> gray[k] == 0
      {
        gray[g] := 0;
      }
      assert gray[..] == Histogram(buf, 0);
      var limit := width * height * 3;
      assert limit == 3 * n || (n == 0 && limit <= 0);
      var i := 0;
      ghost var j := 0;
      while i < limit
        invariant 0 <= j <= n && i == 3 * j
        invariant gray[..] == Histogram(buf, j)
        decreases limit - i
      {
        ghost var before := gray[..];
        var g := Grayscale(buf, i);
        gray[g] := gray[g] + 1;
        assert gray[..] == before[g := before[g] + 1];
        i := i + 3;
        j := j + 1;
      }
    }

    /** The summing and searching loops of `GetOtsuThreshold` over a
        histogram of `sum` pixels. */
    method ScanLevels(gray: array<int>, sum: int) returns (threshold: Byte)
      requires gray.Length == 256
      ensures threshold == Scan(gray[..], sum, LevelSumBelow(gray[..], 256), 256).0
    {
      ghost var hist := gray[..];
      var pixelSum := 0;
      for k := 0 to 256
        invariant pixelSum == LevelSumBelow(hist, k)
      {
        pixelSum := pixelSum + k * gray[k];
      }
      var lastSum, lastPixelSum := 0, 0;
      var best := 0.0;
      threshold := 0;
      for t := 1 to 256
        invariant lastSum == CountBelow(hist, t - 1) && lastPixelSum == LevelSumBelow(hist, t - 1)
        invariant (threshold, best) == Scan(hist, sum, pixelSum, t)
      {
        lastSum := lastSum + gray[t - 1];
        lastPixelSum := lastPixelSum + (t - 1) * gray[t - 1];
        var v := BetweenVariance(sum, pixelSum, lastSum, lastPixelSum);
        if v.Some? && v.value > best {
          best := v.value;
          threshold := t;
        }
      }
    }

    /** `WriteBodyASCII`: the rows in text, PBM against the Otsu
        threshold. */
    method WriteBodyAscii() returns (out: seq<Byte>)
      requires image.Covers()
      ensures out == Body(format, false, image.buffer, image.width, image.height)
    {
      var threshold := 0;
      if format == PBM {
        threshold := GetOtsuThreshold();
      }
      out := WriteRows(threshold, false);
    }

    /** `WriteBodyBinary`: PBM packs the pixels' bits, PGM and PPM write
        the rows' bytes. */
    method WriteBodyBinary() returns (out: seq<Byte>)
      requires image.Covers()
      ensures out == Body(format, true, image.buffer, image.width, image.height)
    {
      if format == PBM {
        var threshold := GetOtsuThreshold();
        out := WritePackedBits(threshold);
      } else {
        out := WriteRows(0, true);
      }
    }

    /** The row loops of both body writers: each pixel's cell in row-major
        order, and in the plain variant a newline after every row. */
    method WriteRows(threshold: Byte, raw: bool) returns (out: seq<Byte>)
      requires image.Covers() && !(raw && format == PBM)
      ensures var w := if image.width > 0 then image.width else 0;
              var h := if image.height > 0 then image.height else 0;
              h * w * 3 <= |image.buffer|
              && out == Rows(format, raw, image.buffer, threshold, w, h)
    {
      var buf, width, height := image.buffer, image.width, image.height;
      var w: nat := if width > 0 then width else 0;
      var h: nat := if height > 0 then height else 0;
      PlaneFits(width, height, |buf|);
      ghost var cells := Cells(format, raw, buf, threshold, h * w);
      NatProduct(h, w);
      out := [];
      var y := 0;
      while y < height
        invariant 0 <= y <= h && y * w <= h * w
        invariant out == JoinRows(cells, !raw, w, y)
      {
        RowSpan(w, h, y);
        var start := y * w;
        var row := WriteRow(threshold, raw, start, cells);
        JoinRowsSnoc(cells, !raw, w, y, start);
        out := out + row;
        if !raw {
          out := out + [Newline];
        }
        y := y + 1;
      }
      JoinRowsIsRows(format, raw, buf, threshold, h * w, w, h);
    }

    /** One row of the loop above: the cells of the pixels from `start`
        on. */
    method WriteRow(threshold: Byte, raw: bool, start: nat, ghost cells: seq<seq<Byte>>) returns (row: seq<Byte>)
      requires !(raw && format == PBM) && |cells| * 3 <= |image.buffer|
      requires cells == Cells(format, raw, image.buffer, threshold, |cells|)
      requires start + (if image.width > 0 then image.width else 0) <= |cells|
      ensures row == Join(cells, start, if image.width > 0 then image.width else 0)
    {
      var buf, width := image.buffer, image.width;
      var w: nat := if width > 0 then width else 0;
      row := [];
      var x := 0;
      while x < width
        invariant 0 <= x <= w
        invariant row == Join(cells, start, x)
      {
        var cell := Cell(format, raw, buf, threshold, (start + x) * 3);
        CellsAt(format, raw, buf, threshold, |cells|, start + x);
        JoinSnoc(cells, start, x);
        assert row + cell == Join(cells, start, x + 1);
        row := row + cell;
        x := x + 1;
      }
    }

    /** The raw PBM loop: each pixel's bit is or-ed into a byte from the
        most significant bit down; a full byte is written and restarted,
        and a last partial byte is written after the loops. */
    method WritePackedBits(threshold: Byte) returns (out: seq<Byte>)
      requires image.Covers()
      ensures var w := if image.width > 0 then image.width else 0;
              var h := if image.height > 0 then image.height else 0;
              h * w * 3 <= |image.buffer|
              && out == PackBits(Bits(image.buffer, threshold, h * w))
    {
      var buf, width, height := image.buffer, image.width, image.height;
      var w: nat := if width > 0 then width else 0;
      var h: nat := if height > 0 then height else 0;
      PlaneFits(width, height, |buf|);
      ghost var bits := Bits(buf, threshold, h * w);
      var temp, curPos := 0, 7;
      out := [];
      PackStart(bits);
      NatProduct(h, w);
      var y := 0;
      ghost var start := 0;
      while y < height
        invariant 0 <= y <= h && start == y * w <= h * w
        invariant Packed(bits, start, out, temp, curPos)
      {
        RowSpan(w, h, y);
        out, temp, curPos := WritePackedRow(threshold, y * w, bits, out, temp, curPos);
        y, start := y + 1, start + w;
      }
      PackFinish(bits, out, temp, curPos);
      if curPos >= 0 && curPos < 7 {
        out := out + [temp];
      }
    }

    /** One row of the loop above: the bits of the pixels from `start` on,
        or-ed into the byte being built and flushed as bytes fill. */
    method WritePackedRow(threshold: Byte, start: nat, ghost bits: seq<bool>,
                          out0: seq<Byte>, temp0: int, curPos0: int)
      returns (out: seq<Byte>, temp: int, curPos: int)
      requires 3 * |bits| <= |image.buffer| && bits == Bits(image.buffer, threshold, |bits|)
      requires start + (if image.width > 0 then image.width else 0) <= |bits|
      requires Packed(bits, start, out0, temp0, curPos0)
      ensures Packed(bits, start + (if image.width > 0 then image.width else 0), out, temp, curPos)
    {
      var buf, width := image.buffer, image.width;
      var w: nat := if width > 0 then width else 0;
      out, temp, curPos := out0, temp0, curPos0;
      var x := 0;
      ghost var j := start;
      while x < width
        invariant 0 <= x <= w && j == start + x
        invariant Packed(bits, j, out, temp, curPos)
      {
        var gray := Grayscale(buf, 3 * (start + x));
        assert bits[j] == (gray < threshold);
        if curPos > 0 {
          PackBit(bits, j, out, temp, curPos);
        } else {
          PackByte(bits, j, out, temp, curPos);
        }
        temp := BitOr(temp, ShiftLeft(Bit(gray < threshold), curPos));
        curPos := curPos - 1;
        if curPos < 0 {
          out := out + [temp];
          temp := 0;
          curPos := 7;
        }
        x, j := x + 1, j + 1;
      }
    }
  }
}
