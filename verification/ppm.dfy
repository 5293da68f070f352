/** `cvf::container::PpmContainer` (src/container/ppmcont.h): writes the
    framebuffer as a Netpbm image, PBM (bitmap), PGM (grey map) or PPM
    (pixel map), in the plain (ASCII) or the raw (binary) variant. The
    stream is modelled as the sequence of bytes written to it. */
module Netpbm {
  import opened Numeric
  import opened Renders
  import opened ImageContainers

  datatype Format = PBM | PGM | PPM

  const Newline: Byte := '\n' as int
  const Space: Byte := ' ' as int
  const Minus: Byte := '-' as int
  const Zero: Byte := '0' as int
  const One: Byte := '1' as int
  const LetterP: Byte := 'P' as int

  /** The maximum-value line that PGM and PPM headers end with. */
  const MaxValueLine: seq<Byte> := ['2' as int, '5' as int, '5' as int, '\n' as int]

  // ---------------------------------------------------------------------
  // Decimal text, as `ofs << n` writes an int
  // ---------------------------------------------------------------------

  predicate IsDigit(b: Byte)
  {
    Zero <= b < Zero + 10
  }

  /** The decimal digits of n, most significant first, without leading
      zeros ("0" for zero). */
  function Digits(n: nat): (r: seq<Byte>)
    ensures 1 <= |r|
    ensures forall i :: 0 <= i < |r| ==> IsDigit(r[i])
    ensures n >= 10 ==> r[0] != Zero
  {
    if n < 10 then [Zero + n] else Digits(n / 10) + [Zero + n % 10]
  }

  /** The value of a run of digits. */
  function DigitsValue(s: seq<Byte>): int
  {
    if s == [] then 0 else DigitsValue(s[..|s| - 1]) * 10 + (s[|s| - 1] - Zero)
  }

  /** `ofs << n`: an optional minus sign, then the digits. The text holds
      neither the space nor the newline that the writers use as separators. */
  function Decimal(n: int): (r: seq<Byte>)
    ensures 1 <= |r|
    ensures forall i :: 0 <= i < |r| ==> r[i] != Space && r[i] != Newline
  {
    if n < 0 then [Minus] + Digits(-n) else Digits(n)
  }

  /** Reads back an optionally signed run of digits. */
  function ParseDecimal(s: seq<Byte>): int
  {
    if |s| > 0 && s[0] == Minus then -DigitsValue(s[1..]) else DigitsValue(s)
  }

  lemma {:induction false} DigitsRoundTrip(n: nat)
    ensures DigitsValue(Digits(n)) == n
  {
    if n >= 10 {
      var d := Digits(n);
      assert d[..|d| - 1] == Digits(n / 10);
      DigitsRoundTrip(n / 10);
    }
  }

  /** The decimal text of every int reads back as that int. */
  lemma DecimalRoundTrip(n: int)
    ensures ParseDecimal(Decimal(n)) == n
  {
    if n < 0 {
      assert Decimal(n)[1..] == Digits(-n);
      DigitsRoundTrip(-n);
    } else {
      DigitsRoundTrip(n);
    }
  }

  // ---------------------------------------------------------------------
  // Header
  // ---------------------------------------------------------------------

  /** The digit after 'P': 1, 2 or 3 for the plain formats, 3 more for the
      raw ones. */
  function MagicDigit(f: Format, binary: bool): Byte
  {
    var plain := match f
      case PBM => '1' as int
      case PGM => '2' as int
      case PPM => '3' as int;
    plain + (if binary then 3 else 0)
  }

  /** `WriteHeader`: the magic number on its own line, then width and height
      separated by a space, then "255" for the formats with a grey or
      colour range. */
  function Header(f: Format, binary: bool, width: int, height: int): seq<Byte>
  {
    [LetterP, MagicDigit(f, binary), Newline] + Decimal(width) + [Space] + Decimal(height) + [Newline]
      + (if f == PBM then [] else MaxValueLine)
  }

  /** What a reader learns from a header. */
  datatype HeaderInfo = HeaderInfo(format: Format, binary: bool, width: int, height: int)

  /** The format and variant a magic digit stands for. */
  function MagicFormat(b: Byte): Option<(Format, bool)>
  {
    if b == '1' as int then Some((PBM, false))
    else if b == '2' as int then Some((PGM, false))
    else if b == '3' as int then Some((PPM, false))
    else if b == '4' as int then Some((PBM, true))
    else if b == '5' as int then Some((PGM, true))
    else if b == '6' as int then Some((PPM, true))
    else None
  }

  /** The bytes before the first `stop` and those after it. */
  function SplitAt(s: seq<Byte>, stop: Byte): Option<(seq<Byte>, seq<Byte>)>
  {
    if s == [] then None
    else if s[0] == stop then Some(([], s[1..]))
    else match SplitAt(s[1..], stop)
      case None => None
      case Some(parts) => Some(([s[0]] + parts.0, parts.1))
  }

  /** A reader of the headers `WriteHeader` produces: the header's fields
      and the bytes after it. */
  function ParseHeader(s: seq<Byte>): Option<(HeaderInfo, seq<Byte>)>
  {
    if |s| < 3 || s[0] != LetterP || s[2] != Newline then None
    else match MagicFormat(s[1])
      case None => None
      case Some(magic) =>
        match SplitAt(s[3..], Space)
        case None => None
        case Some(first) =>
          match SplitAt(first.1, Newline)
          case None => None
          case Some(second) =>
            var info := HeaderInfo(magic.0, magic.1, ParseDecimal(first.0), ParseDecimal(second.0));
            var rest := second.1;
            if magic.0 == PBM then Some((info, rest))
            else if |rest| >= 4 && rest[..4] == MaxValueLine then Some((info, rest[4..]))
            else None
  }

  lemma {:induction false} SplitAtToken(t: seq<Byte>, stop: Byte, rest: seq<Byte>)
    requires forall i :: 0 <= i < |t| ==> t[i] != stop
    ensures SplitAt(t + [stop] + rest, stop) == Some((t, rest))
  {
    var s := t + [stop] + rest;
    if t == [] {
      assert s[1..] == rest;
    } else {
      assert s[1..] == t[1..] + [stop] + rest;
      SplitAtToken(t[1..], stop, rest);
      assert [t[0]] + t[1..] == t;
    }
  }

  /** The header is unambiguous: a reader recovers format, variant, width
      and height, and finds the body right after it. */
  lemma HeaderRoundTrip(f: Format, binary: bool, width: int, height: int, body: seq<Byte>)
    ensures ParseHeader(Header(f, binary, width, height) + body)
      == Some((HeaderInfo(f, binary, width, height), body))
  {
    var w, h := Decimal(width), Decimal(height);
    var tail := (if f == PBM then [] else MaxValueLine) + body;
    var s := Header(f, binary, width, height) + body;
    assert s == [LetterP, MagicDigit(f, binary), Newline] + (w + [Space] + (h + [Newline] + tail));
    assert MagicFormat(s[1]) == Some((f, binary));
    assert s[3..] == w + [Space] + (h + [Newline] + tail);
    SplitAtToken(w, Space, h + [Newline] + tail);
    SplitAtToken(h, Newline, tail);
    DecimalRoundTrip(width);
    DecimalRoundTrip(height);
    if f != PBM {
      assert tail[..4] == MaxValueLine && tail[4..] == body;
    } else {
      assert tail == body;
    }
  }

  // ---------------------------------------------------------------------
  // Grey level of a pixel
  // ---------------------------------------------------------------------

  /** A channel times a weight below one, truncated to an `unsigned char`:
      the product is non-negative, so truncation is the floor, an integer
      division when the weight is written in ten-thousandths. */
  function Weighted(v: Byte, weight: nat): Byte
    requires weight < 10000
  {
    MulLess(weight, 10000, v);
    v * weight / 10000
  }

  /** `GetGrayscale(pos)`: the channels weighted by 0.2126, 0.7152 and
      0.0722 (written here in ten-thousandths), each truncated, summed as an
      `unsigned char`. */
  function Grayscale(buf: seq<Byte>, pos: int): Byte
    requires 0 <= pos && pos + 3 <= |buf|
  {
    (Weighted(buf[pos], 2126) + Weighted(buf[pos + 1], 7152)
      + Weighted(buf[pos + 2], 722)) % 256
  }

  /** The byte sum in `GetGrayscale` never wraps: it is at most 254, and it
      is the pixel's luminance rounded down by less than three. */
  lemma GrayscaleRange(buf: seq<Byte>, pos: int)
    requires 0 <= pos && pos + 3 <= |buf|
    ensures Grayscale(buf, pos) <= 254
    ensures var exact := 2126 * (buf[pos] as int) + 7152 * (buf[pos + 1] as int) + 722 * (buf[pos + 2] as int);
            10000 * Grayscale(buf, pos) <= exact < 10000 * (Grayscale(buf, pos) + 3)
  {
    var r := Weighted(buf[pos], 2126);
    var g := Weighted(buf[pos + 1], 7152);
    var b := Weighted(buf[pos + 2], 722);
    assert r <= 54 && g <= 182 && b <= 18;
    assert Grayscale(buf, pos) == r + g + b;
  }

  // ---------------------------------------------------------------------
  // Otsu's threshold
  // ---------------------------------------------------------------------

  function Total(s: seq<int>): int
  {
    if s == [] then 0 else s[0] + Total(s[1..])
  }

  lemma {:induction false} TotalIncrement(s: seq<int>, g: int)
    requires 0 <= g < |s|
    ensures Total(s[g := s[g] + 1]) == Total(s) + 1
  {
    if g > 0 {
      assert s[g := s[g] + 1][1..] == s[1..][g - 1 := s[g] + 1];
      TotalIncrement(s[1..], g - 1);
    }
  }

  lemma {:induction false} TotalZero(n: nat)
    ensures Total(seq(n, _ => 0)) == 0
  {
    if n > 0 {
      assert seq(n, _ => 0)[1..] == seq(n - 1, _ => 0);
      TotalZero(n - 1);
    }
  }

  /** The grey-level histogram of the first n pixels. */
  function Histogram(buf: seq<Byte>, n: nat): (hist: seq<int>)
    requires 3 * n <= |buf|
    ensures |hist| == 256
    ensures forall g :: 0 <= g < 256 ==> hist[g] >= 0
  {
    if n == 0 then seq(256, _ => 0)
    else
      var hist := Histogram(buf, n - 1);
      var g := Grayscale(buf, 3 * (n - 1));
      hist[g := hist[g] + 1]
  }

  /** Every pixel is counted once: the histogram's counts add up to n. */
  lemma {:induction false} HistogramTotal(buf: seq<Byte>, n: nat)
    requires 3 * n <= |buf|
    ensures Total(Histogram(buf, n)) == n
  {
    if n == 0 {
      TotalZero(256);
    } else {
      HistogramTotal(buf, n - 1);
      TotalIncrement(Histogram(buf, n - 1), Grayscale(buf, 3 * (n - 1)));
    }
  }

  /** The number of pixels darker than i. */
  function CountBelow(hist: seq<int>, i: nat): int
    requires i <= |hist|
  {
    if i == 0 then 0 else CountBelow(hist, i - 1) + hist[i - 1]
  }

  /** The sum of the grey levels of the pixels darker than i. */
  function LevelSumBelow(hist: seq<int>, i: nat): int
    requires i <= |hist|
  {
    if i == 0 then 0 else LevelSumBelow(hist, i - 1) + (i - 1) * hist[i - 1]
  }

  /** The between-class variance of the split below `lastSum` of `sum`
      pixels, whose grey levels add up to `lastPixelSum` out of `pixelSum`.
      `None` stands for the float computation's NaN (a 0/0 mean or weight)
      or, when `sum` is 0, an infinite weight: in both cases the comparison
      with the running maximum fails. */
  function BetweenVariance(sum: int, pixelSum: int, lastSum: int, lastPixelSum: int): (r: Option<real>)
    ensures r.None? <==> lastSum == 0 || lastSum == sum || sum == 0
    ensures 0 < lastSum < sum ==> r.Some? && r.value >= 0.0
  {
    if lastSum == 0 || lastSum == sum || sum == 0 then None
    else
      var w1 := lastSum as real / sum as real;
      var w2 := 1.0 - w1;
      var u1 := lastPixelSum as real / lastSum as real;
      var u2 := (pixelSum - lastPixelSum) as real / (sum - lastSum) as real;
      BetweenVarianceSign(lastSum, sum, w1, w2, u1 - u2);
      Some(w1 * w2 * (u1 - u2) * (u1 - u2))
  }

  lemma BetweenVarianceSign(lastSum: int, sum: int, w1: real, w2: real, d: real)
    requires sum != 0 && w1 == lastSum as real / sum as real && w2 == 1.0 - w1
    ensures 0 < lastSum < sum ==> w1 * w2 * d * d >= 0.0
  {
    if 0 < lastSum < sum {
      DivMul(lastSum as real, sum as real);
      assert w1 * sum as real == lastSum as real;
      assert 0.0 < w1 < 1.0;
      MulPos(w1, w2);
      MulNonneg(w1 * w2, d * d);
      SquareNonneg(d);
      assert w1 * w2 * d * d == (w1 * w2) * (d * d);
    }
  }

  /** The variance of the split at threshold k: pixels darker than k against
      the rest. */
  function SplitVariance(hist: seq<int>, sum: int, pixelSum: int, k: nat): Option<real>
    requires k <= |hist|
  {
    BetweenVariance(sum, pixelSum, CountBelow(hist, k), LevelSumBelow(hist, k))
  }

  /** Whether a split's variance exceeds `best` (a NaN never does). */
  predicate Exceeds(v: Option<real>, best: real)
  {
    v.Some? && v.value > best
  }

  /** The search loop after trying thresholds 1 .. i-1: the chosen threshold
      and the largest variance seen, both starting at 0. */
  function Scan(hist: seq<int>, sum: int, pixelSum: int, i: nat): (Byte, real)
    requires |hist| == 256 && 1 <= i <= 256
  {
    if i == 1 then (0, 0.0)
    else
      var prev := Scan(hist, sum, pixelSum, i - 1);
      var v := SplitVariance(hist, sum, pixelSum, i - 1);
      if Exceeds(v, prev.1) then (i - 1, v.value) else prev
  }

  /** What the search finds: the threshold in 1 .. i-1 with the largest
      variance, the first of equals, or 0 when no split has a positive
      variance. */
  lemma {:induction false} ScanFindsFirstMaximum(hist: seq<int>, sum: int, pixelSum: int, i: nat)
    requires |hist| == 256 && 1 <= i <= 256
    ensures var (t, best) := Scan(hist, sum, pixelSum, i);
      && 0.0 <= best
      && t < i
      && (t == 0 <==> best == 0.0)
      && (t != 0 ==> SplitVariance(hist, sum, pixelSum, t) == Some(best))
      && (forall k :: 1 <= k < i ==> !Exceeds(SplitVariance(hist, sum, pixelSum, k), best))
      && (forall k :: 1 <= k < t ==> !Exceeds(SplitVariance(hist, sum, pixelSum, k), best)
                                      && SplitVariance(hist, sum, pixelSum, k) != Some(best))
  {
    if i > 1 {
      ScanFindsFirstMaximum(hist, sum, pixelSum, i - 1);
    }
  }

  /** The threshold `GetOtsuThreshold` picks for a w×h image. The histogram
      loop steps through w·h·3 bytes, so it counts w·h pixels when that is
      positive and none otherwise, while `sum` is w·h as such. */
  function OtsuThreshold(buf: seq<Byte>, width: int, height: int): Byte
    requires width * height * 3 <= |buf|
  {
    var n := if width * height > 0 then width * height else 0;
    var hist := Histogram(buf, n);
    Scan(hist, width * height, LevelSumBelow(hist, 256), 256).0
  }

  // ---------------------------------------------------------------------
  // Bodies
  // ---------------------------------------------------------------------

  /** The numbers a plain cell writes for the pixel whose bytes start at
      pos, which are also the bytes a raw PGM or PPM cell holds: `ofs <<
      bool` writes 1 for a pixel darker than the threshold and 0 otherwise;
      PGM writes the grey level and PPM the three channels. */
  function PixelValues(f: Format, buf: seq<Byte>, threshold: Byte, pos: int): (r: seq<Byte>)
    requires 0 <= pos && pos + 3 <= |buf|
  {
    match f
    case PBM => [if Grayscale(buf, pos) < threshold then 1 else 0]
    case PGM => [Grayscale(buf, pos)]
    case PPM => buf[pos..pos + 3]
  }

  /** Each value in decimal, followed by a space. The values are bytes, so
      the text has no minus sign. */
  function Text(vals: seq<Byte>): seq<Byte>
  {
    if vals == [] then [] else Text(vals[..|vals| - 1]) + Digits(vals[|vals| - 1]) + [Space]
  }

  /** What the writers put out for the pixel whose bytes start at pos: the
      raw bytes, or their text in the plain variant. The raw PBM body is
      packed across pixels and has no per-pixel cell. */
  function Cell(f: Format, binary: bool, buf: seq<Byte>, threshold: Byte, pos: int): seq<Byte>
    requires 0 <= pos && pos + 3 <= |buf|
    requires !(binary && f == PBM)
  {
    var vals := PixelValues(f, buf, threshold, pos);
    if binary then vals else Text(vals)
  }

  /** The cells of the x pixels from pixel `start` on: a row, or the first
      x pixels of one, when `start` is the row's first pixel. */
  function Row(f: Format, binary: bool, buf: seq<Byte>, threshold: Byte, start: nat, x: nat): seq<Byte>
    requires !(binary && f == PBM)
    requires (start + x) * 3 <= |buf|
  {
    if x == 0 then []
    else Row(f, binary, buf, threshold, start, x - 1) + Cell(f, binary, buf, threshold, (start + x - 1) * 3)
  }

  /** The first y rows, each ended by a newline in the plain variant. */
  function Rows(f: Format, binary: bool, buf: seq<Byte>, threshold: Byte, w: nat, y: nat): seq<Byte>
    requires !(binary && f == PBM)
    requires y * w * 3 <= |buf|
  {
    if y == 0 then []
    else
      RowsShrink(w, y);
      Rows(f, binary, buf, threshold, w, y - 1) + Row(f, binary, buf, threshold, (y - 1) * w, w)
        + (if binary then [] else [Newline])
  }

  lemma NatProduct(a: nat, b: nat)
    ensures a * b >= 0
  {
    MulNonneg(a as real, b as real);
  }

  lemma RowsShrink(w: nat, y: nat)
    requires y > 0
    ensures 0 <= (y - 1) * w <= y * w && (y - 1) * w + w == y * w
  {
    NatProduct(y - 1, w);
  }

  /** One pixel for each bit of the raw PBM body, in row-major order: set
      when the pixel is darker than the threshold. */
  function Bits(buf: seq<Byte>, threshold: Byte, n: nat): (bits: seq<bool>)
    requires 3 * n <= |buf|
    ensures |bits| == n
  {
    seq(n, j requires 0 <= j < n => Grayscale(buf, 3 * j) < threshold)
  }

  function Pow2(k: nat): (r: nat)
    ensures r >= 1
  {
    if k == 0 then 1 else 2 * Pow2(k - 1)
  }

  function Bit(b: bool): nat
  {
    if b then 1 else 0
  }

  /** The number a run of bits spells, most significant first. */
  function Value(bits: seq<bool>): nat
  {
    if bits == [] then 0 else 2 * Value(bits[..|bits| - 1]) + Bit(bits[|bits| - 1])
  }

  lemma {:induction false} ValueBound(bits: seq<bool>)
    ensures Value(bits) < Pow2(|bits|)
  {
    if bits != [] {
      ValueBound(bits[..|bits| - 1]);
    }
  }

  /** Up to eight bits packed from the most significant bit down, the unused
      low bits clear. */
  function GroupByte(group: seq<bool>): Byte
    requires |group| <= 8
  {
    ValueBound(group);
    GroupBound(Value(group), |group|);
    Value(group) * Pow2(8 - |group|)
  }

  lemma GroupBound(v: nat, k: nat)
    requires k <= 8 && v < Pow2(k)
    ensures v * Pow2(8 - k) < 256
  {
    PowSplit(k, 8 - k);
    MulLess(v, Pow2(k), Pow2(8 - k));
    assert Pow2(8) == 256 by {
      assert Pow2(4) == 16;
    }
  }

  lemma {:induction false} PowSplit(a: nat, b: nat)
    ensures Pow2(a) * Pow2(b) == Pow2(a + b)
  {
    if a > 0 {
      PowSplit(a - 1, b);
    }
  }

  lemma MulLess(v: nat, bound: nat, m: nat)
    requires v < bound
    ensures v * m <= (bound - 1) * m < bound * m || m == 0
  {
    MulNonneg((bound - 1 - v) as real, m as real);
  }

  /** The raw PBM body: eight pixels a byte, most significant bit first,
      running across row ends; a last partial byte is padded with clear
      bits. */
  function PackBits(bits: seq<bool>): (r: seq<Byte>)
    ensures |r| == (|bits| + 7) / 8
  {
    seq((|bits| + 7) / 8, k requires 0 <= k < (|bits| + 7) / 8 =>
      GroupByte(bits[8 * k .. if 8 * k + 8 <= |bits| then 8 * k + 8 else |bits|]))
  }

  /** Bit i of a byte, counting from the most significant. */
  function BitOf(b: Byte, i: int): bool
    requires 0 <= i < 8
  {
    (b / Pow2(7 - i)) % 2 == 1
  }

  /** `a | b` on non-negative integers, one bit at a time from the
      lowest. */
  function BitOr(a: nat, b: nat): nat
    decreases a + b
  {
    if a == 0 && b == 0 then 0
    else 2 * BitOr(a / 2, b / 2) + (if a % 2 == 1 || b % 2 == 1 then 1 else 0)
  }

  lemma {:induction false} OrZero(a: nat)
    ensures BitOr(a, 0) == a
    decreases a
  {
    if a > 0 {
      OrZero(a / 2);
    }
  }

  /** Or-ing in a bit that is still clear adds it. */
  lemma {:induction false} OrClearBit(a: nat, p: nat)
    requires a % Pow2(p + 1) == 0
    ensures BitOr(a, Pow2(p)) == a + Pow2(p)
  {
    var q := a / Pow2(p + 1);
    assert a == q * Pow2(p + 1);
    assert a == 2 * (q * Pow2(p));
    DivUnique(a, 2, q * Pow2(p), 0);
    if p == 0 {
      OrZero(a / 2);
    } else {
      DivUnique(q * Pow2(p), Pow2(p), q, 0);
      DivUnique(Pow2(p), 2, Pow2(p - 1), 0);
      OrClearBit(a / 2, p - 1);
    }
  }

  /** `v << p`. */
  function ShiftLeft(v: nat, p: nat): nat
  {
    v * Pow2(p)
  }

  /** Appending a bit to a partial group or-s it in at the next free
      position, counting down from bit 7. */
  lemma GroupAppend(group: seq<bool>, b: bool)
    requires |group| < 8
    ensures GroupByte(group + [b]) == BitOr(GroupByte(group), ShiftLeft(Bit(b), 7 - |group|))
  {
    var n := |group|;
    var v, p := Value(group), Pow2(7 - n);
    assert (group + [b])[..n] == group;
    assert Value(group + [b]) == 2 * v + Bit(b);
    var a := GroupByte(group);
    assert a == v * (2 * p);
    assert GroupByte(group + [b]) == (2 * v + Bit(b)) * p;
    DoubleProduct(v, Bit(b), p);
    if b {
      DivUnique(a, 2 * p, v, 0);
      OrClearBit(a, 7 - n);
    } else {
      OrZero(a);
    }
  }

  lemma DoubleProduct(v: int, b: int, p: int)
    ensures (2 * v + b) * p == v * (2 * p) + b * p
  {
  }

  /** Packing-loop state after j pixels: the complete bytes written,
      the partial group's bits in `temp` from bit 7 down, and `curPos` at
      the next free bit. */
  ghost predicate Packed(bits: seq<bool>, j: int, out: seq<Byte>, temp: int, curPos: int)
  {
    && 0 <= j <= |bits|
    && curPos == 7 - j % 8
    && out == PackBits(bits[..j - j % 8])
    && temp == GroupByte(bits[j - j % 8 .. j])
  }

  lemma PackStart(bits: seq<bool>)
    ensures Packed(bits, 0, [], 0, 7)
  {
    assert bits[..0] == [] && bits[0..0] == [];
  }

  lemma PackedPrefix(bits: seq<bool>, m: nat)
    requires m % 8 == 0 && m + 8 <= |bits|
    ensures PackBits(bits[..m + 8]) == PackBits(bits[..m]) + [GroupByte(bits[m .. m + 8])]
  {
    var a, b := PackBits(bits[..m + 8]), PackBits(bits[..m]) + [GroupByte(bits[m .. m + 8])];
    var g := m / 8;
    assert m == 8 * g;
    assert |a| == g + 1 == |b|;
    forall k | 0 <= k < |a|
      ensures a[k] == b[k]
    {
      if k < g {
        assert 8 * k + 8 <= m;
        assert bits[..m + 8][8 * k .. 8 * k + 8] == bits[8 * k .. 8 * k + 8];
        assert bits[..m][8 * k .. 8 * k + 8] == bits[8 * k .. 8 * k + 8];
      } else {
        assert bits[..m + 8][8 * k .. 8 * k + 8] == bits[m .. m + 8];
      }
    }
  }

  /** One pixel through `temp_byte |= bit << cur_pos--` while the byte has
      room left. */
  lemma PackBit(bits: seq<bool>, j: int, out: seq<Byte>, temp: int, curPos: int)
    requires Packed(bits, j, out, temp, curPos) && j < |bits| && curPos > 0
    ensures Packed(bits, j + 1, out, BitOr(temp, ShiftLeft(Bit(bits[j]), curPos)), curPos - 1)
  {
    var q, r := j / 8, j % 8;
    assert j == 8 * q + r;
    PackAdd(bits, j, q, r);
    GroupAppend(bits[8 * q .. j], bits[j]);
  }

  /** The pixel that fills the byte: the byte is flushed, and the next one
      starts empty at bit 7. */
  lemma PackByte(bits: seq<bool>, j: int, out: seq<Byte>, temp: int, curPos: int)
    requires Packed(bits, j, out, temp, curPos) && j < |bits| && curPos == 0
    ensures var next := BitOr(temp, ShiftLeft(Bit(bits[j]), curPos));
      0 <= next < 256 && Packed(bits, j + 1, out + [next], 0, 7)
  {
    var q := j / 8;
    assert j == 8 * q + 7 && j % 8 == 7;
    var group := bits[8 * q .. j];
    var full := bits[8 * q .. j + 1];
    assert full == group + [bits[j]];
    assert temp == GroupByte(group);
    GroupAppend(group, bits[j]);
    var next := BitOr(temp, ShiftLeft(Bit(bits[j]), curPos));
    assert next == GroupByte(full);
    DivUnique(j + 1, 8, q + 1, 0);
    PackFlush(bits, 8 * q, out, full);
    assert out + [next] == PackBits(bits[.. j + 1]);
  }

  lemma PackAdd(bits: seq<bool>, j: int, q: int, r: int)
    requires 0 <= j < |bits| && j == 8 * q + r && 0 <= r < 7
    ensures (j + 1) % 8 == r + 1 && j + 1 - (j + 1) % 8 == 8 * q
    ensures bits[8 * q .. j + 1] == bits[8 * q .. j] + [bits[j]]
  {
    DivUnique(j + 1, 8, q, r + 1);
  }

  lemma PackFlush(bits: seq<bool>, start: nat, out: seq<Byte>, group: seq<bool>)
    requires start % 8 == 0 && start + 8 <= |bits|
    requires out == PackBits(bits[..start]) && group == bits[start .. start + 8]
    ensures out + [GroupByte(group)] == PackBits(bits[..start + 8])
    ensures [] == bits[start + 8 .. start + 8] && GroupByte([]) == 0
  {
    PackedPrefix(bits, start);
  }

  lemma PackFinish(bits: seq<bool>, out: seq<Byte>, temp: int, curPos: int)
    requires Packed(bits, |bits|, out, temp, curPos)
    ensures 0 <= temp < 256
    ensures 0 <= curPos < 7 ==> out + [temp] == PackBits(bits)
    ensures !(0 <= curPos < 7) ==> out == PackBits(bits)
  {
    var n := |bits|;
    var g, rest := n / 8, n % 8;
    assert n == 8 * g + rest;
    if rest == 0 {
      assert bits[..n] == bits;
    } else {
      PackLast(bits, g);
    }
  }

  lemma PackLast(bits: seq<bool>, g: nat)
    requires 8 * g < |bits| < 8 * g + 8
    ensures PackBits(bits) == PackBits(bits[..8 * g]) + [GroupByte(bits[8 * g ..])]
  {
    var a, b := PackBits(bits), PackBits(bits[..8 * g]) + [GroupByte(bits[8 * g ..])];
    assert |a| == g + 1 == |b|;
    forall k | 0 <= k < g + 1
      ensures a[k] == b[k]
    {
      if k < g {
        assert bits[..8 * g][8 * k .. 8 * k + 8] == bits[8 * k .. 8 * k + 8];
      } else {
        assert bits[8 * k .. |bits|] == bits[8 * g ..];
      }
    }
  }

  lemma {:induction false} ValueBit(s: seq<bool>, i: nat)
    requires i < |s|
    ensures (Value(s) / Pow2(|s| - 1 - i)) % 2 == Bit(s[i])
  {
    var n := |s|;
    var init := s[..n - 1];
    var v: int, b: int := Value(init), Bit(s[n - 1]);
    assert Value(s) == 2 * v + b;
    if i == n - 1 {
      DivUnique(2 * v + b, 2, v, b);
    } else {
      var p: int := Pow2(n - 2 - i);
      assert Pow2(n - 1 - i) == 2 * p;
      HalveQuotient(v, b, p);
      ValueBit(init, i);
    }
  }

  /** Dropping the lowest bit halves both sides of a quotient. */
  lemma HalveQuotient(v: int, b: int, p: int)
    requires 0 <= v && 0 <= b < 2 && p > 0
    ensures (2 * v + b) / (2 * p) == v / p
  {
    var q, r := v / p, v % p;
    assert v == q * p + r && 0 <= r < p;
    assert 2 * v + b == q * (2 * p) + (2 * r + b);
    DivUnique(2 * v + b, 2 * p, q, 2 * r + b);
  }

  lemma {:induction false} ValuePad(group: seq<bool>, z: nat)
    ensures Value(group + seq(z, _ => false)) == Value(group) * Pow2(z)
  {
    if z > 0 {
      var padded := group + seq(z, _ => false);
      var shorter := group + seq(z - 1, _ => false);
      assert padded[..|padded| - 1] == shorter;
      assert !padded[|padded| - 1];
      var v, p := Value(group), Pow2(z - 1);
      ValuePad(group, z - 1);
      assert Value(padded) == 2 * (v * p);
      TwiceProduct(v, p);
      assert Pow2(z) == 2 * p;
    } else {
      assert group + seq(0, _ => false) == group;
    }
  }

  lemma TwiceProduct(v: int, p: int)
    ensures 2 * (v * p) == v * (2 * p)
  {
  }

  /** A group's bits read back from its byte, and the padding reads as
      clear bits. */
  lemma GroupBit(group: seq<bool>, i: int)
    requires |group| <= 8 && 0 <= i < 8
    ensures BitOf(GroupByte(group), i) == (i < |group| && group[i])
  {
    var padded := group + seq(8 - |group|, _ => false);
    ValuePad(group, 8 - |group|);
    ValueBit(padded, i);
  }

  /** Unpacking the raw PBM body gives back each pixel's bit, and the bits
      past the last pixel are clear. */
  lemma UnpackPackBits(bits: seq<bool>)
    ensures forall j :: 0 <= j < |bits| ==> BitOf(PackBits(bits)[j / 8], j % 8) == bits[j]
    ensures forall j :: |bits| <= j < 8 * |PackBits(bits)| ==> !BitOf(PackBits(bits)[j / 8], j % 8)
  {
    var r := PackBits(bits);
    forall j | 0 <= j < 8 * |r|
      ensures BitOf(r[j / 8], j % 8) == (j < |bits| && bits[j])
    {
      var k, i := j / 8, j % 8;
      assert j == 8 * k + i && 0 <= k < |r|;
      var end := if 8 * k + 8 <= |bits| then 8 * k + 8 else |bits|;
      assert r[k] == GroupByte(bits[8 * k .. end]);
      GroupBit(bits[8 * k .. end], i);
    }
  }

  // ---------------------------------------------------------------------
  // What the bodies hold
  // ---------------------------------------------------------------------

  /** The raw PPM row is the row's slice of the buffer. */
  lemma {:induction false} PpmRowIsBuffer(buf: seq<Byte>, threshold: Byte, start: nat, x: nat)
    requires (start + x) * 3 <= |buf|
    ensures Row(PPM, true, buf, threshold, start, x) == buf[start * 3 .. (start + x) * 3]
  {
    if x > 0 {
      PpmRowIsBuffer(buf, threshold, start, x - 1);
      var lo, mid, hi := start * 3, (start + x - 1) * 3, (start + x) * 3;
      assert buf[lo .. mid] + buf[mid .. hi] == buf[lo .. hi];
    }
  }

  /** The raw PPM body is the buffer's first w·h·3 bytes, in order. */
  lemma {:induction false} PpmBodyIsBuffer(buf: seq<Byte>, threshold: Byte, w: nat, y: nat)
    requires y * w * 3 <= |buf|
    ensures (NatProduct(y, w); Rows(PPM, true, buf, threshold, w, y) == buf[.. y * w * 3])
  {
    NatProduct(y, w);
    if y > 0 {
      RowsShrink(w, y);
      PpmBodyIsBuffer(buf, threshold, w, y - 1);
      PpmRowIsBuffer(buf, threshold, (y - 1) * w, w);
      assert buf[.. (y - 1) * w * 3] + buf[(y - 1) * w * 3 .. y * w * 3] == buf[.. y * w * 3];
    }
  }

  /** The grey level of each of the first n pixels, in order. */
  function GrayPlane(buf: seq<Byte>, n: nat): (r: seq<Byte>)
    requires 3 * n <= |buf|
    ensures |r| == n
  {
    seq(n, j requires 0 <= j < n => Grayscale(buf, 3 * j))
  }

  lemma {:induction false} PgmRowIsGray(buf: seq<Byte>, threshold: Byte, start: nat, x: nat)
    requires (start + x) * 3 <= |buf|
    ensures Row(PGM, true, buf, threshold, start, x) == GrayPlane(buf, start + x)[start ..]
  {
    if x > 0 {
      PgmRowIsGray(buf, threshold, start, x - 1);
      var prev, cur := GrayPlane(buf, start + x - 1), GrayPlane(buf, start + x);
      assert cur[start ..] == prev[start ..] + [Grayscale(buf, (start + x - 1) * 3)];
    }
  }

  /** The raw PGM body holds one byte per pixel, that pixel's grey level. */
  lemma {:induction false} PgmBodyIsGray(buf: seq<Byte>, threshold: Byte, w: nat, y: nat)
    requires y * w * 3 <= |buf|
    ensures (NatProduct(y, w); Rows(PGM, true, buf, threshold, w, y) == GrayPlane(buf, y * w))
  {
    NatProduct(y, w);
    if y > 0 {
      RowsShrink(w, y);
      PgmBodyIsGray(buf, threshold, w, y - 1);
      PgmRowIsGray(buf, threshold, (y - 1) * w, w);
      var prev, cur := GrayPlane(buf, (y - 1) * w), GrayPlane(buf, y * w);
      assert cur == prev + cur[(y - 1) * w ..];
    }
  }

  /** How many times byte b occurs in s. */
  function Count(s: seq<Byte>, b: Byte): nat
  {
    if s == [] then 0 else Count(s[..|s| - 1], b) + (if s[|s| - 1] == b then 1 else 0)
  }

  lemma {:induction false} CountConcat(s: seq<Byte>, t: seq<Byte>, b: Byte)
    ensures Count(s + t, b) == Count(s, b) + Count(t, b)
  {
    if t != [] {
      assert (s + t)[..|s + t| - 1] == s + t[..|t| - 1];
      CountConcat(s, t[..|t| - 1], b);
    } else {
      assert s + t == s;
    }
  }

  lemma {:induction false} CountAbsent(s: seq<Byte>, b: Byte)
    requires forall i :: 0 <= i < |s| ==> s[i] != b
    ensures Count(s, b) == 0
  {
    if s != [] {
      CountAbsent(s[..|s| - 1], b);
    }
  }

  /** How many space-ended values a plain row of that many pixels holds. */
  function Values(f: Format, pixels: nat): nat
  {
    if f == PPM then 3 * pixels else pixels
  }

  /** The text of n values holds n spaces and no line break. */
  lemma {:induction false} TextCounts(vals: seq<Byte>)
    ensures Count(Text(vals), Space) == |vals|
    ensures Count(Text(vals), Newline) == 0
  {
    if vals != [] {
      var init, d := vals[..|vals| - 1], Digits(vals[|vals| - 1]);
      TextCounts(init);
      CountAbsent(d, Space);
      CountAbsent(d, Newline);
      CountConcat(Text(init), d, Space);
      CountConcat(Text(init) + d, [Space], Space);
      CountConcat(Text(init), d, Newline);
      CountConcat(Text(init) + d, [Space], Newline);
    }
  }

  lemma CellCounts(f: Format, buf: seq<Byte>, threshold: Byte, pos: int)
    requires 0 <= pos && pos + 3 <= |buf|
    ensures Count(Cell(f, false, buf, threshold, pos), Space) == Values(f, 1)
    ensures Count(Cell(f, false, buf, threshold, pos), Newline) == 0
  {
    TextCounts(PixelValues(f, buf, threshold, pos));
  }

  /** A plain row of x pixels holds x values (3·x for PPM), each followed by
      a space, and no line break. */
  lemma RowCounts(f: Format, buf: seq<Byte>, threshold: Byte, start: nat, x: nat)
    requires (start + x) * 3 <= |buf|
    ensures Count(Row(f, false, buf, threshold, start, x), Space) == Values(f, x)
    ensures Count(Row(f, false, buf, threshold, start, x), Newline) == 0
  {
    if x == 0 {
      assert Row(f, false, buf, threshold, start, x) == [];
    } else {
      RowCounts(f, buf, threshold, start, x - 1);
      RowCountsStep(f, buf, threshold, start, x);
    }
  }

  lemma RowCountsStep(f: Format, buf: seq<Byte>, threshold: Byte, start: nat, x: nat)
    requires 0 < x
    requires (start + x) * 3 <= |buf|
    ensures Count(Row(f, false, buf, threshold, start, x), Space) - Values(f, x)
         == Count(Row(f, false, buf, threshold, start, x - 1), Space) - Values(f, x - 1)
    ensures Count(Row(f, false, buf, threshold, start, x), Newline)
         == Count(Row(f, false, buf, threshold, start, x - 1), Newline)
  {
    var pos := (start + x - 1) * 3;
    CellCounts(f, buf, threshold, pos);
    CountConcat(Row(f, false, buf, threshold, start, x - 1), Cell(f, false, buf, threshold, pos), Space);
    CountConcat(Row(f, false, buf, threshold, start, x - 1), Cell(f, false, buf, threshold, pos), Newline);
  }

  /** A plain body has one line per row: its line breaks number the rows. */
  lemma {:induction false} PlainLines(f: Format, buf: seq<Byte>, threshold: Byte, w: nat, y: nat)
    requires y * w * 3 <= |buf|
    ensures Count(Rows(f, false, buf, threshold, w, y), Newline) == y
  {
    if y > 0 {
      RowsShrink(w, y);
      var prev := Rows(f, false, buf, threshold, w, y - 1);
      var row := Row(f, false, buf, threshold, (y - 1) * w, w);
      assert Rows(f, false, buf, threshold, w, y) == prev + row + [Newline];
      PlainLines(f, buf, threshold, w, y - 1);
      RowCounts(f, buf, threshold, (y - 1) * w, w);
      CountConcat(prev, row, Newline);
      CountConcat(prev + row, [Newline], Newline);
    }
  }

  /** The body each variant writes for a width×height image; a negative
      dimension leaves no rows or no columns. */
  function Body(f: Format, binary: bool, buf: seq<Byte>, width: int, height: int): seq<Byte>
    requires width * height * 3 <= |buf|
  {
    var w: nat := if width > 0 then width else 0;
    var h: nat := if height > 0 then height else 0;
    PlaneFits(width, height, |buf|);
    if binary && f == PBM then PackBits(Bits(buf, OtsuThreshold(buf, width, height), h * w))
    else Rows(f, binary, buf, if f == PBM then OtsuThreshold(buf, width, height) else 0, w, h)
  }

  /** The pixels the row loops visit fit the buffer. */
  lemma PlaneFits(width: int, height: int, size: nat)
    requires width * height * 3 <= size
    ensures var w := if width > 0 then width else 0;
            var h := if height > 0 then height else 0;
            0 <= h * w && h * w * 3 <= size && (h * w == width * height || h * w == 0)
  {
    if width > 0 && height > 0 {
      NatProduct(height, width);
      assert height * width == width * height;
    }
  }

  /** The raw PPM body is the buffer's first w·h·3 bytes. */
  lemma PpmRawBody(buf: seq<Byte>, width: int, height: int)
    requires width > 0 && height > 0 && width * height * 3 <= |buf|
    ensures Body(PPM, true, buf, width, height) == buf[.. width * height * 3]
  {
    NatProduct(height, width);
    assert height * width == width * height;
    PpmBodyIsBuffer(buf, 0, width, height);
  }

  /** The raw PGM body holds one grey byte per pixel. */
  lemma PgmRawBody(buf: seq<Byte>, width: int, height: int)
    requires width > 0 && height > 0 && width * height * 3 <= |buf|
    ensures Body(PGM, true, buf, width, height) == GrayPlane(buf, width * height)
  {
    NatProduct(height, width);
    assert height * width == width * height;
    PgmBodyIsGray(buf, 0, width, height);
  }

  /** The raw PBM body is ⌈w·h/8⌉ bytes from which each pixel's bit unpacks:
      set exactly when the pixel is darker than the Otsu threshold. */
  lemma PbmRawBody(buf: seq<Byte>, width: int, height: int)
    requires width > 0 && height > 0 && width * height * 3 <= |buf|
    ensures var body := Body(PBM, true, buf, width, height);
            var t := OtsuThreshold(buf, width, height);
            && |body| == (width * height + 7) / 8
            && forall j :: 0 <= j < width * height ==>
                 BitOf(body[j / 8], j % 8) == (Grayscale(buf, 3 * j) < t)
  {
    NatProduct(height, width);
    assert height * width == width * height;
    var t := OtsuThreshold(buf, width, height);
    var bits := Bits(buf, t, height * width);
    assert Body(PBM, true, buf, width, height) == PackBits(bits);
    UnpackPackBits(bits);
  }

  /** Line y of a plain body, without its line break. */
  function Line(f: Format, buf: seq<Byte>, threshold: Byte, width: int, height: int, y: int): seq<Byte>
    requires 0 < width && 0 <= y < height && width * height * 3 <= |buf|
  {
    RowFits(width, height, y);
    Row(f, false, buf, threshold, y * width, width)
  }

  /** The plain bodies: one line per row, each holding `width` values
      (3·width for PPM), each value followed by a space. */
  lemma PlainBody(f: Format, buf: seq<Byte>, width: int, height: int)
    requires width > 0 && height > 0 && width * height * 3 <= |buf|
    ensures Count(Body(f, false, buf, width, height), Newline) == height
    ensures var t := if f == PBM then OtsuThreshold(buf, width, height) else 0;
      forall y :: 0 <= y < height ==>
        && Count(Line(f, buf, t, width, height, y), Space) == Values(f, width)
        && Count(Line(f, buf, t, width, height, y), Newline) == 0
  {
    var t := if f == PBM then OtsuThreshold(buf, width, height) else 0;
    PlaneFits(width, height, |buf|);
    PlainLines(f, buf, t, width, height);
    forall y | 0 <= y < height
      ensures Count(Line(f, buf, t, width, height, y), Space) == Values(f, width)
      ensures Count(Line(f, buf, t, width, height, y), Newline) == 0
    {
      RowFits(width, height, y);
      RowCounts(f, buf, t, y * width, width);
    }
  }

  lemma RowFits(w: int, h: int, y: int)
    requires 0 < w && 0 <= y < h
    ensures 0 <= y * w && (y + 1) * w <= h * w
  {
    NatProduct(y, w);
    NatProduct(h - y - 1, w);
  }

  /** Row y of a w-wide image starts at pixel y·w and ends where row y+1
      starts, within the h·w pixels. */
  lemma RowSpan(w: nat, h: nat, y: nat)
    requires y < h
    ensures 0 <= y * w && y * w + w == (y + 1) * w <= h * w
  {
    NatProduct(y, w);
    NatProduct(h - y - 1, w);
  }

  // ---------------------------------------------------------------------
  // The body as a list of cells, the form the writer loops build
  // ---------------------------------------------------------------------

  /** The cells of the first n pixels, one entry per pixel. */
  function Cells(f: Format, binary: bool, buf: seq<Byte>, threshold: Byte, n: nat): (r: seq<seq<Byte>>)
    requires !(binary && f == PBM) && n * 3 <= |buf|
    ensures |r| == n
  {
    if n == 0 then [] else Cells(f, binary, buf, threshold, n - 1) + [Cell(f, binary, buf, threshold, (n - 1) * 3)]
  }

  lemma {:induction false} CellsAt(f: Format, binary: bool, buf: seq<Byte>, threshold: Byte, n: nat, k: nat)
    requires !(binary && f == PBM) && n * 3 <= |buf| && k < n
    ensures Cells(f, binary, buf, threshold, n)[k] == Cell(f, binary, buf, threshold, k * 3)
  {
    if k < n - 1 {
      CellsAt(f, binary, buf, threshold, n - 1, k);
    } else {
      assert k == n - 1;
    }
  }

  lemma CellsAll(f: Format, binary: bool, buf: seq<Byte>, threshold: Byte, n: nat)
    requires !(binary && f == PBM) && n * 3 <= |buf|
    ensures forall k :: 0 <= k < n ==> Cells(f, binary, buf, threshold, n)[k] == Cell(f, binary, buf, threshold, k * 3)
  {
    forall k | 0 <= k < n {
      CellsAt(f, binary, buf, threshold, n, k);
    }
  }

  /** The x cells from index start on, joined. */
  function Join(cells: seq<seq<Byte>>, start: nat, x: nat): seq<Byte>
    requires start + x <= |cells|
  {
    if x == 0 then [] else Join(cells, start, x - 1) + cells[start + x - 1]
  }

  lemma JoinSnoc(cells: seq<seq<Byte>>, start: nat, x: nat)
    requires start + x + 1 <= |cells|
    ensures Join(cells, start, x + 1) == Join(cells, start, x) + cells[start + x]
  {
  }

  /** The first y rows of w cells each, each ended by a newline when
      `newline` holds. */
  function JoinRows(cells: seq<seq<Byte>>, newline: bool, w: nat, y: nat): seq<Byte>
    requires y * w <= |cells|
  {
    if y == 0 then []
    else
      RowsShrink(w, y);
      JoinRows(cells, newline, w, y - 1) + Join(cells, (y - 1) * w, w) + (if newline then [Newline] else [])
  }

  lemma JoinRowsSnoc(cells: seq<seq<Byte>>, newline: bool, w: nat, y: nat, start: nat)
    requires start == y * w && start + w <= |cells|
    ensures (y + 1) * w <= |cells|
    ensures JoinRows(cells, newline, w, y + 1)
         == JoinRows(cells, newline, w, y) + Join(cells, start, w) + (if newline then [Newline] else [])
  {
    RowsShrink(w, y + 1);
  }

  /** Joining the pixels' cells gives the row. */
  lemma {:induction false} JoinIsRow(f: Format, binary: bool, buf: seq<Byte>, threshold: Byte, cells: seq<seq<Byte>>,
                                      start: nat, x: nat)
    requires !(binary && f == PBM) && |cells| * 3 <= |buf| && start + x <= |cells|
    requires forall k :: 0 <= k < |cells| ==> cells[k] == Cell(f, binary, buf, threshold, k * 3)
    ensures Join(cells, start, x) == Row(f, binary, buf, threshold, start, x)
  {
    if x > 0 {
      JoinIsRow(f, binary, buf, threshold, cells, start, x - 1);
    }
  }

  /** Joining the rows of the first n cells gives the body's rows. */
  lemma {:induction false} JoinRowsIsRows(f: Format, binary: bool, buf: seq<Byte>, threshold: Byte, n: nat, w: nat, y: nat)
    requires !(binary && f == PBM) && n * 3 <= |buf| && y * w <= n
    ensures y * w * 3 <= |buf|
    ensures JoinRows(Cells(f, binary, buf, threshold, n), !binary, w, y) == Rows(f, binary, buf, threshold, w, y)
  {
    if y > 0 {
      RowsShrink(w, y);
      JoinRowsIsRows(f, binary, buf, threshold, n, w, y - 1);
      CellsAll(f, binary, buf, threshold, n);
      JoinIsRow(f, binary, buf, threshold, Cells(f, binary, buf, threshold, n), (y - 1) * w, w);
    }
  }
}
