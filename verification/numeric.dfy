/** Numeric vocabulary shared by the model: byte-sized channels, the C++
    float-to-integer conversions written out over reals, and the math
    library functions (sqrt, pow, atan2, cos, sin) whose bodies are not part
    of the model. Those are passed around as a `MathLib` value; `Lawful`
    states the few facts about them that the proofs rely on. */
module Numeric {

  datatype Option<T> = None | Some(value: T)

  /** `unsigned char`: a colour channel or a byte of the framebuffer. */
  type Byte = x: int | 0 <= x < 256

  /** `unsigned int`, the type used for packed 24-bit colours. */
  type U32 = x: int | 0 <= x < 0x1_0000_0000

  /** `(rgb >> 16) & 0xff`, `(rgb >> 8) & 0xff` and `rgb & 0xff`: the three
      channels of a packed colour. */
  function RedOf(rgb: U32): Byte { rgb / 0x10000 % 0x100 }

  function GreenOf(rgb: U32): Byte { rgb / 0x100 % 0x100 }

  function BlueOf(rgb: U32): Byte { rgb % 0x100 }

  /** `(red << 16) | (green << 8) | blue`; the three fields do not overlap,
      so the bitwise or is a sum. */
  function Pack(red: Byte, green: Byte, blue: Byte): U32
  {
    red * 0x10000 + green * 0x100 + blue
  }

  /** Unpacking a packed colour gives back its channels, and a packed colour
      never uses the top byte. */
  lemma UnpackPack(red: Byte, green: Byte, blue: Byte)
    ensures Pack(red, green, blue) < 0x100_0000
    ensures RedOf(Pack(red, green, blue)) == red
    ensures GreenOf(Pack(red, green, blue)) == green
    ensures BlueOf(Pack(red, green, blue)) == blue
  {
    var v := Pack(red, green, blue);
    DivUnique(v, 0x100, red * 0x100 + green, blue);
    DivUnique(red * 0x100 + green, 0x100, red, green);
    DivUnique(v, 0x10000, red, green * 0x100 + blue);
    DivUnique(red, 0x100, 0, red);
  }

  /** Packing the unpacked channels keeps the low 24 bits: the top byte of
      a 32-bit value is dropped. */
  lemma PackUnpack(rgb: U32)
    ensures Pack(RedOf(rgb), GreenOf(rgb), BlueOf(rgb)) == rgb % 0x100_0000
  {
    var q1, b := rgb / 0x100, rgb % 0x100;
    var q2, g := q1 / 0x100, q1 % 0x100;
    var q3, r := q2 / 0x100, q2 % 0x100;
    assert rgb == q2 * 0x10000 + (g * 0x100 + b);
    DivUnique(rgb, 0x10000, q2, g * 0x100 + b);
    assert rgb == q3 * 0x100_0000 + (r * 0x10000 + g * 0x100 + b);
    DivUnique(rgb, 0x100_0000, q3, r * 0x10000 + g * 0x100 + b);
  }

  /** Quotient and remainder are determined by x == q*m + s, 0 <= s < m. */
  lemma DivUnique(x: int, m: int, q: int, s: int)
    requires m > 0 && 0 <= s < m && x == q * m + s
    ensures x / m == q && x % m == s
  {
    var q', s' := x / m, x % m;
    var d := q' - q;
    assert d * m == s - s';
    if d >= 1 {
      MulGrow(d, m);
    } else if d <= -1 {
      MulGrow(-d, m);
    }
  }

  lemma MulGrow(k: int, m: int)
    requires k >= 1 && m > 0
    ensures k * m >= m
  {
  }

  /** `std::floorf`. */
  function Floor(x: real): (r: int)
    ensures r as real <= x < r as real + 1.0
  {
    x.Floor
  }

  /** `std::ceilf`. */
  function Ceil(x: real): (r: int)
    ensures r as real - 1.0 < x <= r as real
  {
    -((-x).Floor)
  }

  /** The floor of a value is at most the ceiling of any larger one. */
  lemma FloorBelowCeil(u: real, v: real)
    requires u <= v
    ensures Floor(u) <= Ceil(v)
  {
  }

  /** Conversion of a float to an integer type: truncation toward zero. */
  function Trunc(x: real): (r: int)
    ensures 0.0 <= x ==> r as real <= x < r as real + 1.0
    ensures x < 0.0 ==> r as real - 1.0 < x <= r as real
  {
    if x >= 0.0 then x.Floor else -((-x).Floor)
  }

  /** `static_cast<unsigned char>` of a float that lies in range. */
  function ToByte(v: real): (b: Byte)
    requires 0.0 <= v < 256.0
    ensures b as real <= v < b as real + 1.0
  {
    v.Floor
  }

  /** C++ integer division, which truncates toward zero (Dafny's `/`
      rounds toward negative infinity for a positive divisor). */
  function DivTrunc(a: int, b: int): (q: int)
    requires b > 0
    ensures a >= 0 ==> q == a / b
    ensures a < 0 ==> q == -((-a) / b)
  {
    if a >= 0 then a / b else -((-a) / b)
  }

  function Abs(x: real): real { if x < 0.0 then -x else x }

  /** x raised to a natural exponent, exactly. */
  function IntPow(x: real, n: nat): real
  {
    if n == 0 then 1.0 else x * IntPow(x, n - 1)
  }

  lemma {:induction false} IntPowNonneg(x: real, n: nat)
    requires 0.0 <= x
    ensures 0.0 <= IntPow(x, n)
  {
    if n > 0 {
      IntPowNonneg(x, n - 1);
      MulNonneg(x, IntPow(x, n - 1));
    }
  }

  /** A positive exponent of zero is zero. */
  lemma IntPowZero(n: nat)
    requires n >= 1
    ensures IntPow(0.0, n) == 0.0
  {
  }

  /** An even power does not see the sign: x^(2j) == |x|^(2j). */
  lemma {:induction false} IntPowEven(x: real, j: nat)
    ensures IntPow(x, 2 * j) == IntPow(Abs(x), 2 * j)
  {
    if j > 0 {
      IntPowEven(x, j - 1);
      assert IntPow(x, 2 * j) == x * (x * IntPow(x, 2 * (j - 1)));
      assert IntPow(Abs(x), 2 * j) == Abs(x) * (Abs(x) * IntPow(Abs(x), 2 * (j - 1)));
      var p := IntPow(x, 2 * (j - 1));
      assert x * (x * p) == (x * x) * p;
      assert Abs(x) * (Abs(x) * p) == (Abs(x) * Abs(x)) * p;
      assert x * x == Abs(x) * Abs(x);
    }
  }

  /** Powers with a positive exponent are monotone on the non-negative
      reals, strictly so. */
  lemma {:induction false} IntPowMonotone(a: real, b: real, n: nat)
    requires 0.0 <= a <= b
    ensures IntPow(a, n) <= IntPow(b, n)
    ensures n >= 1 && a < b ==> IntPow(a, n) < IntPow(b, n)
  {
    if n > 0 {
      IntPowMonotone(a, b, n - 1);
      var pa, pb := IntPow(a, n - 1), IntPow(b, n - 1);
      IntPowNonneg(a, n - 1);
      assert n == 1 ==> pb == 1.0;
      ProductMonotone(a, b, pa, pb);
    }
  }

  /** A product of non-negative factors grows with each factor. */
  lemma ProductMonotone(a: real, b: real, p: real, q: real)
    requires 0.0 <= a <= b && 0.0 <= p <= q
    ensures a * p <= b * q
    ensures a < b && 0.0 < q ==> a * p < b * q
  {
    var u, v := a * (q - p), (b - a) * q;
    MulNonneg(a, q - p);
    MulNonneg(b - a, q);
    assert b * q - a * p == u + v;
    if a < b && 0.0 < q {
      MulPos(b - a, q);
      assert 0.0 < v;
    }
  }

  /** The math-library calls of the source, which this model treats as
      given functions. */
  datatype MathLib = MathLib(
    sqrt: real -> real,
    pow: (real, real) -> real,
    atan2: (real, real) -> real,
    cos: real -> real,
    sin: real -> real)

  /** sqrt returns the non-negative square root. */
  ghost predicate SqrtLaw(m: MathLib, a: real)
  {
    a >= 0.0 ==> m.sqrt(a) >= 0.0 && m.sqrt(a) * m.sqrt(a) == a
  }

  /** pow with a positive whole exponent is repeated multiplication. */
  ghost predicate PowLaw(m: MathLib, x: real, k: nat)
  {
    k >= 1 ==> m.pow(x, k as real) == IntPow(x, k)
  }

  /** pow(a, 1/k) is the non-negative k-th root of a non-negative a. */
  ghost predicate RootLaw(m: MathLib, a: real, k: nat)
  {
    a >= 0.0 && k >= 1 ==>
      m.pow(a, 1.0 / (k as real)) >= 0.0 && IntPow(m.pow(a, 1.0 / (k as real)), k) == a
  }

  ghost predicate Lawful(m: MathLib)
  {
    (forall a :: SqrtLaw(m, a)) &&
    (forall x, k :: PowLaw(m, x, k)) &&
    (forall a, k :: RootLaw(m, a, k))
  }

  lemma MulNonneg(x: real, y: real)
    requires 0.0 <= x && 0.0 <= y
    ensures 0.0 <= x * y
  {
  }

  lemma MulPos(x: real, y: real)
    requires 0.0 < x && 0.0 < y
    ensures 0.0 < x * y
  {
  }

  /** Multiplying by a positive factor preserves order. */
  lemma ScaleOrder(x: real, y: real, b: real)
    requires b > 0.0
    ensures x <= y <==> x * b <= y * b
    ensures x < y <==> x * b < y * b
  {
    assert y * b - x * b == (y - x) * b;
    if x < y {
      MulPos(y - x, b);
    } else if y < x {
      MulPos(x - y, b);
    }
  }

  /** A quotient by a positive divisor multiplies back. */
  lemma DivMul(a: real, b: real)
    requires b > 0.0
    ensures a / b * b == a
  {
  }

  lemma SquareLess(a: real, b: real)
    requires 0.0 <= a < b
    ensures a * a < b * b
  {
    var d, e := b - a, b + a;
    assert d * e > 0.0;
    assert d * e == b * b - a * a;
  }

  /** a*a is non-negative, and positive for a != 0. */
  lemma SquareNonneg(a: real)
    ensures a * a >= 0.0
    ensures a != 0.0 ==> a * a > 0.0
  {
    if a > 0.0 {
      MulPos(a, a);
    } else if a < 0.0 {
      MulPos(-a, -a);
      assert (-a) * (-a) == a * a;
    }
  }

  /** A sum of two squares is non-negative. */
  lemma NormSquaredNonneg(a: real, b: real)
    ensures 0.0 <= a * a + b * b
  {
    MulNonneg(Abs(a), Abs(a));
    MulNonneg(Abs(b), Abs(b));
    assert a * a == Abs(a) * Abs(a);
    assert b * b == Abs(b) * Abs(b);
  }

  /** Squaring is strictly monotone on the non-negative reals. */
  lemma SquareMonotone(s: real, t: real)
    requires 0.0 <= s && 0.0 <= t
    ensures s < t <==> s * s < t * t
    ensures s <= t <==> s * s <= t * t
  {
    if s < t {
      SquareLess(s, t);
    } else if t < s {
      SquareLess(t, s);
    }
  }

  /** sqrt is 0 exactly at 0 and strictly monotone. */
  lemma SqrtFacts(m: MathLib, a: real, b: real)
    requires Lawful(m) && 0.0 <= a && 0.0 <= b
    ensures m.sqrt(a) >= 0.0 && m.sqrt(a) * m.sqrt(a) == a
    ensures m.sqrt(a) == 0.0 <==> a == 0.0
    ensures a <= b <==> m.sqrt(a) <= m.sqrt(b)
    ensures a < b <==> m.sqrt(a) < m.sqrt(b)
  {
    assert SqrtLaw(m, a) && SqrtLaw(m, b);
    SquareMonotone(m.sqrt(a), m.sqrt(b));
    if m.sqrt(a) != 0.0 {
      SquareMonotone(0.0, m.sqrt(a));
    }
  }

  /** sqrt(v) <= r  iff  v <= r*r, for a non-negative bound r. */
  lemma SqrtAtMost(m: MathLib, v: real, r: real)
    requires Lawful(m) && 0.0 <= v && 0.0 <= r
    ensures m.sqrt(v) <= r <==> v <= r * r
  {
    assert SqrtLaw(m, v);
    SquareMonotone(m.sqrt(v), r);
  }

  /** The Euclidean length of (a, b), through the library sqrt. Shapes
      take their distances through this function so that the lemmas below
      apply to their coordinate differences as given. */
  function Norm(m: MathLib, a: real, b: real): real
  {
    m.sqrt(a * a + b * b)
  }

  /** The length is non-negative and bounds each coordinate. */
  lemma NormFacts(m: MathLib, a: real, b: real)
    requires Lawful(m)
    ensures 0.0 <= Norm(m, a, b)
    ensures Abs(a) <= Norm(m, a, b) && Abs(b) <= Norm(m, a, b)
  {
    NormSquaredNonneg(a, b);
    assert SqrtLaw(m, a * a + b * b);
    assert a * a == Abs(a) * Abs(a);
    assert b * b == Abs(b) * Abs(b);
    MulNonneg(Abs(a), Abs(a));
    MulNonneg(Abs(b), Abs(b));
    SquareMonotone(Abs(a), Norm(m, a, b));
    SquareMonotone(Abs(b), Norm(m, a, b));
  }

  /** The length is at most r >= 0 exactly when a^2 + b^2 <= r^2. */
  lemma NormAtMost(m: MathLib, a: real, b: real, r: real)
    requires Lawful(m) && 0.0 <= r
    ensures Norm(m, a, b) <= r <==> a * a + b * b <= r * r
  {
    NormSquaredNonneg(a, b);
    SqrtAtMost(m, a * a + b * b, r);
  }

  /** On an axis the length is the absolute value of the coordinate. */
  lemma NormOnAxis(m: MathLib, a: real)
    requires Lawful(m)
    ensures Norm(m, a, 0.0) == Abs(a)
  {
    NormFacts(m, a, 0.0);
    NormAtMost(m, a, 0.0, Abs(a));
    assert a * a == Abs(a) * Abs(a);
  }

  /** The origin has length 0. */
  lemma NormZero(m: MathLib)
    requires Lawful(m)
    ensures Norm(m, 0.0, 0.0) == 0.0
  {
    SqrtFacts(m, 0.0, 0.0);
  }
}
