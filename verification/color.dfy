/** `cvf::color::Color` (src/color/color.h): a fill that is either a solid
    colour, a linear or radial gradient between two solid colours, or a
    function of the normalised position. */
module Colors {
  import opened Numeric
  import opened MathUtil
  import opened SolidColors

  datatype ColorType = Solid | Linear | Radial | Functional

  /** `std::function<SolidColor(float, float)>`. */
  type ColorFunction = (real, real) -> SolidColor

  /** The seven private fields; `colorFunc` is `None` where the source
      holds an empty `std::function`. */
  datatype Color = Color(
    colorType: ColorType,
    color1: SolidColor,
    color2: SolidColor,
    start: real,
    end: real,
    radian: real,
    colorFunc: Option<ColorFunction>)
  {
    predicate IsSolid()
    {
      colorType == Solid
    }

    /** `GetColor()`: the colour of a solid fill, transparent otherwise. */
    function GetColor(): SolidColor
    {
      if IsSolid() then color1 else SolidColors.Default()
    }
  }

  /** `Color()` and `Color(nullptr)`. */
  function Null(): Color
  {
    Color(Solid, SolidColors.Default(), SolidColors.Default(), 0.0, 0.0, 0.0, None)
  }

  /** `Color(SolidColor)`. */
  function FromSolid(c: SolidColor): Color
  {
    Color(Solid, c, SolidColors.Default(), 0.0, 0.0, 0.0, None)
  }

  /** `Color(Color24b)` and `Color(Color24b, float)`. */
  function FromRGBA(rgb: U32, alpha: real): Color
  {
    FromSolid(SolidColors.FromRGBA(rgb, alpha))
  }

  /** `Color(SolidColor, SolidColor)` and `Color(Color24b, Color24b)`: a
      vertical linear gradient over the window [0, 1]. */
  function TwoColors(c1: SolidColor, c2: SolidColor): Color
  {
    Color(Linear, c1, c2, 0.0, 1.0, PiHalf, None)
  }

  /** `Color(SolidColor, SolidColor, float)`: the angle is stored through
      `RadiansNormalize`, whose result is a bool, so it becomes 0 or 1. */
  function TwoColorsAngle(c1: SolidColor, c2: SolidColor, radian: real): Color
  {
    Color(Linear, c1, c2, 0.0, 1.0, if RadiansNormalize(radian) then 1.0 else 0.0, None)
  }

  /** The six-argument constructor, angle stored the same way. */
  function General(colorType: ColorType, c1: SolidColor, c2: SolidColor,
                   start: real, end: real, radian: real): Color
  {
    Color(colorType, c1, c2, start, end, if RadiansNormalize(radian) then 1.0 else 0.0, None)
  }

  /** `Color(ColorFunction)`. */
  function FromFunction(f: ColorFunction): Color
  {
    Color(Functional, SolidColors.Default(), SolidColors.Default(), 0.0, 0.0, 0.0, Some(f))
  }

  /** The gradient position of a Linear or Radial fill before it is mapped
      through the [start, end] window: the four axis-aligned angles are
      shortcuts, any other angle projects onto the direction with sqrt,
      atan2 and cos; the radial distance from the centre is scaled by
      1/sqrt(0.5). */
  function RawPercent(m: MathLib, c: Color, px: real, py: real): real
    requires Lawful(m)
  {
    var dx, dy := px - 0.5, py - 0.5;
    if c.colorType == Radial then
      var d := m.sqrt(dx * dx + dy * dy);
      SqrtFacts(m, 0.5, 0.5);
      LinearMapping(d, 0.0, m.sqrt(0.5), 0.0, 1.0)
    else if FloatEqual(c.radian, 0.0) then px
    else if FloatEqual(c.radian, PiHalf) then py
    else if FloatEqual(c.radian, Pi) then 1.0 - px
    else if FloatEqual(c.radian, 3.0 * PiHalf) then 1.0 - py
    else
      var rho := m.sqrt(dx * dx + dy * dy);
      var theta := m.atan2(dy, dx) - c.radian;
      rho * m.cos(theta) + 0.5
  }

  /** `SolidColor(r, g, b, a)` built from the interpolated channels: each
      channel is truncated to a byte and lies between the two end colours;
      p = 0 gives c1 back and p = 1 gives c2. */
  function Blend(c1: SolidColor, c2: SolidColor, p: real): (c: SolidColor)
    requires 0.0 <= p <= 1.0
    ensures Min(c1.red, c2.red) <= c.red <= Max(c1.red, c2.red)
    ensures Min(c1.green, c2.green) <= c.green <= Max(c1.green, c2.green)
    ensures Min(c1.blue, c2.blue) <= c.blue <= Max(c1.blue, c2.blue)
    ensures FMin(c1.alpha, c2.alpha) <= c.alpha <= FMax(c1.alpha, c2.alpha)
    ensures p == 0.0 ==> c == c1
    ensures p == 1.0 ==> c == c2
  {
    LerpBetween(c1.red as real, c2.red as real, p);
    LerpBetween(c1.green as real, c2.green as real, p);
    LerpBetween(c1.blue as real, c2.blue as real, p);
    LerpBetween(c1.alpha, c2.alpha, p);
    SolidColor(
      ToByte(Lerp(c1.red as real, c2.red as real, p)),
      ToByte(Lerp(c1.green as real, c2.green as real, p)),
      ToByte(Lerp(c1.blue as real, c2.blue as real, p)),
      Lerp(c1.alpha, c2.alpha, p))
  }

  /** The fill can be sampled at (px, py): a gradient does not hit the 0/0
      of an empty window, and a functional fill holds a function. */
  predicate Samplable(m: MathLib, c: Color, px: real, py: real)
    requires Lawful(m)
  {
    (c.colorType == Linear || c.colorType == Radial ==>
       c.start != c.end || RawPercent(m, c, px, py) != c.start) &&
    (c.colorType == Functional ==> c.colorFunc.Some?)
  }

  /** `GetColor(percent_x, percent_y)`. */
  function GetColorAt(m: MathLib, c: Color, px: real, py: real): SolidColor
    requires Lawful(m) && Samplable(m, c, px, py)
  {
    match c.colorType
    case Solid => c.color1
    case Functional => c.colorFunc.value(px, py)
    case Linear | Radial =>
      var raw := RawPercent(m, c, px, py);
      LinearMappingUnit(raw, c.start, c.end);
      Blend(c.color1, c.color2, LinearMapping(raw, c.start, c.end, 0.0, 1.0))
  }

  /** A default or null fill is solid, with start, end and angle 0... */
  lemma NullIsSolid()
    ensures Null().IsSolid() && Null().start == 0.0 && Null().end == 0.0 && Null().radian == 0.0
  {
  }

  /** ...and its colour is transparent black. */
  lemma NullIsTransparent()
    ensures !Null().GetColor().ToBool() && Null().GetColor().GetRGB() == 0
  {
    SolidColors.DefaultIsTransparentBlack();
  }

  /** `GetColor()` is the colour of a solid fill and transparent black for
      every other fill. */
  lemma GetColorCases(c: Color)
    ensures c.IsSolid() ==> c.GetColor() == c.color1
    ensures !c.IsSolid() ==> c.GetColor() == SolidColors.Default()
  {
  }

  /** A solid fill gives its colour everywhere; a functional fill gives
      what its function gives. */
  lemma SolidAndFunctional(m: MathLib, c: SolidColor, f: ColorFunction, px: real, py: real)
    requires Lawful(m)
    ensures GetColorAt(m, FromSolid(c), px, py) == c
    ensures GetColorAt(m, FromFunction(f), px, py) == f(px, py)
  {
  }

  /** The angle the normalising constructors store is 0 or 1, and it is 0
      exactly for whole turns. */
  lemma StoredRadianIsBool(c1: SolidColor, c2: SolidColor, radian: real, k: int)
    ensures TwoColorsAngle(c1, c2, radian).radian in {0.0, 1.0}
    ensures TwoColorsAngle(c1, c2, radian).radian == 0.0 <==> Fmod(radian, 2.0 * Pi) == 0.0
    ensures TwoColorsAngle(c1, c2, k as real * (2.0 * Pi)).radian == 0.0
  {
    RadiansNormalizeIsNonzeroRemainder(radian);
    RadiansNormalizeTurns(k, radian);
  }

  /** The axis shortcuts of a linear fill: angle 0 samples px, pi/2
      samples py, pi samples 1 - px and 3*pi/2 samples 1 - py. */
  lemma AxisShortcuts(m: MathLib, c: Color, px: real, py: real)
    requires Lawful(m) && c.colorType == Linear
    ensures c.radian == 0.0 ==> RawPercent(m, c, px, py) == px
    ensures c.radian == PiHalf ==> RawPercent(m, c, px, py) == py
    ensures c.radian == Pi ==> RawPercent(m, c, px, py) == 1.0 - px
    ensures c.radian == 3.0 * PiHalf ==> RawPercent(m, c, px, py) == 1.0 - py
  {
    FloatEqualReflexiveSymmetric(c.radian, c.radian);
    FloatEqualZero(c.radian);
  }

  /** The two-colour constructors give a vertical gradient whose position
      is py, clamped to [0, 1]. */
  lemma TwoColorsSamplesY(m: MathLib, c1: SolidColor, c2: SolidColor, px: real, py: real)
    requires Lawful(m)
    ensures TwoColors(c1, c2).start == 0.0 && TwoColors(c1, c2).end == 1.0
    ensures Samplable(m, TwoColors(c1, c2), px, py)
    ensures GetColorAt(m, TwoColors(c1, c2), px, py) ==
      Blend(c1, c2, if py < 0.0 then 0.0 else if py > 1.0 then 1.0 else py)
  {
    AxisShortcuts(m, TwoColors(c1, c2), px, py);
  }

  /** Every sample of a gradient lies channel by channel between the two
      end colours, and a position at or before the window start gives the
      first colour exactly. */
  lemma GradientBetween(m: MathLib, c: Color, px: real, py: real)
    requires Lawful(m) && Samplable(m, c, px, py)
    requires c.colorType == Linear || c.colorType == Radial
    ensures var s := GetColorAt(m, c, px, py);
      Min(c.color1.red, c.color2.red) <= s.red <= Max(c.color1.red, c.color2.red) &&
      Min(c.color1.green, c.color2.green) <= s.green <= Max(c.color1.green, c.color2.green) &&
      Min(c.color1.blue, c.color2.blue) <= s.blue <= Max(c.color1.blue, c.color2.blue) &&
      FMin(c.color1.alpha, c.color2.alpha) <= s.alpha <= FMax(c.color1.alpha, c.color2.alpha)
    ensures c.start < c.end && RawPercent(m, c, px, py) <= c.start ==>
      GetColorAt(m, c, px, py) == c.color1
  {
    var raw := RawPercent(m, c, px, py);
    LinearMappingUnit(raw, c.start, c.end);
    if c.start < c.end && raw <= c.start {
      LinearMappingEndpoints(c.start, c.end, 0.0, 1.0);
    }
  }

  /** A `Color` object; `operator=(SolidColor)` resets all seven fields. */
  class ColorVar {
    var colorType: ColorType
    var color1: SolidColor
    var color2: SolidColor
    var start: real
    var end: real
    var radian: real
    var colorFunc: Option<ColorFunction>

    function Value(): Color
      reads this
    {
      Color(colorType, color1, color2, start, end, radian, colorFunc)
    }

    constructor (c: Color)
      ensures Value() == c
    {
      colorType, color1, color2 := c.colorType, c.color1, c.color2;
      start, end, radian, colorFunc := c.start, c.end, c.radian, c.colorFunc;
    }

    method AssignSolid(solid: SolidColor)
      modifies this
      ensures Value() == FromSolid(solid)
      ensures Value().IsSolid() && Value().GetColor() == solid
    {
      colorType := Solid;
      color1 := solid;
      color2 := SolidColors.Default();
      start, end, radian := 0.0, 0.0, 0.0;
      colorFunc := None;
    }
  }
}
