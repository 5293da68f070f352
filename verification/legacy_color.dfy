/** `cvf::Color` (src/color.h): the older copy of the solid colour struct,
    still used by `Canvas`. It is modelled as written, on its own, and then
    shown to behave exactly like `SolidColors.SolidColor`. */
module LegacyColors {
  import opened Numeric
  import opened MathUtil
  import SolidColors

  datatype Color = Color(red: Byte, green: Byte, blue: Byte, alpha: real)
  {
    function GetRGB(): U32
    {
      Pack(red, green, blue)
    }

    predicate IsTransparent()
    {
      alpha <= Tolerance(if alpha < 0.0 then 0.0 else alpha)
    }

    predicate IsOpaque()
    {
      alpha - 1.0 >= Tolerance(if alpha < 1.0 then 1.0 else alpha)
    }

    /** `operator bool`. */
    predicate ToBool()
    {
      !IsTransparent()
    }

    /** `operator==(Color24b)`. */
    predicate EqualsRGB(rgb: U32)
    {
      IsOpaque() && GetRGB() == rgb
    }

    /** `operator==(std::nullptr_t)`. */
    predicate EqualsNull()
    {
      IsTransparent()
    }
  }

  /** `Color()` and `Color(nullptr)`. */
  function Default(): Color
  {
    Color(0, 0, 0, 0.0)
  }

  /** `Color(red, green, blue)`. */
  function FromChannels(red: Byte, green: Byte, blue: Byte): Color
  {
    Color(red, green, blue, 1.0)
  }

  /** `Color(red, green, blue, alpha)`. */
  function FromChannelsAlpha(red: Byte, green: Byte, blue: Byte, alpha: real): Color
  {
    Color(red, green, blue, alpha)
  }

  /** What `SetRGBA(rgb, alpha)` stores (`std::fabs` then the snap). */
  function FromRGBA(rgb: U32, alpha: real): Color
  {
    var c := Color(RedOf(rgb), GreenOf(rgb), BlueOf(rgb), Abs(alpha));
    if c.IsOpaque() then c.(alpha := 1.0) else c
  }

  /** `Color(Color24b rgb)` and `operator=(Color24b)`. */
  function FromRGB(rgb: U32): Color
  {
    FromRGBA(rgb, 1.0)
  }

  /** The same four fields read as the newer struct. */
  function ToSolid(c: Color): SolidColors.SolidColor
  {
    SolidColors.SolidColor(c.red, c.green, c.blue, c.alpha)
  }

  /** The two copies agree on every constructor... */
  lemma ConstructorsAgree(rgb: U32, alpha: real, red: Byte, green: Byte, blue: Byte)
    ensures ToSolid(FromRGBA(rgb, alpha)) == SolidColors.FromRGBA(rgb, alpha)
    ensures ToSolid(FromRGB(rgb)) == SolidColors.FromRGB(rgb)
    ensures ToSolid(Default()) == SolidColors.Default()
    ensures ToSolid(FromChannels(red, green, blue)) == SolidColors.FromChannels(red, green, blue)
    ensures ToSolid(FromChannelsAlpha(red, green, blue, alpha)) == SolidColors.FromChannelsAlpha(red, green, blue, alpha)
  {
  }

  /** ...and on every query and comparison. */
  lemma QueriesAgree(c: Color, rgb: U32)
    ensures c.GetRGB() == ToSolid(c).GetRGB()
    ensures c.IsTransparent() == ToSolid(c).IsTransparent()
    ensures c.IsOpaque() == ToSolid(c).IsOpaque()
    ensures c.ToBool() == ToSolid(c).ToBool()
    ensures c.EqualsRGB(rgb) == ToSolid(c).EqualsRGB(rgb)
    ensures c.EqualsNull() == ToSolid(c).EqualsNull()
  {
  }

  /** Transparent black by default and after `operator=(nullptr)`. */
  lemma DefaultAndNull()
    ensures Default().GetRGB() == 0 && Default().EqualsNull() && !Default().ToBool()
    ensures FromRGBA(0, 0.0) == Default()
  {
    ConstructorsAgree(0, 0.0, 0, 0, 0);
    QueriesAgree(Default(), 0);
    SolidColors.DefaultIsTransparentBlack();
    SolidColors.AssignmentValues(0);
  }

  /** Alpha 1 and the unpacked channels after `operator=(rgb)`. */
  lemma AssignRGBValue(rgb: U32)
    ensures FromRGB(rgb).alpha == 1.0 && FromRGB(rgb).ToBool()
    ensures FromRGB(rgb).GetRGB() == rgb % 0x100_0000
  {
    ConstructorsAgree(rgb, 1.0, 0, 0, 0);
    QueriesAgree(FromRGB(rgb), rgb);
    SolidColors.AssignmentValues(rgb);
    SolidColors.RGBRoundTrip(rgb, 1.0);
  }

  /** The stored alpha is |alpha|, snapped to 1 from 1/(1 - eps) upwards,
      and so never negative; `operator bool` is alpha > 0. */
  lemma AlphaFacts(c: Color, rgb: U32, alpha: real)
    ensures FromRGBA(rgb, alpha).alpha >= 0.0
    ensures Abs(alpha) >= SolidColors.OpaqueThreshold ==> FromRGBA(rgb, alpha).alpha == 1.0
    ensures Abs(alpha) < SolidColors.OpaqueThreshold ==> FromRGBA(rgb, alpha).alpha == Abs(alpha)
    ensures c.ToBool() <==> c.alpha > 0.0
    ensures c.EqualsNull() <==> c.alpha <= 0.0
    ensures c.IsOpaque() <==> c.alpha >= SolidColors.OpaqueThreshold
  {
    ConstructorsAgree(rgb, alpha, 0, 0, 0);
    QueriesAgree(c, rgb);
    SolidColors.SnapAlpha(rgb, alpha);
    SolidColors.TransparentIff(ToSolid(c));
    SolidColors.OpaqueIff(ToSolid(c));
  }

  /** A `cvf::Color` object whose fields `SetRGBA` and the assignment
      operators overwrite. */
  class ColorVar {
    var red: Byte
    var green: Byte
    var blue: Byte
    var alpha: real

    function Value(): Color
      reads this
    {
      Color(red, green, blue, alpha)
    }

    constructor (c: Color)
      ensures Value() == c
    {
      red, green, blue, alpha := c.red, c.green, c.blue, c.alpha;
    }

    method SetRGBA(rgb: U32, a: real)
      modifies this
      ensures Value() == FromRGBA(rgb, a)
    {
      red := RedOf(rgb);
      green := GreenOf(rgb);
      blue := BlueOf(rgb);
      alpha := Abs(a);
      if Value().IsOpaque() {
        alpha := 1.0;
      }
    }

    /** `operator=(Color24b)`. */
    method AssignRGB(rgb: U32)
      modifies this
      ensures Value() == FromRGB(rgb)
      ensures alpha == 1.0 && Value().GetRGB() == rgb % 0x100_0000
    {
      SetRGBA(rgb, 1.0);
      AssignRGBValue(rgb);
    }

    /** `operator=(std::nullptr_t)`. */
    method AssignNull()
      modifies this
      ensures Value() == Default()
    {
      SetRGBA(0, 0.0);
      DefaultAndNull();
    }
  }
}
