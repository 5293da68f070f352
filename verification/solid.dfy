/** `cvf::color::SolidColor` (src/color/solid.h): a 24-bit colour plus an
    alpha value. The value itself is a datatype; `SolidColorVar` is the
    object whose fields `SetRGBA` and the assignment operators overwrite. */
module SolidColors {
  import opened Numeric
  import opened MathUtil

  /** The smallest alpha that `IsOpaque` accepts: alpha*(1 - eps) >= 1. */
  const OpaqueThreshold: real := 8388608.0 / 8388607.0

  datatype SolidColor = SolidColor(red: Byte, green: Byte, blue: Byte, alpha: real)
  {
    /** `GetRGB`: the three channels packed as 0xRRGGBB. */
    function GetRGB(): U32
    {
      Pack(red, green, blue)
    }

    /** Alpha compared with zero against a tolerance scaled by alpha. */
    predicate IsTransparent()
    {
      alpha <= Tolerance(if alpha < 0.0 then 0.0 else alpha)
    }

    /** alpha - 1 compared with a tolerance scaled by max(alpha, 1). */
    predicate IsOpaque()
    {
      alpha - 1.0 >= Tolerance(if alpha < 1.0 then 1.0 else alpha)
    }

    /** `operator bool`. */
    predicate ToBool()
    {
      !IsTransparent()
    }

    /** `operator==(Color24b)`. */
    predicate EqualsRGB(rgb: U32)
    {
      IsOpaque() && GetRGB() == rgb
    }

    /** `operator==(std::nullptr_t)`. */
    predicate EqualsNull()
    {
      IsTransparent()
    }
  }

  /** `SolidColor()` and `SolidColor(nullptr)`: transparent black. */
  function Default(): SolidColor
  {
    SolidColor(0, 0, 0, 0.0)
  }

  /** `SolidColor(red, green, blue)`. */
  function FromChannels(red: Byte, green: Byte, blue: Byte): SolidColor
  {
    SolidColor(red, green, blue, 1.0)
  }

  /** `SolidColor(red, green, blue, alpha)`: alpha is stored as given. */
  function FromChannelsAlpha(red: Byte, green: Byte, blue: Byte, alpha: real): SolidColor
  {
    SolidColor(red, green, blue, alpha)
  }

  /** The colour `SetRGBA(rgb, alpha)` leaves behind: the unpacked
      channels, |alpha|, replaced by exactly 1 when that is opaque. Every
      colour it produces is non-negative in alpha and not opaque. */
  function FromRGBA(rgb: U32, alpha: real): (c: SolidColor)
    ensures c.alpha >= 0.0
    ensures !c.IsOpaque()
  {
    var c := SolidColor(RedOf(rgb), GreenOf(rgb), BlueOf(rgb), Abs(alpha));
    if c.IsOpaque() then c.(alpha := 1.0) else c
  }

  /** `SolidColor(Color24b rgb)` and `operator=(Color24b)`. */
  function FromRGB(rgb: U32): SolidColor
  {
    FromRGBA(rgb, 1.0)
  }

  /** The default and null constructors give transparent black. */
  lemma DefaultIsTransparentBlack()
    ensures Default().GetRGB() == 0 && Default().alpha == 0.0
    ensures Default().EqualsNull() && !Default().ToBool()
  {
    var d := Default();
    assert d.alpha == 0.0;
    TransparentIff(d);
    assert d.GetRGB() == Pack(0, 0, 0) == 0;
  }

  /** The three-channel constructor gives alpha exactly 1 (a visible
      colour); the four-channel one stores alpha as given. */
  lemma ChannelConstructors(red: Byte, green: Byte, blue: Byte, alpha: real)
    ensures FromChannels(red, green, blue).alpha == 1.0
    ensures FromChannels(red, green, blue).ToBool()
    ensures FromChannelsAlpha(red, green, blue, alpha).alpha == alpha
    ensures FromChannelsAlpha(red, green, blue, alpha).GetRGB() == FromChannels(red, green, blue).GetRGB()
  {
    TransparentIff(FromChannels(red, green, blue));
  }

  /** Constructing from a packed value keeps its low 24 bits, in the right
      channels. */
  lemma RGBRoundTrip(rgb: U32, alpha: real)
    ensures FromRGBA(rgb, alpha).GetRGB() == rgb % 0x100_0000
    ensures FromRGBA(rgb, alpha).red == rgb / 0x10000 % 0x100
    ensures FromRGBA(rgb, alpha).green == rgb / 0x100 % 0x100
    ensures FromRGBA(rgb, alpha).blue == rgb % 0x100
  {
    PackUnpack(rgb);
  }

  /** And the other way: repacking a colour's channels reproduces them. */
  lemma ChannelsRoundTrip(red: Byte, green: Byte, blue: Byte)
    ensures FromRGB(FromChannels(red, green, blue).GetRGB()) == FromChannels(red, green, blue)
  {
    UnpackPack(red, green, blue);
  }

  /** `IsTransparent` holds exactly for alpha <= 0; so `operator bool` is
      alpha > 0 and `== nullptr` is alpha <= 0. */
  lemma TransparentIff(c: SolidColor)
    ensures c.IsTransparent() <==> c.alpha <= 0.0
    ensures c.ToBool() <==> c.alpha > 0.0
    ensures c.EqualsNull() <==> c.alpha <= 0.0
  {
  }

  /** `IsOpaque` holds exactly from 1/(1 - eps) upwards; in particular it
      is false at alpha == 1. */
  lemma OpaqueIff(c: SolidColor)
    ensures c.IsOpaque() <==> c.alpha >= OpaqueThreshold
    ensures c.alpha == 1.0 ==> !c.IsOpaque()
  {
  }

  /** The alpha `SetRGBA` stores: |alpha|, or 1 from the threshold up. */
  lemma SnapAlpha(rgb: U32, alpha: real)
    ensures Abs(alpha) >= OpaqueThreshold ==> FromRGBA(rgb, alpha).alpha == 1.0
    ensures Abs(alpha) < OpaqueThreshold ==> FromRGBA(rgb, alpha).alpha == Abs(alpha)
  {
    OpaqueIff(SolidColor(RedOf(rgb), GreenOf(rgb), BlueOf(rgb), Abs(alpha)));
  }

  /** Assigning nullptr is `SetRGBA(0, 0)`, which is transparent black;
      assigning a packed value gives alpha 1. */
  lemma AssignmentValues(rgb: U32)
    ensures FromRGBA(0, 0.0) == Default()
    ensures FromRGB(rgb).alpha == 1.0 && FromRGB(rgb).ToBool()
  {
    SnapAlpha(rgb, 1.0);
  }

  /** `operator==(Color24b)` is never true of a colour built by `SetRGBA`,
      since the snap leaves alpha at most 1 and `IsOpaque` is false there.
      So `SolidColor(rgb) == rgb` is false for every rgb. */
  lemma EqualsRGBNeverAfterSet(rgb: U32, alpha: real, other: U32)
    ensures !FromRGBA(rgb, alpha).EqualsRGB(other)
    ensures !FromRGB(rgb).EqualsRGB(rgb % 0x100_0000)
  {
  }

  /** The evident intent of `IsOpaque`: alpha is 1 or above, up to the
      scaled tolerance (the sign of the comparison flipped). */
  predicate IsOpaqueIntended(c: SolidColor)
  {
    1.0 - c.alpha <= Tolerance(if c.alpha < 1.0 then 1.0 else c.alpha)
  }

  /** `operator==(Color24b)` with the intended opacity test. */
  predicate EqualsRGBIntended(c: SolidColor, rgb: U32)
  {
    IsOpaqueIntended(c) && c.GetRGB() == rgb
  }

  /** With the intended test, a colour built from rgb compares equal to
      exactly the low 24 bits of rgb, and never for alpha at or below 1/2. */
  lemma EqualsRGBIntendedRoundTrip(rgb: U32, other: U32, alpha: real)
    ensures EqualsRGBIntended(FromRGB(rgb), other) <==> other == rgb % 0x100_0000
    ensures Abs(alpha) <= 0.5 ==> !EqualsRGBIntended(FromRGBA(rgb, alpha), other)
  {
    RGBRoundTrip(rgb, 1.0);
    SnapAlpha(rgb, 1.0);
    SnapAlpha(rgb, alpha);
  }

  /** A `SolidColor` object: `SetRGBA` and the two assignment operators
      overwrite its four fields. */
  class SolidColorVar {
    var red: Byte
    var green: Byte
    var blue: Byte
    var alpha: real

    function Value(): SolidColor
      reads this
    {
      SolidColor(red, green, blue, alpha)
    }

    constructor (c: SolidColor)
      ensures Value() == c
    {
      red, green, blue, alpha := c.red, c.green, c.blue, c.alpha;
    }

    /** Unpack rgb into the channels, store |alpha|, then snap an opaque
        alpha to 1. */
    method SetRGBA(rgb: U32, a: real)
      modifies this
      ensures Value() == FromRGBA(rgb, a)
    {
      red := RedOf(rgb);
      green := GreenOf(rgb);
      blue := BlueOf(rgb);
      alpha := Abs(a);
      if Value().IsOpaque() {
        alpha := 1.0;
      }
    }

    /** `operator=(Color24b)`. */
    method AssignRGB(rgb: U32)
      modifies this
      ensures Value() == FromRGB(rgb)
      ensures alpha == 1.0 && Value().GetRGB() == rgb % 0x100_0000
    {
      SetRGBA(rgb, 1.0);
      AssignmentValues(rgb);
      RGBRoundTrip(rgb, 1.0);
    }

    /** `operator=(std::nullptr_t)`. */
    method AssignNull()
      modifies this
      ensures Value() == Default()
    {
      SetRGBA(0, 0.0);
      AssignmentValues(0);
    }
  }
}
