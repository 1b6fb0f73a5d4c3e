/**
 * The state of a colour object as a value: the seven fields of the class,
 * where an absent representation is PHP's null. A colour keeps its RGB
 * components, its HSL components, or both; a getter that needs the missing
 * representation computes it and caches it in the fields.
 */
module ColourState {
  import opened Outcomes
  import opened PhpNumbers
  import Spaces = ColourSpaces

  datatype ColourValue = ColourValue(
    r: Option<real>, g: Option<real>, b: Option<real>,
    h: Option<real>, s: Option<real>, l: Option<real>,
    a: real)
  {
    predicate HasRgb() {
      r.Some? && g.Some? && b.Some?
    }

    predicate HasHsl() {
      h.Some? && s.Some? && l.Some?
    }

    /**
     * Every way the class builds or changes a colour sets or leaves all three
     * components of a representation together, and at least one
     * representation is present.
     */
    predicate WellFormed() {
      r.Some? == g.Some? == b.Some? && h.Some? == s.Some? == l.Some? && (HasRgb() || HasHsl())
    }

    function Rgb(): Spaces.Triple
      requires HasRgb()
    {
      Spaces.Triple(r.value, g.value, b.value)
    }

    function Hsl(): Spaces.Triple
      requires HasHsl()
    {
      Spaces.Triple(h.value, s.value, l.value)
    }

    /** rgb2hsl can run on this colour without dividing by zero. */
    predicate HslComputable() {
      HasHsl() || (HasRgb() && Spaces.Convertible(Rgb()))
    }

    /** The fields after hsl2rgb has filled in a missing RGB representation. */
    function RgbFilled(): (w: ColourValue)
      requires WellFormed()
      ensures w.WellFormed() && w.HasRgb()
      ensures HasRgb() ==> w == this
      ensures !HasRgb() ==> w.Rgb() == Spaces.HslToRgb(Hsl())
      ensures w.h == h && w.s == s && w.l == l && w.a == a
    {
      if HasRgb() then this
      else
        var rgb := Spaces.HslToRgb(Hsl());
        this.(r := Some(rgb.0), g := Some(rgb.1), b := Some(rgb.2))
    }

    /** The fields after rgb2hsl has filled in a missing HSL representation. */
    function HslFilled(): (w: ColourValue)
      requires WellFormed() && HslComputable()
      ensures w.WellFormed() && w.HasHsl()
      ensures HasHsl() ==> w == this
      ensures !HasHsl() ==> w.Hsl() == Spaces.RgbToHsl(Rgb())
      ensures w.r == r && w.g == g && w.b == b && w.a == a
    {
      if HasHsl() then this
      else
        var hsl := Spaces.RgbToHsl(Rgb());
        this.(h := Some(hsl.0), s := Some(hsl.1), l := Some(hsl.2))
    }

    // The values the getters return.

    function Red(): (c: int)
      requires WellFormed()
      ensures 0 <= c <= 255
    {
      Spaces.Channel(RgbFilled().r.value)
    }

    function Green(): (c: int)
      requires WellFormed()
      ensures 0 <= c <= 255
    {
      Spaces.Channel(RgbFilled().g.value)
    }

    function Blue(): (c: int)
      requires WellFormed()
      ensures 0 <= c <= 255
    {
      Spaces.Channel(RgbFilled().b.value)
    }

    function Hue(): real
      requires WellFormed() && HslComputable()
    {
      HslFilled().h.value
    }

    function Saturation(): real
      requires WellFormed() && HslComputable()
    {
      HslFilled().s.value
    }

    function Lightness(): real
      requires WellFormed() && HslComputable()
    {
      HslFilled().l.value
    }

    /** isTranslucent: the alpha channel is below 1. */
    predicate Translucent() {
      a < 1.0
    }
  }

  /** A colour built from RGB components only. */
  function RgbValue(r: real, g: real, b: real, a: real): (v: ColourValue)
    ensures v.WellFormed() && v.HasRgb() && !v.HasHsl()
    ensures v.Rgb() == Spaces.Triple(r, g, b) && v.a == a
  {
    ColourValue(Some(r), Some(g), Some(b), None, None, None, a)
  }

  /** A colour built from HSL components only. */
  function HslValue(h: real, s: real, l: real, a: real): (v: ColourValue)
    ensures v.WellFormed() && v.HasHsl() && !v.HasRgb()
    ensures v.Hsl() == Spaces.Triple(h, s, l) && v.a == a
  {
    ColourValue(None, None, None, Some(h), Some(s), Some(l), a)
  }

  /**
   * Caching is invisible to every getter: filling in either representation
   * changes none of the seven values a colour reports, and filling twice is
   * filling once.
   */
  lemma FillingPreservesGetters(v: ColourValue)
    requires v.WellFormed() && v.HslComputable()
    ensures v.RgbFilled().HslComputable() && v.HslFilled().HslComputable()
    ensures v.RgbFilled().RgbFilled() == v.RgbFilled() && v.HslFilled().HslFilled() == v.HslFilled()
    ensures var w := v.RgbFilled();
      w.Red() == v.Red() && w.Green() == v.Green() && w.Blue() == v.Blue() &&
      w.Hue() == v.Hue() && w.Saturation() == v.Saturation() && w.Lightness() == v.Lightness() && w.a == v.a
    ensures var w := v.HslFilled();
      w.Red() == v.Red() && w.Green() == v.Green() && w.Blue() == v.Blue() &&
      w.Hue() == v.Hue() && w.Saturation() == v.Saturation() && w.Lightness() == v.Lightness() && w.a == v.a
  {
  }

  /**
   * A colour whose stored components are whole numbers in [0, 255] reports
   * exactly those components.
   */
  lemma StoredChannelsReadBack(r: int, g: int, b: int, a: real)
    requires 0 <= r <= 255 && 0 <= g <= 255 && 0 <= b <= 255
    ensures var v := RgbValue(r as real, g as real, b as real, a);
      v.Red() == r && v.Green() == g && v.Blue() == b && v.a == a
  {
    ChannelOfByte(r);
    ChannelOfByte(g);
    ChannelOfByte(b);
  }

  lemma ChannelOfByte(n: int)
    requires 0 <= n <= 255
    ensures Spaces.Channel(n as real) == n
  {
    assert Round(n as real) == n;
  }
}
