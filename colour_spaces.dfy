/**
 * Conversions between the RGB and HSL representations of a colour, and the
 * normalisation the red, green and blue getters apply. HSL to RGB follows the
 * algorithm of section 4.2.4 of CSS Color Module Level 3 (with the roles of
 * its m1 and m2 exchanged in the names); RGB to HSL follows the usual
 * max/min/chroma formulation, with PHP's integer `%` applied to the hue.
 */
module ColourSpaces {
  import opened PhpNumbers

  /** Three components of one colour space, in order (r, g, b) or (h, s, l). */
  datatype Triple = Triple(0: real, 1: real, 2: real)

  // ---------------------------------------------------------------------------
  // Getter normalisation

  /**
   * What getRed, getGreen and getBlue return for a stored component: the
   * rounded magnitude, reduced by `% 255` only when it exceeds 255.
   */
  function Channel(x: real): (c: int)
    ensures 0 <= c <= 255
    ensures Round(Abs(x)) <= 255 ==> c == Round(Abs(x))
    ensures c % 255 == Round(Abs(x)) % 255
    ensures Round(Abs(x)) > 255 ==> c == Round(Abs(x)) % 255
  {
    var component := Round(Abs(x));
    if component > 255 then component % 255 else component
  }

  /** A stored 300 reads back as 45; a stored -12.5 as 13. */
  lemma ChannelExamples()
    ensures Channel(300.0) == 45
    ensures Channel(-12.5) == 13
    ensures Channel(510.0) == 0
  {
    assert Round(300.0) == 300;
    assert Round(12.5) == 13;
    assert Round(510.0) == 510;
  }

  // ---------------------------------------------------------------------------
  // HSL to RGB

  /** hue2rgb's adjustment of its argument: by one unit at most. */
  function WrapOnce(h: real): (w: real)
    ensures -1.0 <= h <= 2.0 ==> -1.0 <= w <= 1.0
    ensures 0.0 <= h <= 1.0 ==> w == h
  {
    h + (if h < 0.0 then 1.0 else if h > 1.0 then -1.0 else 0.0)
  }

  /** The four linear segments of hue2rgb, before scaling by 255. */
  function HueSegment(m1: real, m2: real, h: real): real
  {
    if h * 6.0 < 1.0 then m2 + (m1 - m2) * h * 6.0
    else if h * 2.0 < 1.0 then m1
    else if h * 3.0 < 2.0 then m2 + (m1 - m2) * (2.0 / 3.0 - h) * 6.0
    else m2
  }

  function Hue2Rgb(m1: real, m2: real, h: real): real
  {
    HueSegment(m1, m2, WrapOnce(h)) * 255.0
  }

  /** The hue as the fraction hsl2rgb works with: `(h % 360) / 360`. */
  function HueFraction(h: real): (f: real)
    ensures -1.0 < f < 1.0
    ensures h >= 0.0 ==> 0.0 <= f
  {
    FloatRem(h, 360) as real / 360.0
  }

  function M1(s: real, l: real): real
  {
    var sf, lf := s / 100.0, l / 100.0;
    if lf <= 0.5 then lf * (sf + 1.0) else lf + sf - lf * sf
  }

  function M2(s: real, l: real): real
  {
    (l / 100.0) * 2.0 - M1(s, l)
  }

  /** hsl2rgb: the red, green and blue components of an HSL colour. */
  function HslToRgb(hsl: Triple): (rgb: Triple)
  {
    var hf := HueFraction(hsl.0);
    var m1, m2 := M1(hsl.1, hsl.2), M2(hsl.1, hsl.2);
    Triple(Hue2Rgb(m1, m2, hf + 1.0 / 3.0), Hue2Rgb(m1, m2, hf), Hue2Rgb(m1, m2, hf - 1.0 / 3.0))
  }

  /** With zero saturation every component is 255 * l / 100, whatever the hue. */
  lemma GreyFromHsl(h: real, l: real)
    ensures HslToRgb(Triple(h, 0.0, l)) == Triple(255.0 * l / 100.0, 255.0 * l / 100.0, 255.0 * l / 100.0)
  {
    var m1, m2 := M1(0.0, l), M2(0.0, l);
    assert m1 == l / 100.0 && m2 == l / 100.0;
    forall x: real ensures HueSegment(m1, m2, x) == l / 100.0 {
    }
  }

  lemma MulNonneg(x: real, y: real)
    requires x >= 0.0 && y >= 0.0
    ensures x * y >= 0.0
  {
  }

  lemma Distribute(d: real, t: real)
    ensures d * t + d * (1.0 - t) == d
  {
  }

  /** A point m2 + (m1 - m2) * t with t in [0, 1] lies between m1 and m2. */
  lemma Interpolate(m1: real, m2: real, t: real)
    requires 0.0 <= t <= 1.0
    ensures m1 <= m2 ==> m1 <= m2 + (m1 - m2) * t <= m2
    ensures m2 <= m1 ==> m2 <= m2 + (m1 - m2) * t <= m1
  {
    var d := m1 - m2;
    Distribute(d, t);
    if d >= 0.0 {
      MulNonneg(d, t);
      MulNonneg(d, 1.0 - t);
    } else {
      MulNonneg(-d, t);
      MulNonneg(-d, 1.0 - t);
    }
  }

  /** Each segment of hue2rgb lies between m1 and m2 when its argument is in [0, 1]. */
  lemma SegmentBetween(m1: real, m2: real, h: real)
    requires 0.0 <= h <= 1.0
    ensures m1 <= m2 ==> m1 <= HueSegment(m1, m2, h) <= m2
    ensures m2 <= m1 ==> m2 <= HueSegment(m1, m2, h) <= m1
  {
    if h * 6.0 < 1.0 {
      var t := h * 6.0;
      assert (m1 - m2) * h * 6.0 == (m1 - m2) * t;
      assert HueSegment(m1, m2, h) == m2 + (m1 - m2) * t;
      Interpolate(m1, m2, t);
    } else if h * 2.0 < 1.0 {
    } else if h * 3.0 < 2.0 {
      var t := (2.0 / 3.0 - h) * 6.0;
      assert (m1 - m2) * (2.0 / 3.0 - h) * 6.0 == (m1 - m2) * t;
      assert HueSegment(m1, m2, h) == m2 + (m1 - m2) * t;
      Interpolate(m1, m2, t);
    }
  }

  lemma MBounds(s: real, l: real)
    requires 0.0 <= s <= 100.0 && 0.0 <= l <= 100.0
    ensures 0.0 <= M1(s, l) <= 1.0 && 0.0 <= M2(s, l) <= 1.0
  {
    var sf, lf := s / 100.0, l / 100.0;
    if lf <= 0.5 {
      assert M1(s, l) == lf + lf * sf;
      Distribute(lf, sf);
      MulNonneg(lf, sf);
      MulNonneg(lf, 1.0 - sf);
    } else {
      assert M1(s, l) == lf + sf * (1.0 - lf);
      Distribute(1.0 - lf, sf);
      MulNonneg(1.0 - lf, sf);
      MulNonneg(1.0 - lf, 1.0 - sf);
    }
  }

  /**
   * For a non-negative hue and saturation and lightness in [0, 100], every
   * component hsl2rgb produces lies in [0, 255].
   */
  lemma HslToRgbInRange(hsl: Triple)
    requires hsl.0 >= 0.0 && 0.0 <= hsl.1 <= 100.0 && 0.0 <= hsl.2 <= 100.0
    ensures var rgb := HslToRgb(hsl);
      0.0 <= rgb.0 <= 255.0 && 0.0 <= rgb.1 <= 255.0 && 0.0 <= rgb.2 <= 255.0
  {
    var hf := HueFraction(hsl.0);
    var m1, m2 := M1(hsl.1, hsl.2), M2(hsl.1, hsl.2);
    MBounds(hsl.1, hsl.2);
    SegmentBetween(m1, m2, WrapOnce(hf + 1.0 / 3.0));
    SegmentBetween(m1, m2, WrapOnce(hf));
    SegmentBetween(m1, m2, WrapOnce(hf - 1.0 / 3.0));
  }

  /**
   * hue2rgb wraps its argument by one unit at most, so a hue below -240
   * degrees is not brought into [0, 1): hsl(-300, 100, 50), which names
   * yellow, gets a blue component of -255, read back as 255.
   */
  lemma NegativeHueBlue()
    ensures HslToRgb(Triple(-300.0, 100.0, 50.0)) == Triple(255.0, 255.0, -255.0)
  {
    assert Trunc(-300.0) == -300;
    assert FloatRem(-300.0, 360) == -300;
    assert M1(100.0, 50.0) == 1.0 && M2(100.0, 50.0) == 0.0;
  }

  // ---------------------------------------------------------------------------
  // RGB to HSL

  function Max3(x: real, y: real, z: real): (m: real)
    ensures m >= x && m >= y && m >= z && (m == x || m == y || m == z)
  {
    if x >= y && x >= z then x else if y >= z then y else z
  }

  function Min3(x: real, y: real, z: real): (m: real)
    ensures m <= x && m <= y && m <= z && (m == x || m == y || m == z)
  {
    if x <= y && x <= z then x else if y <= z then y else z
  }

  function Lightness(rgb: Triple): real
  {
    (Max3(rgb.0 / 255.0, rgb.1 / 255.0, rgb.2 / 255.0) + Min3(rgb.0 / 255.0, rgb.1 / 255.0, rgb.2 / 255.0)) / 2.0
  }

  function Chroma(rgb: Triple): (c: real)
    ensures c >= 0.0
  {
    Max3(rgb.0 / 255.0, rgb.1 / 255.0, rgb.2 / 255.0) - Min3(rgb.0 / 255.0, rgb.1 / 255.0, rgb.2 / 255.0)
  }

  /**
   * rgb2hsl divides the chroma by 2l, or by 2 - 2l when l > 0.5. The divisor
   * is zero only for components outside [0, 255] (which arithmetic can
   * store), and PHP then fails on the division.
   */
  predicate Convertible(rgb: Triple)
  {
    Chroma(rgb) == 0.0 || (Lightness(rgb) != 0.0 && Lightness(rgb) != 1.0)
  }

  lemma InRangeConvertible(rgb: Triple)
    requires 0.0 <= rgb.0 <= 255.0 && 0.0 <= rgb.1 <= 255.0 && 0.0 <= rgb.2 <= 255.0
    ensures Convertible(rgb)
  {
  }

  /** The saturation rgb2hsl stores, in percent. */
  function Saturation(rgb: Triple): real
    requires Convertible(rgb)
  {
    var c, l := Chroma(rgb), Lightness(rgb);
    (if c != 0.0 then (if l <= 0.5 then c / (2.0 * l) else c / (2.0 - 2.0 * l)) else 0.0) * 100.0
  }

  /**
   * The hue sector before scaling by 60 degrees. In the red case the source
   * multiplies by 100 and applies `% 600`, which truncates to hundredths.
   */
  function HueSector(rgb: Triple): real
  {
    var rf, gf, bf := rgb.0 / 255.0, rgb.1 / 255.0, rgb.2 / 255.0;
    var mx, mn := Max3(rf, gf, bf), Min3(rf, gf, bf);
    var c := mx - mn;
    if mx == mn then 0.0
    else if mx == rf then Rem(Trunc((gf - bf) * 100.0 / c), 600) as real / 100.0
    else if mx == gf then (bf - rf) / c + 2.0
    else (rf - gf) / c + 4.0
  }

  /** rgb2hsl: the hue, saturation and lightness of an RGB colour. */
  function RgbToHsl(rgb: Triple): (hsl: Triple)
    requires Convertible(rgb)
  {
    Triple(FloatRem(360.0 + HueSector(rgb) * 60.0, 360) as real, Saturation(rgb), Lightness(rgb) * 100.0)
  }

  /** A quotient of a difference of two values in [mn, mx] by mx - mn lies in [-1, 1]. */
  lemma RatioBounds(x: real, y: real, mn: real, mx: real)
    requires mn <= x <= mx && mn <= y <= mx && mn < mx
    ensures -1.0 <= (x - y) / (mx - mn) <= 1.0
  {
    var c := mx - mn;
    var q := (x - y) / c;
    assert q * c == x - y;
    assert -c <= x - y <= c;
    assert (q - 1.0) * c == q * c - c && (-1.0 - q) * c == -c - q * c;
    if q > 1.0 {
      MulPositive(q - 1.0, c);
    } else if q < -1.0 {
      MulPositive(-1.0 - q, c);
    }
  }

  lemma MulPositive(x: real, y: real)
    requires x > 0.0 && y > 0.0
    ensures x * y > 0.0
  {
  }

  /** In the red case the truncated hundredths lie in [-100, 100], so `% 600` leaves them alone. */
  lemma RedSector(gf: real, bf: real, mn: real, mx: real)
    requires mn <= gf <= mx && mn <= bf <= mx && mn < mx
    ensures -1.0 <= Rem(Trunc((gf - bf) * 100.0 / (mx - mn)), 600) as real / 100.0 <= 1.0
  {
    var c := mx - mn;
    RatioBounds(gf, bf, mn, mx);
    assert (gf - bf) * 100.0 / c == (gf - bf) / c * 100.0;
    var t := Trunc((gf - bf) * 100.0 / c);
    assert -100 <= t <= 100;
    assert Quot(t, 600) == 0;
  }

  lemma HueSectorRange(rgb: Triple)
    ensures -1.0 <= HueSector(rgb) <= 5.0
  {
    var rf, gf, bf := rgb.0 / 255.0, rgb.1 / 255.0, rgb.2 / 255.0;
    var mx, mn := Max3(rf, gf, bf), Min3(rf, gf, bf);
    if mx == mn {
    } else if mx == rf {
      RedSector(gf, bf, mn, mx);
    } else if mx == gf {
      RatioBounds(bf, rf, mn, mx);
    } else {
      RatioBounds(rf, gf, mn, mx);
    }
  }

  /**
   * rgb2hsl stores an integral hue in [0, 360), and a saturation of 0 when
   * the largest and smallest components are equal.
   */
  lemma RgbToHslHue(rgb: Triple)
    requires Convertible(rgb)
    ensures var hsl := RgbToHsl(rgb);
      0.0 <= hsl.0 < 360.0 && hsl.0 == hsl.0.Floor as real
    ensures Chroma(rgb) == 0.0 ==> RgbToHsl(rgb).1 == 0.0 && RgbToHsl(rgb).0 == 0.0
  {
    HueSectorRange(rgb);
  }

  lemma QuotientAtMostOne(c: real, d: real)
    requires 0.0 <= c <= d && d > 0.0
    ensures 0.0 <= c / d <= 1.0
  {
  }

  /** For components in [0, 255], saturation and lightness lie in [0, 100]. */
  lemma RgbToHslInRange(rgb: Triple)
    requires 0.0 <= rgb.0 <= 255.0 && 0.0 <= rgb.1 <= 255.0 && 0.0 <= rgb.2 <= 255.0
    ensures Convertible(rgb)
    ensures var hsl := RgbToHsl(rgb);
      0.0 <= hsl.1 <= 100.0 && 0.0 <= hsl.2 <= 100.0
  {
    var c, l := Chroma(rgb), Lightness(rgb);
    var mx := Max3(rgb.0 / 255.0, rgb.1 / 255.0, rgb.2 / 255.0);
    var mn := Min3(rgb.0 / 255.0, rgb.1 / 255.0, rgb.2 / 255.0);
    assert 0.0 <= mn && mx <= 1.0;
    if c != 0.0 {
      if l <= 0.5 {
        QuotientAtMostOne(c, 2.0 * l);
      } else {
        QuotientAtMostOne(c, 2.0 - 2.0 * l);
      }
    }
  }

  /** A grey survives rgb2hsl followed by hsl2rgb exactly. */
  lemma GreyRoundTrip(x: real)
    ensures Convertible(Triple(x, x, x))
    ensures HslToRgb(RgbToHsl(Triple(x, x, x))) == Triple(x, x, x)
  {
    var hsl := RgbToHsl(Triple(x, x, x));
    assert hsl.1 == 0.0;
    assert hsl.2 == x / 255.0 * 100.0;
    GreyFromHsl(hsl.0, hsl.2);
  }

  /**
   * rgb2hsl keeps only whole degrees of hue (and hundredths of a sector in
   * the red case), so it is not injective on 8-bit colours and no conversion
   * back can recover both: rgb(255, 4, 0) and rgb(255, 0, 0) get the same
   * hue, saturation and lightness.
   */
  lemma HueTruncationMergesColours()
    ensures Convertible(Triple(255.0, 4.0, 0.0)) && Convertible(Triple(255.0, 0.0, 0.0))
    ensures RgbToHsl(Triple(255.0, 4.0, 0.0)) == RgbToHsl(Triple(255.0, 0.0, 0.0)) == Triple(0.0, 100.0, 50.0)
  {
    RedWithFourGreen();
    PureRed();
  }

  lemma RedWithFourGreen()
    ensures Convertible(Triple(255.0, 4.0, 0.0))
    ensures RgbToHsl(Triple(255.0, 4.0, 0.0)) == Triple(0.0, 100.0, 50.0)
  {
    var rgb := Triple(255.0, 4.0, 0.0);
    RedWithFourGreenSector();
    assert Saturation(rgb) == 100.0;
    assert Trunc(360.0 + 0.01 * 60.0) == 360;
  }

  lemma RedWithFourGreenSector()
    ensures Chroma(Triple(255.0, 4.0, 0.0)) == 1.0 && Lightness(Triple(255.0, 4.0, 0.0)) == 0.5
    ensures HueSector(Triple(255.0, 4.0, 0.0)) == 0.01
  {
    assert Max3(1.0, 4.0 / 255.0, 0.0) == 1.0 && Min3(1.0, 4.0 / 255.0, 0.0) == 0.0;
    assert (4.0 / 255.0 - 0.0) * 100.0 / 1.0 == 400.0 / 255.0;
    assert (400.0 / 255.0).Floor == 1;
  }

  lemma PureRed()
    ensures Convertible(Triple(255.0, 0.0, 0.0))
    ensures RgbToHsl(Triple(255.0, 0.0, 0.0)) == Triple(0.0, 100.0, 50.0)
  {
    var rgb := Triple(255.0, 0.0, 0.0);
    assert Max3(1.0, 0.0, 0.0) == 1.0 && Min3(1.0, 0.0, 0.0) == 0.0;
    assert Chroma(rgb) == 1.0 && Lightness(rgb) == 0.5;
    assert HueSector(rgb) == 0.0;
    assert Saturation(rgb) == 100.0;
    assert Trunc(360.0) == 360;
  }
}
