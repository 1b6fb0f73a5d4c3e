/**
 * toString: a colour as `rgb(r, g, b)`, `rgba(r, g, b, a)`, `hsl(h, s, l)`,
 * `hsla(h, s, l, a)`, a hex triplet, or a colour name with the hex triplet
 * as the fallback. The `%d`, `%02x` and `%1.2f` conversions of sprintf are
 * written out over characters.
 */
module ColourFormat {
  import opened Outcomes
  import opened PhpNumbers
  import opened ColourState
  import opened NamedColours
  import opened ColourInput

  // ---------------------------------------------------------------------------
  // Number conversions

  /** `%02x` of a byte: two lower-case hexadecimal digits. */
  function Hex2(n: int): (t: string)
    requires 0 <= n <= 255
    ensures |t| == 2 && IsHexDigit(t[0]) && IsHexDigit(t[1]) && Pair(t[0], t[1]) == n
  {
    HexDigitValue(n / 16);
    HexDigitValue(n % 16);
    [HexDigits[n / 16], HexDigits[n % 16]]
  }

  predicate IsDigit(c: char) {
    '0' <= c <= '9'
  }

  function DigitValue(c: char): (d: nat)
    requires IsDigit(c)
    ensures d < 10
  {
    c as int - '0' as int
  }

  /** The first ten hexadecimal digits are the decimal digits, in value order. */
  lemma DecimalDigit(d: int)
    requires 0 <= d < 10
    ensures IsDigit(HexDigits[d]) && DigitValue(HexDigits[d]) == d
  {
    HexDigitValue(d);
  }

  /** The number a string of decimal digits spells. */
  function DigitsValue(t: string): (n: nat)
    requires forall i | 0 <= i < |t| :: IsDigit(t[i])
  {
    if t == [] then 0 else 10 * DigitsValue(t[..|t| - 1]) + DigitValue(t[|t| - 1])
  }

  /** The decimal digits of a natural number, without leading zeros. */
  function Digits(n: nat): (t: string)
    ensures |t| >= 1 && forall i | 0 <= i < |t| :: IsDigit(t[i])
    ensures DigitsValue(t) == n
    ensures |t| > 1 ==> t[0] != '0'
  {
    if n < 10 then
      DecimalDigit(n);
      assert [HexDigits[n]][..0] == [];
      [HexDigits[n]]
    else
      DecimalDigit(n % 10);
      var t := Digits(n / 10) + [HexDigits[n % 10]];
      assert t[..|t| - 1] == Digits(n / 10);
      t
  }

  /** `%d` of an integer: an optional minus sign and the decimal digits. */
  function Decimal(n: int): (t: string)
    ensures |t| >= 1 && (n < 0 <==> t[0] == '-')
    ensures n >= 0 ==> t == Digits(n)
    ensures n < 0 ==> t[1..] == Digits(-n)
  {
    if n < 0 then "-" + Digits(-n) else Digits(n)
  }

  /** Exactly two digits: the hundredths part of `%1.2f`. */
  function TwoDigits(n: nat): (t: string)
    requires n < 100
    ensures |t| == 2 && IsDigit(t[0]) && IsDigit(t[1]) && DigitsValue(t) == n
  {
    DecimalDigit(n / 10);
    DecimalDigit(n % 10);
    var t := [HexDigits[n / 10], HexDigits[n % 10]];
    assert t[..1] == [HexDigits[n / 10]] && t[..1][..0] == [];
    assert DigitsValue(t[..1]) == n / 10;
    assert DigitsValue(t) == 10 * (n / 10) + n % 10;
    t
  }

  /** The number of hundredths `%1.2f` shows: |x| rounded to two decimals, halves away from zero. */
  function Hundredths(x: real): (k: nat)
    ensures Abs(x) * 100.0 - 0.5 < k as real <= Abs(x) * 100.0 + 0.5
  {
    Round(Abs(x) * 100.0)
  }

  /** `%1.2f` of a float: sign, whole part, a point and two decimals. */
  function Fixed2(x: real): (t: string)
  {
    var k := Hundredths(x);
    (if x < 0.0 then "-" else "") + Digits(k / 100) + "." + TwoDigits(k % 100)
  }

  // ---------------------------------------------------------------------------
  // Hex triplets

  /**
   * hex(): `#rrggbb`, or `#rgb` when the short form is asked for and each
   * pair repeats one digit.
   */
  function HexCode(r: int, g: int, b: int, short: bool): (t: string)
    requires 0 <= r <= 255 && 0 <= g <= 255 && 0 <= b <= 255
    ensures (|t| == 7 || |t| == 4) && t[0] == '#'
    ensures !short ==> |t| == 7
  {
    var long := "#" + Hex2(r) + Hex2(g) + Hex2(b);
    if short && long[1] == long[2] && long[3] == long[4] && long[5] == long[6] then ['#', long[1], long[3], long[5]]
    else long
  }

  /** A byte's two hex digits agree exactly when it is a multiple of 17. */
  lemma RepeatedDigit(n: int)
    requires 0 <= n <= 255
    ensures Hex2(n)[0] == Hex2(n)[1] <==> n % 17 == 0
    ensures Hex2(n)[0] == Hex2(n)[1] ==> Doubled(Hex2(n)[0]) == n
  {
    var t := Hex2(n);
    HexDigitValue(n / 16);
    HexDigitValue(n % 16);
    assert HexValue(t[0]) == n / 16 && HexValue(t[1]) == n % 16;
    SeventeenfoldByte(n);
  }

  lemma SeventeenfoldByte(n: int)
    requires 0 <= n <= 255
    ensures n / 16 == n % 16 <==> n % 17 == 0
    ensures n % 17 == 0 ==> n == 17 * (n / 16)
  {
    var q, d := n / 16, n % 16;
    assert n == 16 * q + d;
    if n % 17 == 0 {
      var k := n / 17;
      assert n == 17 * k;
      assert 0 <= k < 16;
      assert 16 * (q - k) == k - d;
    }
  }

  /** The short form is produced exactly when every component is a multiple of 17. */
  lemma ShortHexExactly(r: int, g: int, b: int)
    requires 0 <= r <= 255 && 0 <= g <= 255 && 0 <= b <= 255
    ensures |HexCode(r, g, b, true)| == 4 <==> r % 17 == 0 && g % 17 == 0 && b % 17 == 0
  {
    RepeatedDigit(r);
    RepeatedDigit(g);
    RepeatedDigit(b);
  }

  /** Reading a hex triplet back, long or short, gives the three bytes with full opacity. */
  lemma HexCodeRoundTrip(r: int, g: int, b: int, short: bool)
    requires 0 <= r <= 255 && 0 <= g <= 255 && 0 <= b <= 255
    ensures ParseText(HexCode(r, g, b, short)) == Success(RgbValue(r as real, g as real, b as real, 1.0))
  {
    var long := "#" + Hex2(r) + Hex2(g) + Hex2(b);
    assert long[1..3] == Hex2(r) && long[3..5] == Hex2(g) && long[5..7] == Hex2(b);
    assert IsHexTriplet(long);
    var t := HexCode(r, g, b, short);
    if t == long {
      ParseHexTriplet(long);
    } else {
      RepeatedDigit(r);
      RepeatedDigit(g);
      RepeatedDigit(b);
      ParseShortTriplet(t);
    }
  }

  // ---------------------------------------------------------------------------
  // toString

  predicate IsFormat(format: string) {
    format == "rgb" || format == "rgba" || format == "hsl" || format == "hsla" || format == "hex" || format == "named"
  }

  predicate NeedsHsl(format: string) {
    format == "hsl" || format == "hsla"
  }

  /** The fields after toString: the getters it calls cache the representation they need. */
  function RenderState(v: ColourValue, format: string): (w: ColourValue)
    requires v.WellFormed() && (NeedsHsl(format) ==> v.HslComputable())
    ensures w.WellFormed()
  {
    if NeedsHsl(format) then v.HslFilled()
    else if IsFormat(format) then v.RgbFilled()
    else v
  }

  /** The string toString returns, or its error for an unknown format. */
  function Render(v: ColourValue, format: string, css3: bool, short: bool): (r: Result<string>)
    requires v.WellFormed() && (NeedsHsl(format) ==> v.HslComputable())
    ensures r.Failure? <==> !IsFormat(format)
    ensures r.Failure? ==> r.error == InvalidFormat
  {
    var hex := HexCode(v.Red(), v.Green(), v.Blue(), false);
    if format == "rgb" then
      Success("rgb(" + Decimal(v.Red()) + ", " + Decimal(v.Green()) + ", " + Decimal(v.Blue()) + ")")
    else if format == "rgba" then
      Success("rgba(" + Decimal(v.Red()) + ", " + Decimal(v.Green()) + ", " + Decimal(v.Blue()) + ", " + Fixed2(v.a) + ")")
    else if format == "hsl" then
      Success("hsl(" + Decimal(Trunc(v.Hue())) + ", " + Decimal(Trunc(v.Saturation())) + ", " + Decimal(Trunc(v.Lightness())) + ")")
    else if format == "hsla" then
      Success("hsla(" + Decimal(Trunc(v.Hue())) + ", " + Decimal(Trunc(v.Saturation())) + ", "
              + Decimal(Trunc(v.Lightness())) + ", " + Fixed2(v.a) + ")")
    else if format == "hex" then
      Success(HexCode(v.Red(), v.Green(), v.Blue(), short))
    else if format == "named" then
      if css3 then
        // The lookup is made in the name-keyed table, with a triplet as the key.
        if SvgHex(hex).Some? then Success(SvgName(hex).GetOr(""))
        else Success(if short then HexCode(v.Red(), v.Green(), v.Blue(), short) else hex)
      else
        match Html4Name(hex)
        case Some(name) => Success(name)
        case None => Success(if short then HexCode(v.Red(), v.Green(), v.Blue(), short) else hex)
    else
      Failure(InvalidFormat)
  }

  // ---------------------------------------------------------------------------
  // Properties of toString

  /** Filling the caches while rendering does not change what any later rendering returns. */
  lemma RenderIgnoresCaching(v: ColourValue, format: string, later: string, css3: bool, short: bool)
    requires v.WellFormed() && v.HslComputable()
    ensures var w := RenderState(v, format);
      w.HslComputable() && Render(w, later, css3, short) == Render(v, later, css3, short)
  {
    FillingPreservesGetters(v);
  }

  /**
   * The hex form read back by the constructor gives a colour with the same
   * red, green and blue, and full opacity.
   */
  lemma RenderHexRoundTrip(v: ColourValue, css3: bool, short: bool)
    requires v.WellFormed()
    ensures Render(v, "hex", css3, short).Success?
    ensures var w := ParseText(Render(v, "hex", css3, short).value);
      w == Success(RgbValue(v.Red() as real, v.Green() as real, v.Blue() as real, 1.0)) &&
      w.value.Red() == v.Red() && w.value.Green() == v.Green() && w.value.Blue() == v.Blue() && w.value.a == 1.0
  {
    HexCodeRoundTrip(v.Red(), v.Green(), v.Blue(), short);
    StoredChannelsReadBack(v.Red(), v.Green(), v.Blue(), 1.0);
  }

  /**
   * With CSS3 names asked for, no colour is ever named: the triplet is
   * looked up among the names, where it never occurs, so the result is the
   * hex form.
   */
  lemma Css3NamedIsHex(v: ColourValue, short: bool)
    requires v.WellFormed()
    ensures Render(v, "named", true, short) == Render(v, "hex", true, short)
  {
    NoNameIsHex(HexCode(v.Red(), v.Green(), v.Blue(), false));
  }

  /**
   * With HTML4 names asked for, a colour whose triplet has an HTML4 name is
   * rendered as that name, and the name read back gives the same colour.
   */
  lemma Html4NamedRoundTrip(v: ColourValue, short: bool)
    requires v.WellFormed()
    requires Html4Name(HexCode(v.Red(), v.Green(), v.Blue(), false)).Some?
    ensures var name := Html4Name(HexCode(v.Red(), v.Green(), v.Blue(), false)).value;
      Render(v, "named", false, short) == Success(name) &&
      ParseText(name) == Success(RgbValue(v.Red() as real, v.Green() as real, v.Blue() as real, 1.0))
  {
    var hex := HexCode(v.Red(), v.Green(), v.Blue(), false);
    var name := Html4Name(hex).value;
    Html4NamesAreSvgNames(hex);
    Html4NameIsLowerCase(hex);
    ParseColourName(name);
    HexCodeRoundTrip(v.Red(), v.Green(), v.Blue(), false);
    ParseHexTriplet(hex);
  }

  lemma Html4NameIsLowerCase(hex: string)
    requires Html4Name(hex).Some?
    ensures Lower(Html4Name(hex).value) == Html4Name(hex).value
  {
  }

  /** Without a name, the named form falls back to the hex form. */
  lemma UnnamedFallsBackToHex(v: ColourValue, short: bool)
    requires v.WellFormed()
    requires Html4Name(HexCode(v.Red(), v.Green(), v.Blue(), false)).None?
    ensures Render(v, "named", false, short) == Render(v, "hex", false, short)
  {
  }
}
