/**
 * The colour adjustments: with() builds a new colour from this one with
 * some channels replaced; adjust() and its wrappers (lighten, darken,
 * saturate, desaturate, opacify, transparentise) move one attribute by an
 * amount; adjustHue rotates the hue; mix validates its weight and then
 * calls a method the class does not define.
 *
 * Each operation returns the fields of the receiver afterwards (the getters
 * it calls fill in caches) together with its result.
 */
module Adjustments {
  import opened Outcomes
  import opened PhpNumbers
  import opened ColourState
  import opened ColourInput
  import Spaces = ColourSpaces

  /** A numeric argument, which PHP's is_int accepts or rejects. */
  datatype Number = Int(n: int) | Float(x: real)

  /** The receiver's fields after an operation, and the operation's result. */
  datatype Outcome = Outcome(receiver: ColourValue, result: Result<ColourValue>)

  /** inRange: the value clipped to [min, max]. */
  function Clip(x: real, min: real, max: real): (y: real)
    requires min <= max
    ensures min <= y <= max
    ensures min <= x <= max ==> y == x
    ensures x < min ==> y == min
    ensures x > max ==> y == max
  {
    if x < min then min else if x > max then max else x
  }

  // ---------------------------------------------------------------------------
  // with()

  /** The keys with() is given select the HSL space (and rgb2hsl will run). */
  predicate SelectsHsl(attrs: map<Key, real>) {
    AssertValid(attrs.Keys, |attrs|, false) == Success(HslScheme)
  }

  /** An entry of the merged array: the given value when the key was passed, else the base value. */
  function Pick(attrs: map<Key, real>, k: Key, base: real): real
  {
    if k in attrs then attrs[k] else base
  }

  /** The constructor reads a merged HSL array back as an HSL colour. */
  lemma ParseMergedHsl(h: real, s: real, l: real, a: real, attrs: map<Key, real>)
    requires !AnyRgbKey(attrs.Keys)
    ensures Parse(Table(map[H := h, S := s, L := l, A := a] + attrs))
      == Success(HslValue(Pick(attrs, H, h), Pick(attrs, S, s), Pick(attrs, L, l), Pick(attrs, A, a)))
  {
    var m := map[H := h, S := s, L := l, A := a] + attrs;
    assert {H, S, L} <= m.Keys && !AnyRgbKey(m.Keys);
    ParseTable(m);
  }

  /** The constructor reads a merged RGB array back as an RGB colour. */
  lemma ParseMergedRgb(r: real, g: real, b: real, a: real, attrs: map<Key, real>)
    requires !AnyHslKey(attrs.Keys)
    ensures Parse(Table(map[R := r, G := g, B := b, A := a] + attrs))
      == Success(RgbValue(Pick(attrs, R, r), Pick(attrs, G, g), Pick(attrs, B, b), Pick(attrs, A, a)))
  {
    var m := map[R := r, G := g, B := b, A := a] + attrs;
    assert {R, G, B} <= m.Keys && !AnyHslKey(m.Keys);
    ParseTable(m);
  }

  /**
   * with(): the changed keys are merged over this colour's hue, saturation,
   * lightness and alpha when they name HSL keys, and over its red, green,
   * blue and alpha otherwise, and the new colour holds only that one
   * representation; keys of both spaces are rejected. WithParsesMerged
   * shows that this is what the constructor makes of the merged array.
   */
  function With(v: ColourValue, attrs: map<Key, real>): (o: Outcome)
    requires v.WellFormed() && (SelectsHsl(attrs) ==> v.HslComputable())
    ensures o.result.Failure? <==> AnyRgbKey(attrs.Keys) && AnyHslKey(attrs.Keys)
    ensures o.result.Failure? ==> o.receiver == v
    ensures o.result.Success? ==> o.receiver.WellFormed() && o.result.value.WellFormed()
  {
    if AnyRgbKey(attrs.Keys) && AnyHslKey(attrs.Keys) then Outcome(v, Failure(MixedColourSpace))
    else if AnyHslKey(attrs.Keys) then
      Outcome(v.HslFilled(), Success(HslValue(
        Pick(attrs, H, v.Hue()), Pick(attrs, S, v.Saturation()), Pick(attrs, L, v.Lightness()), Pick(attrs, A, v.a))))
    else
      Outcome(v.RgbFilled(), Success(RgbValue(
        Pick(attrs, R, v.Red() as real), Pick(attrs, G, v.Green() as real), Pick(attrs, B, v.Blue() as real), Pick(attrs, A, v.a))))
  }

  /**
   * with() as the class writes it: assertValid on the changed keys, then
   * the getters of the selected space merged under the changed values and
   * passed to the constructor.
   */
  lemma WithParsesMerged(v: ColourValue, attrs: map<Key, real>)
    requires v.WellFormed() && (SelectsHsl(attrs) ==> v.HslComputable())
    ensures With(v, attrs) ==
      match AssertValid(attrs.Keys, |attrs|, false)
      case Failure(e) => Outcome(v, Failure(e))
      case Success(scheme) =>
        if scheme == HslScheme then
          Outcome(v.HslFilled(), Parse(Table(map[H := v.Hue(), S := v.Saturation(), L := v.Lightness(), A := v.a] + attrs)))
        else
          Outcome(v.RgbFilled(), Parse(Table(map[R := v.Red() as real, G := v.Green() as real, B := v.Blue() as real, A := v.a] + attrs)))
  {
    if SelectsHsl(attrs) {
      ParseMergedHsl(v.Hue(), v.Saturation(), v.Lightness(), v.a, attrs);
    } else if !AnyHslKey(attrs.Keys) {
      ParseMergedRgb(v.Red() as real, v.Green() as real, v.Blue() as real, v.a, attrs);
    }
  }

  /**
   * Changing only the alpha builds a fresh RGB colour: the red, green and
   * blue survive, but a cached HSL representation is not carried over.
   */
  lemma WithAlphaKeepsRgbOnly(v: ColourValue, alpha: real)
    requires v.WellFormed()
    ensures var o := With(v, map[A := alpha]);
      o.result.Success? && !o.result.value.HasHsl() &&
      o.result.value.Red() == v.Red() && o.result.value.Green() == v.Green() &&
      o.result.value.Blue() == v.Blue() && o.result.value.a == alpha
  {
    StoredChannelsReadBack(v.Red(), v.Green(), v.Blue(), alpha);
  }

  // ---------------------------------------------------------------------------
  // adjust() and its wrappers

  /** The attribute adjust() reads directly from the object: a null field counts as 0. */
  function Stored(v: ColourValue, attr: Key): real
  {
    match attr
    case S => v.s.GetOr(0.0)
    case L => v.l.GetOr(0.0)
    case _ => v.a
  }

  predicate Adjustable(attr: Key) {
    attr == S || attr == L || attr == A
  }

  /** The stored value moved by n units, or by n percent of itself when ofCurrent; down when !increase. */
  function Moved(current: real, n: int, ofCurrent: bool, increase: bool): real
  {
    var delta := (if increase then n else -n) as real;
    if ofCurrent then current * (1.0 + delta / 100.0) else current + delta
  }

  /**
   * adjust(): the amount must be an integer within [min, max]; the stored
   * attribute is moved by it (or by that percentage of itself when
   * ofCurrent), clipped to [min, max], and passed to with().
   */
  function Adjust(v: ColourValue, amount: Number, ofCurrent: bool, attr: Key, increase: bool, min: int, max: int): (o: Outcome)
    requires Adjustable(attr) && min <= max
    requires v.WellFormed() && (attr != A ==> v.HslComputable())
    ensures amount.Float? ==> o == Outcome(v, Failure(AmountNotInteger))
    ensures amount.Int? && !(min <= amount.n <= max) ==> o == Outcome(v, Failure(AmountOutOfRange))
    ensures amount.Int? && min <= amount.n <= max ==> o.result.Success?
  {
    if amount.Float? then Outcome(v, Failure(AmountNotInteger))
    else if !(min <= amount.n <= max) then Outcome(v, Failure(AmountOutOfRange))
    else
      With(v, map[attr := Clip(Moved(Stored(v, attr), amount.n, ofCurrent, increase), min as real, max as real)])
  }

  function Lighten(v: ColourValue, amount: Number, ofCurrent: bool): Outcome
    requires v.WellFormed() && v.HslComputable()
  {
    Adjust(v, amount, ofCurrent, L, true, 0, 100)
  }

  function Darken(v: ColourValue, amount: Number, ofCurrent: bool): Outcome
    requires v.WellFormed() && v.HslComputable()
  {
    Adjust(v, amount, ofCurrent, L, false, 0, 100)
  }

  function Saturate(v: ColourValue, amount: Number, ofCurrent: bool): Outcome
    requires v.WellFormed() && v.HslComputable()
  {
    Adjust(v, amount, ofCurrent, S, true, 0, 100)
  }

  function Desaturate(v: ColourValue, amount: Number, ofCurrent: bool): Outcome
    requires v.WellFormed() && v.HslComputable()
  {
    Adjust(v, amount, ofCurrent, S, false, 0, 100)
  }

  /** The upper bound opacify and transparentise pass: 100 for an amount above 1, else 1. */
  function OpacityCeiling(amount: Number): int
  {
    if (match amount case Int(n) => n > 1 case Float(x) => x > 1.0) then 100 else 1
  }

  function Opacify(v: ColourValue, amount: Number, ofCurrent: bool): Outcome
    requires v.WellFormed()
  {
    Adjust(v, amount, ofCurrent, A, true, 0, OpacityCeiling(amount))
  }

  function Transparentise(v: ColourValue, amount: Number, ofCurrent: bool): Outcome
    requires v.WellFormed()
  {
    Adjust(v, amount, ofCurrent, A, false, 0, OpacityCeiling(amount))
  }

  /** adjustHue: with() of the hue `(hue + degrees) % 360`. */
  function AdjustHue(v: ColourValue, degrees: int): (o: Outcome)
    requires v.WellFormed() && v.HslComputable()
    ensures o.receiver == v.HslFilled()
    ensures o.result == Success(HslValue(FloatRem(v.Hue() + degrees as real, 360) as real, v.Saturation(), v.Lightness(), v.a))
  {
    With(v.HslFilled(), map[H := FloatRem(v.Hue() + degrees as real, 360) as real])
  }

  function Complement(v: ColourValue): Outcome
    requires v.WellFormed() && v.HslComputable()
  {
    AdjustHue(v, 180)
  }

  /** greyscale and grayscale: desaturate by the whole range. */
  function Greyscale(v: ColourValue): Outcome
    requires v.WellFormed() && v.HslComputable()
  {
    Desaturate(v, Int(100), false)
  }

  // ---------------------------------------------------------------------------
  // Properties of the adjustments

  /** The attribute as stored, moved by n up or down, or scaled by 1 + n/100 or 1 - n/100 when ofCurrent. */
  function Target(x: real, n: int, ofCurrent: bool, increase: bool, min: int, max: int): real
    requires min <= max
  {
    var sign := if increase then 1.0 else -1.0;
    Clip(if ofCurrent then x * (1.0 + sign * n as real / 100.0) else x + sign * n as real, min as real, max as real)
  }

  /**
   * adjust() of the lightness with an amount n in range: the new lightness
   * is the stored one (a null field counting as 0) moved by n, or scaled by
   * n percent when ofCurrent, clipped to [min, max]; the hue, saturation
   * and alpha are the receiver's.
   */
  lemma AdjustLightnessValue(v: ColourValue, n: int, ofCurrent: bool, increase: bool, min: int, max: int)
    requires min <= n <= max && v.WellFormed() && v.HslComputable()
    ensures var o := Adjust(v, Int(n), ofCurrent, L, increase, min, max);
      o.receiver == v.HslFilled() &&
      o.result == Success(HslValue(v.Hue(), v.Saturation(), Target(v.l.GetOr(0.0), n, ofCurrent, increase, min, max), v.a))
  {
    AdjustIsWith(v, n, ofCurrent, L, increase, min, max);
    MovedSigned(v.l.GetOr(0.0), n, ofCurrent, increase, min, max);
    WithHslAttribute(v, L, Target(v.l.GetOr(0.0), n, ofCurrent, increase, min, max));
  }

  /** adjust() of the saturation: as for the lightness, with the receiver's hue, lightness and alpha. */
  lemma AdjustSaturationValue(v: ColourValue, n: int, ofCurrent: bool, increase: bool, min: int, max: int)
    requires min <= n <= max && v.WellFormed() && v.HslComputable()
    ensures var o := Adjust(v, Int(n), ofCurrent, S, increase, min, max);
      o.receiver == v.HslFilled() &&
      o.result == Success(HslValue(v.Hue(), Target(v.s.GetOr(0.0), n, ofCurrent, increase, min, max), v.Lightness(), v.a))
  {
    AdjustIsWith(v, n, ofCurrent, S, increase, min, max);
    MovedSigned(v.s.GetOr(0.0), n, ofCurrent, increase, min, max);
    WithHslAttribute(v, S, Target(v.s.GetOr(0.0), n, ofCurrent, increase, min, max));
  }

  /** adjust() of the alpha: an RGB colour with the receiver's channels and the moved alpha. */
  lemma AdjustAlphaValue(v: ColourValue, n: int, ofCurrent: bool, increase: bool, min: int, max: int)
    requires min <= n <= max && v.WellFormed()
    ensures var o := Adjust(v, Int(n), ofCurrent, A, increase, min, max);
      o.receiver == v.RgbFilled() &&
      o.result == Success(RgbValue(v.Red() as real, v.Green() as real, v.Blue() as real, Target(v.a, n, ofCurrent, increase, min, max)))
  {
    AdjustIsWith(v, n, ofCurrent, A, increase, min, max);
    MovedSigned(v.a, n, ofCurrent, increase, min, max);
    WithAlpha(v, Target(v.a, n, ofCurrent, increase, min, max));
  }

  /**
   * The documented example: lightening a lightness of 40 by 50 gives 90
   * when the amount is a share of the whole range, and 60 when it is a
   * share of the current value.
   */
  lemma LightenExample(h: real, s: real, a: real)
    ensures Lighten(HslValue(h, s, 40.0, a), Int(50), false).result == Success(HslValue(h, s, 90.0, a))
    ensures Lighten(HslValue(h, s, 40.0, a), Int(50), true).result == Success(HslValue(h, s, 60.0, a))
  {
    AdjustLightnessValue(HslValue(h, s, 40.0, a), 50, false, true, 0, 100);
    AdjustLightnessValue(HslValue(h, s, 40.0, a), 50, true, true, 0, 100);
  }

  lemma AdjustIsWith(v: ColourValue, n: int, ofCurrent: bool, attr: Key, increase: bool, min: int, max: int)
    requires Adjustable(attr) && min <= n <= max
    requires v.WellFormed() && (attr != A ==> v.HslComputable())
    ensures Adjust(v, Int(n), ofCurrent, attr, increase, min, max)
      == With(v, map[attr := Clip(Moved(Stored(v, attr), n, ofCurrent, increase), min as real, max as real)])
  {
  }

  lemma MovedSigned(x: real, n: int, ofCurrent: bool, increase: bool, min: int, max: int)
    requires min <= max
    ensures Clip(Moved(x, n, ofCurrent, increase), min as real, max as real) == Target(x, n, ofCurrent, increase, min, max)
  {
    var sign := if increase then 1.0 else -1.0;
    assert (if increase then n else -n) as real == sign * n as real;
  }

  /** with() of one HSL attribute: an HSL colour from the receiver's other components. */
  lemma WithHslAttribute(v: ColourValue, attr: Key, y: real)
    requires (attr == S || attr == L) && v.WellFormed() && v.HslComputable()
    ensures With(v, map[attr := y]) == Outcome(v.HslFilled(), Success(
      if attr == L then HslValue(v.Hue(), v.Saturation(), y, v.a) else HslValue(v.Hue(), y, v.Lightness(), v.a)))
  {
    assert AssertValid({attr}, 1, false) == Success(HslScheme);
  }

  /** with() of the alpha alone: an RGB colour from the receiver's channels. */
  lemma WithAlpha(v: ColourValue, y: real)
    requires v.WellFormed()
    ensures With(v, map[A := y]) == Outcome(v.RgbFilled(), Success(RgbValue(v.Red() as real, v.Green() as real, v.Blue() as real, y)))
  {
  }

  /**
   * On a colour whose HSL representation is present, lighten and darken by
   * an amount in range set the lightness to the old one moved by that
   * amount and clipped to [0, 100], keeping hue, saturation and alpha; the
   * receiver is unchanged.
   */
  lemma AdjustLightness(v: ColourValue, n: int, increase: bool)
    requires v.WellFormed() && v.HasHsl() && 0 <= n <= 100
    ensures var o := Adjust(v, Int(n), false, L, increase, 0, 100);
      o.receiver == v &&
      o.result == Success(HslValue(v.h.value, v.s.value,
        Clip(if increase then v.l.value + n as real else v.l.value - n as real, 0.0, 100.0), v.a))
  {
  }

  /**
   * On any colour that can be converted to HSL, lighten and darken by an
   * amount in range fill the receiver's HSL cache and return a colour held
   * as HSL only.
   */
  lemma AdjustLightnessFillsCache(v: ColourValue, n: int, increase: bool)
    requires v.WellFormed() && v.HslComputable() && 0 <= n <= 100
    ensures var o := Adjust(v, Int(n), false, L, increase, 0, 100);
      o.receiver == v.HslFilled() && o.result.Success? &&
      o.result.value.WellFormed() && o.result.value.HasHsl() && !o.result.value.HasRgb()
  {
    assert AssertValid({L}, 1, false) == Success(HslScheme);
  }

  /** Darkening and then lightening by the same amount restores the colour when no clipping occurs. */
  lemma DarkenThenLighten(v: ColourValue, n: int)
    requires v.WellFormed() && v.HasHsl() && 0 <= n <= 100
    requires n as real <= v.l.value <= 100.0
    ensures var d := Darken(v, Int(n), false);
      d.result.Success? && d.result.value.WellFormed() && d.result.value.HasHsl() &&
      Lighten(d.result.value, Int(n), false).result == Success(HslValue(v.h.value, v.s.value, v.l.value, v.a))
  {
    AdjustLightness(v, n, false);
    var w := HslValue(v.h.value, v.s.value, v.l.value - n as real, v.a);
    AdjustLightness(w, n, true);
  }

  /**
   * adjust() reads the lightness field directly, so on a colour held only
   * as RGB it starts from 0: lightening by n gives lightness n whatever the
   * colour, and its HSL cache is filled only afterwards.
   */
  lemma UncachedLightnessStartsAtZero(v: ColourValue, n: int)
    requires v.WellFormed() && v.HasRgb() && !v.HasHsl() && v.HslComputable() && 0 <= n <= 100
    ensures var o := Lighten(v, Int(n), false);
      o.receiver == v.HslFilled() &&
      o.result == Success(HslValue(v.Hue(), v.Saturation(), n as real, v.a))
  {
  }

  /**
   * Desaturating by 100 leaves no saturation whenever the stored saturation
   * is at most 100, and the colour it gives has equal red, green and blue.
   */
  lemma GreyscaleIsGrey(v: ColourValue)
    requires v.WellFormed() && v.HslComputable() && v.s.GetOr(0.0) <= 100.0
    ensures var o := Greyscale(v);
      o.result == Success(HslValue(v.Hue(), 0.0, v.Lightness(), v.a)) &&
      o.result.value.Red() == o.result.value.Green() == o.result.value.Blue()
  {
    var w := HslValue(v.Hue(), 0.0, v.Lightness(), v.a);
    Spaces.GreyFromHsl(v.Hue(), v.Lightness());
    assert w.RgbFilled().Rgb() == Spaces.HslToRgb(Spaces.Triple(v.Hue(), 0.0, v.Lightness()));
  }

  /**
   * The documented opacify example against the code: from alpha 0.4, the
   * amount 0.5 is refused as not an integer, and 50 adds 50 whole units
   * (0.6 only when the amount is a share of the current alpha).
   */
  lemma OpacifyExample(v: ColourValue)
    requires v.WellFormed() && v.a == 0.4
    ensures Opacify(v, Float(0.5), false).result == Failure(AmountNotInteger)
    ensures Opacify(v, Int(50), false).result.Success? && Opacify(v, Int(50), false).result.value.a == 50.4
    ensures Opacify(v, Int(50), true).result.Success? && Opacify(v, Int(50), true).result.value.a == 0.6
  {
    AdjustAlphaValue(v, 50, false, true, 0, 100);
    AdjustAlphaValue(v, 50, true, true, 0, 100);
  }

  /**
   * An amount above 1 makes opacify add whole units to the alpha (clipped
   * to 100) rather than a percentage: transparentise by the same amount
   * undoes it when no clipping occurs.
   */
  lemma OpacifyThenTransparentise(v: ColourValue, n: int)
    requires v.WellFormed() && 1 < n <= 100 && 0.0 <= v.a && v.a + n as real <= 100.0
    ensures var o := Opacify(v, Int(n), false);
      o.result.Success? && o.result.value.a == v.a + n as real &&
      Transparentise(o.result.value, Int(n), false).result.Success? &&
      Transparentise(o.result.value, Int(n), false).result.value.a == v.a
  {
  }

  /** The hue adjustHue stores lies in (-360, 360), and in [0, 360) unless hue + degrees is negative. */
  lemma AdjustHueRange(v: ColourValue, degrees: int)
    requires v.WellFormed() && v.HslComputable()
    ensures var h := AdjustHue(v, degrees).result.value.h.value;
      -360.0 < h < 360.0 && (v.Hue() + degrees as real >= 0.0 ==> 0.0 <= h)
  {
  }

  /** A whole hue in [0, 360), as rgb2hsl and adjustHue store. */
  predicate WholeDegrees(h: real) {
    0.0 <= h < 360.0 && h == h.Floor as real
  }

  /** `%` of a whole, non-negative float is the integer remainder. */
  lemma WholeRemainder(k: int)
    requires k >= 0
    ensures FloatRem(k as real, 360) == k % 360
  {
    assert Trunc(k as real) == k;
  }

  lemma RemainderOfSum(x: int, y: int)
    requires x >= 0 && y >= 0
    ensures (x % 360 + y) % 360 == (x + y) % 360
  {
    var q := x / 360;
    assert x + y == (x % 360 + y) + 360 * q;
  }

  /** adjustHue on a colour held as HSL rotates its stored hue and keeps the rest. */
  lemma AdjustHueOfHsl(h: real, s: real, l: real, a: real, d: int)
    ensures AdjustHue(HslValue(h, s, l, a), d).result == Success(HslValue(FloatRem(h + d as real, 360) as real, s, l, a))
  {
  }

  /** Rotating a whole hue by non-negative amounts in two steps equals one rotation by their sum. */
  lemma AdjustHueComposes(v: ColourValue, d1: nat, d2: nat)
    requires v.WellFormed() && v.HslComputable() && WholeDegrees(v.Hue())
    ensures var o := AdjustHue(v, d1).result.value;
      o.WellFormed() && o.HslComputable() &&
      AdjustHue(o, d2).result == AdjustHue(v, d1 + d2).result
  {
    var h: nat := v.Hue().Floor;
    var sat, light := v.Saturation(), v.Lightness();
    var h1 := (h + d1) % 360;
    assert v.Hue() + d1 as real == (h + d1) as real;
    WholeRemainder(h + d1);
    assert AdjustHue(v, d1).result.value == HslValue(h1 as real, sat, light, v.a);
    AdjustHueOfHsl(h1 as real, sat, light, v.a, d2);
    assert h1 as real + d2 as real == (h1 + d2) as real;
    WholeRemainder(h1 + d2);
    assert v.Hue() + (d1 + d2) as real == (h + d1 + d2) as real;
    WholeRemainder(h + d1 + d2);
    RemainderOfSum(h + d1, d2);
  }

  /** Turning a whole hue by a full circle gives back the colour's hue, saturation, lightness and alpha. */
  lemma AdjustHueFullTurn(v: ColourValue)
    requires v.WellFormed() && v.HslComputable() && WholeDegrees(v.Hue())
    ensures AdjustHue(v, 360).result == Success(HslValue(v.Hue(), v.Saturation(), v.Lightness(), v.a))
  {
    var h: nat := v.Hue().Floor;
    assert v.Hue() + 360.0 == (h + 360) as real;
    WholeRemainder(h + 360);
    assert (h + 360) % 360 == h;
  }

  /** Complementing twice gives back the hue, saturation, lightness and alpha of a whole hue. */
  lemma ComplementTwice(v: ColourValue)
    requires v.WellFormed() && v.HslComputable() && WholeDegrees(v.Hue())
    ensures var o := Complement(v).result.value;
      o.WellFormed() && o.HslComputable() &&
      Complement(o).result == Success(HslValue(v.Hue(), v.Saturation(), v.Lightness(), v.a))
  {
    var h: nat := v.Hue().Floor;
    AdjustHueComposes(v, 180, 180);
    assert v.Hue() + 360.0 == (h + 360) as real;
    WholeRemainder(h + 360);
    assert (h + 360) % 360 == h;
  }

  // ---------------------------------------------------------------------------
  // mix()

  /** The second colour given to mix: a colour object, or an argument for the constructor. */
  datatype MixOperand = ColourOperand(colour: ColourValue) | Argument(input: Input)

  /**
   * The combined weight of the first colour that mix() computes from the
   * weight p in [0, 1] and the two alphas: (w + a) / (1 + w * a) rescaled
   * to [0, 1], with w = 2p - 1 and a the difference of the alphas.
   */
  function MixWeight(p: real, alpha1: real, alpha2: real): real
  {
    (MixRatio(p * 2.0 - 1.0, alpha1 - alpha2) + 1.0) / 2.0
  }

  /** (w + a) / (1 + w * a), or w when the denominator vanishes. */
  function MixRatio(w: real, a: real): real
  {
    if w * a == -1.0 then w else (w + a) / (1.0 + w * a)
  }

  lemma ProductBounds(w: real, a: real)
    requires -1.0 <= w <= 1.0 && -1.0 <= a <= 1.0
    ensures (1.0 - w) * (1.0 - a) >= 0.0 && (1.0 + w) * (1.0 + a) >= 0.0
    ensures w * a >= -1.0
  {
    Spaces.MulNonneg(1.0 - w, 1.0 - a);
    Spaces.MulNonneg(1.0 + w, 1.0 + a);
    if w >= 0.0 {
      Spaces.MulNonneg(w, a + 1.0);
      assert w * (a + 1.0) == w * a + w;
    } else {
      Spaces.MulNonneg(-w, 1.0 - a);
      assert (-w) * (1.0 - a) == w * a - w;
    }
  }

  /** For w and a in [-1, 1] the ratio lies in [-1, 1], and it is w when a is 0. */
  lemma MixRatioRange(w: real, a: real)
    requires -1.0 <= w <= 1.0 && -1.0 <= a <= 1.0
    ensures -1.0 <= MixRatio(w, a) <= 1.0
    ensures a == 0.0 ==> MixRatio(w, a) == w
  {
    ProductBounds(w, a);
    if w * a != -1.0 {
      var d := 1.0 + w * a;
      assert d > 0.0;
      assert (1.0 - w) * (1.0 - a) == d - (w + a);
      assert (1.0 + w) * (1.0 + a) == d + (w + a);
      QuotientInUnitRange(w + a, d);
    }
    if a == 0.0 {
      assert w * a == 0.0;
    }
  }

  /**
   * For a weight and alphas in [0, 1] the combined weight lies in [0, 1],
   * and with equal alphas it is the weight itself.
   */
  lemma MixWeightRange(p: real, alpha1: real, alpha2: real)
    requires 0.0 <= p <= 1.0 && 0.0 <= alpha1 <= 1.0 && 0.0 <= alpha2 <= 1.0
    ensures 0.0 <= MixWeight(p, alpha1, alpha2) <= 1.0
    ensures alpha1 == alpha2 ==> MixWeight(p, alpha1, alpha2) == p
  {
    MixRatioRange(p * 2.0 - 1.0, alpha1 - alpha2);
  }

  lemma QuotientInUnitRange(x: real, d: real)
    requires d > 0.0 && -d <= x <= d
    ensures -1.0 <= x / d <= 1.0
  {
  }

  /**
   * mix(): the operand is converted to a colour, the weight (default 50)
   * must be an integer in [0, 100]; the weights are then computed, but the
   * next step calls `$this->rgb()`, which the class does not define, so the
   * call fails there. The receiver's fields are not touched.
   */
  function Mix(v: ColourValue, other: MixOperand, weight: Option<Number>): (r: Result<ColourValue>)
    requires v.WellFormed()
    ensures r.Failure?
    ensures other.Argument? && Parse(other.input).Failure? ==> r == Parse(other.input)
    ensures (other.ColourOperand? || Parse(other.input).Success?) ==>
      match weight.GetOr(Int(50))
      case Float(_) => r == Failure(WeightNotInteger)
      case Int(p) => r == Failure(if 0 <= p <= 100 then UndefinedMethod else WeightOutOfRange)
  {
    var _ :- match other
      case ColourOperand(c) => Success(c)
      case Argument(input) => Parse(input);
    match weight.GetOr(Int(50))
    case Float(_) => Failure(WeightNotInteger)
    case Int(n) =>
      if !(0 <= n <= 100) then Failure(WeightOutOfRange)
      else Failure(UndefinedMethod)
  }
}
