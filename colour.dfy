/**
 * The Colour class: seven fields (red, green and blue, hue, saturation and
 * lightness, each possibly null, and alpha) that the getters complete on
 * first use, the operators overwrite in place, and the adjustments read
 * to build new colours. Each method is proved against the function on
 * ColourValue that states what it computes.
 */
module Colours {
  import opened Outcomes
  import opened PhpNumbers
  import opened ColourState
  import opened ColourInput
  import opened ColourFormat
  import opened Adjustments
  import opened ColourArithmetic
  import opened Palettes
  import Spaces = ColourSpaces

  /** The operand of an operator method: a colour object, a PHP integer, or any other value. */
  datatype Arg = ColourArg(colour: Colour) | IntArg(k: int) | OtherArg

  /** The other colour of mix(): an object, or anything the constructor is given. */
  datatype MixArg = MixColour(colour: Colour) | MixInput(input: Input)

  /** The object a result holds, if any. */
  function Held(res: Result<Colour>): set<object> {
    if res.Success? then {res.value} else {}
  }

  /** The object an operand holds, if any. */
  function ArgFrame(y: Arg): set<object> {
    if y.ColourArg? then {y.colour} else {}
  }

  class Colour {
    var r: Option<real>
    var g: Option<real>
    var b: Option<real>
    var h: Option<real>
    var s: Option<real>
    var l: Option<real>
    var a: real

    /** The fields as a value. */
    function Value(): ColourValue
      reads this
    {
      ColourValue(r, g, b, h, s, l, a)
    }

    predicate Valid()
      reads this
    {
      Value().WellFormed()
    }

    /** An operation on this colour returned res and left the fields as o says. */
    predicate Yields(res: Result<Colour>, o: Outcome)
      reads this, Held(res)
    {
      Value() == o.receiver &&
      match res
      case Success(c) => o.result == Success(c.Value())
      case Failure(e) => o.result == Failure(e)
    }

    /** An object holding the fields of v. */
    constructor (v: ColourValue)
      ensures Value() == v
    {
      r, g, b := v.r, v.g, v.b;
      h, s, l := v.h, v.s, v.l;
      a := v.a;
    }

    /** new Colour($colour): the fields the argument selects, or the constructor's error. */
    static method Create(c: Input) returns (res: Result<Colour>)
      ensures res.Success? <==> Parse(c).Success?
      ensures res.Success? ==> fresh(res.value) && res.value.Value() == Parse(c).value && res.value.Valid()
      ensures res.Failure? ==> res.error == Parse(c).error
    {
      var parsed := Parse(c);
      if parsed.Failure? {
        return Failure(parsed.error);
      }
      var colour := new Colour(parsed.value);
      return Success(colour);
    }

    // -------------------------------------------------------------------------
    // Conversions

    /** hsl2rgb: computes red, green and blue from the stored HSL components. */
    method Hsl2Rgb()
      requires Valid() && Value().HasHsl()
      modifies this
      ensures Value() == old(Value()).(r := Some(Spaces.HslToRgb(old(Value()).Hsl()).0),
                                       g := Some(Spaces.HslToRgb(old(Value()).Hsl()).1),
                                       b := Some(Spaces.HslToRgb(old(Value()).Hsl()).2))
    {
      var rgb := Spaces.HslToRgb(Spaces.Triple(h.value, s.value, l.value));
      r := Some(rgb.0);
      g := Some(rgb.1);
      b := Some(rgb.2);
    }

    /** rgb2hsl: computes hue, saturation and lightness from the stored RGB components. */
    method Rgb2Hsl()
      requires Valid() && Value().HasRgb() && Spaces.Convertible(Value().Rgb())
      modifies this
      ensures Value() == old(Value()).(h := Some(Spaces.RgbToHsl(old(Value()).Rgb()).0),
                                       s := Some(Spaces.RgbToHsl(old(Value()).Rgb()).1),
                                       l := Some(Spaces.RgbToHsl(old(Value()).Rgb()).2))
    {
      var hsl := Spaces.RgbToHsl(Spaces.Triple(r.value, g.value, b.value));
      h := Some(hsl.0);
      s := Some(hsl.1);
      l := Some(hsl.2);
    }

    // -------------------------------------------------------------------------
    // Getters

    method GetAlpha() returns (alpha: real)
      ensures alpha == a
    {
      alpha := a;
    }

    method GetHue() returns (hue: real)
      requires Valid() && Value().HslComputable()
      modifies this
      ensures Value() == old(Value()).HslFilled() && hue == old(Value()).Hue()
    {
      if h.None? {
        Rgb2Hsl();
      }
      hue := h.value;
    }

    method GetSaturation() returns (saturation: real)
      requires Valid() && Value().HslComputable()
      modifies this
      ensures Value() == old(Value()).HslFilled() && saturation == old(Value()).Saturation()
    {
      if s.None? {
        Rgb2Hsl();
      }
      saturation := s.value;
    }

    method GetLightness() returns (lightness: real)
      requires Valid() && Value().HslComputable()
      modifies this
      ensures Value() == old(Value()).HslFilled() && lightness == old(Value()).Lightness()
    {
      if l.None? {
        Rgb2Hsl();
      }
      lightness := l.value;
    }

    method GetRed() returns (red: int)
      requires Valid()
      modifies this
      ensures Value() == old(Value()).RgbFilled() && red == old(Value()).Red()
    {
      if r.None? {
        Hsl2Rgb();
      }
      red := Spaces.Channel(r.value);
    }

    method GetGreen() returns (green: int)
      requires Valid()
      modifies this
      ensures Value() == old(Value()).RgbFilled() && green == old(Value()).Green()
    {
      if g.None? {
        Hsl2Rgb();
      }
      green := Spaces.Channel(g.value);
    }

    method GetBlue() returns (blue: int)
      requires Valid()
      modifies this
      ensures Value() == old(Value()).RgbFilled() && blue == old(Value()).Blue()
    {
      if b.None? {
        Hsl2Rgb();
      }
      blue := Spaces.Channel(b.value);
    }

    method GetRgb() returns (rgb: (int, int, int))
      requires Valid()
      modifies this
      ensures Value() == old(Value()).RgbFilled()
      ensures rgb == (old(Value()).Red(), old(Value()).Green(), old(Value()).Blue())
      ensures 0 <= rgb.0 <= 255 && 0 <= rgb.1 <= 255 && 0 <= rgb.2 <= 255
    {
      var red := GetRed();
      var green := GetGreen();
      var blue := GetBlue();
      rgb := (red, green, blue);
    }

    method GetRgba() returns (rgba: (int, int, int, real))
      requires Valid()
      modifies this
      ensures Value() == old(Value()).RgbFilled()
      ensures rgba == (old(Value()).Red(), old(Value()).Green(), old(Value()).Blue(), old(Value()).a)
    {
      var rgb := GetRgb();
      rgba := (rgb.0, rgb.1, rgb.2, a);
    }

    method GetHsl() returns (hsl: (real, real, real))
      requires Valid() && Value().HslComputable()
      modifies this
      ensures Value() == old(Value()).HslFilled()
      ensures hsl == (old(Value()).Hue(), old(Value()).Saturation(), old(Value()).Lightness())
    {
      var hue := GetHue();
      var saturation := GetSaturation();
      var lightness := GetLightness();
      hsl := (hue, saturation, lightness);
    }

    method GetHsla() returns (hsla: (real, real, real, real))
      requires Valid() && Value().HslComputable()
      modifies this
      ensures Value() == old(Value()).HslFilled()
      ensures hsla == (old(Value()).Hue(), old(Value()).Saturation(), old(Value()).Lightness(), old(Value()).a)
    {
      var hsl := GetHsl();
      hsla := (hsl.0, hsl.1, hsl.2, a);
    }

    method IsTranslucent() returns (translucent: bool)
      ensures translucent <==> a < 1.0
    {
      translucent := a < 1.0;
    }

    /** toString: the getters the format needs fill their caches, and the text is rendered from them. */
    method ToString(format: string, css3: bool, short: bool) returns (res: Result<string>)
      requires Valid() && (NeedsHsl(format) ==> Value().HslComputable())
      modifies this
      ensures Value() == RenderState(old(Value()), format)
      ensures res == Render(old(Value()), format, css3, short)
    {
      ghost var v := Value();
      if NeedsHsl(format) {
        var _ := GetHsla();
      } else if IsFormat(format) {
        var _ := GetRgba();
      }
      res := Render(Value(), format, css3, short);
      RenderStateRenders(v, format, css3, short);
    }

    // -------------------------------------------------------------------------
    // Operators

    /** An operand the operator methods accept: a colour in a state the class builds, or a 64-bit integer. */
    static predicate ArgValid(y: Arg)
      reads ArgFrame(y)
    {
      match y
      case ColourArg(c) => c.Valid()
      case IntArg(k) => InWordRange(k)
      case OtherArg => true
    }

    /** The operand's value, with a colour object's fields read as a value. */
    static function OperandOf(y: Arg): Operand
      reads ArgFrame(y)
    {
      match y
      case ColourArg(c) => Operand.ColourOperand(c.Value())
      case IntArg(k) => IntOperand(k)
      case OtherArg => OtherOperand
    }

    /** One channel of the other operand, read through a getter of a colour object. */
    method OperandChannel(y: Arg, channel: Key) returns (k: int)
      requires ArgValid(y) && !y.OtherArg? && channel in {R, G, B}
      modifies ArgFrame(y)
      ensures y.ColourArg? ==> y.colour.Value() == old(y.colour.Value()).RgbFilled()
      ensures channel == R ==> k == OperandChannels(old(OperandOf(y))).r
      ensures channel == G ==> k == OperandChannels(old(OperandOf(y))).g
      ensures channel == B ==> k == OperandChannels(old(OperandOf(y))).b
    {
      if y.IntArg? {
        k := y.k;
      } else if channel == R {
        k := y.colour.GetRed();
      } else if channel == G {
        k := y.colour.GetGreen();
      } else {
        k := y.colour.GetBlue();
      }
    }

    /**
     * The right-hand side of one channel's assignment: the receiver's getter
     * and the operand's getter, read in that order, and combined.
     */
    method CombineChannel(op: Operator, y: Arg, channel: Key) returns (res: Result<real>)
      requires Valid() && ArgValid(y) && !y.OtherArg? && channel in {R, G, B}
      modifies this, ArgFrame(y)
      ensures res == Combine(op, Getter(old(Value()), channel), OperandGetter(old(OperandOf(y)), channel))
      ensures Value() == old(Value()).RgbFilled()
      ensures y.ColourArg? && y.colour != this ==> y.colour.Value() == old(y.colour.Value()).RgbFilled()
      ensures ArgValid(y) && OperandChannels(OperandOf(y)) == OperandChannels(old(OperandOf(y)))
    {
      ghost var yv := OperandOf(y);
      if y.ColourArg? {
        RgbFillingKeepsGetters(yv.colour);
      }
      var x := GetChannel(channel);
      var k := OperandChannel(y, channel);
      res := Combine(op, x, k);
    }

    /** The getter of one of red, green and blue, as the operator methods call it. */
    method GetChannel(channel: Key) returns (x: int)
      requires Valid() && channel in {R, G, B}
      modifies this
      ensures Value() == old(Value()).RgbFilled() && x == Getter(old(Value()), channel)
    {
      if channel == R {
        x := GetRed();
      } else if channel == G {
        x := GetGreen();
      } else {
        x := GetBlue();
      }
    }

    /** The assignment of one of r, g and b. */
    method SetChannel(channel: Key, x: real)
      requires channel in {R, G, B}
      modifies this
      ensures Value() == Assigned(old(Value()), channel, x)
    {
      if channel == R {
        r := Some(x);
      } else if channel == G {
        g := Some(x);
      } else {
        b := Some(x);
      }
    }

    /** One channel of an operator: its value is computed and, unless that fails, assigned. */
    method AssignChannel(op: Operator, y: Arg, channel: Key) returns (res: Result<real>)
      requires Valid() && ArgValid(y) && !y.OtherArg? && channel in {R, G, B}
      modifies this, ArgFrame(y)
      ensures res == Combine(op, Getter(old(Value()), channel), OperandGetter(old(OperandOf(y)), channel))
      ensures Value() == if res.Failure? then old(Value()).RgbFilled() else Assigned(old(Value()).RgbFilled(), channel, res.value)
      ensures y.ColourArg? && y.colour != this ==> y.colour.Value() == old(y.colour.Value()).RgbFilled()
      ensures ArgValid(y)
      ensures channel != R ==> OperandGetter(OperandOf(y), R) == OperandGetter(old(OperandOf(y)), R)
      ensures channel != G ==> OperandGetter(OperandOf(y), G) == OperandGetter(old(OperandOf(y)), G)
      ensures channel != B ==> OperandGetter(OperandOf(y), B) == OperandGetter(old(OperandOf(y)), B)
    {
      res := CombineChannel(op, y, channel);
      ghost var y1 := OperandOf(y);
      if res.Success? {
        SetChannel(channel, res.value);
      }
      assert channel != R ==> OperandGetter(OperandOf(y), R) == OperandGetter(y1, R);
      assert channel != G ==> OperandGetter(OperandOf(y), G) == OperandGetter(y1, G);
      assert channel != B ==> OperandGetter(OperandOf(y), B) == OperandGetter(y1, B);
    }

    /**
     * add, subtract, multiply, divide, modulus, bwAnd, bwOr and bwXor: each
     * channel is read through the getters of both operands and the result
     * assigned at once; the method returns this colour.
     */
    method Operate(op: Operator, y: Arg) returns (res: Result<Colour>)
      requires Valid() && ArgValid(y)
      modifies this, ArgFrame(y)
      ensures var o := Arithmetic(old(Value()), op, old(OperandOf(y)));
        Value() == o.receiver && (res.Success? <==> o.result.Success?) &&
        (res.Success? ==> res.value == this) && (res.Failure? ==> res.error == o.result.error)
      ensures y.ColourArg? && y.colour != this ==> y.colour.Value() == old(y.colour.Value()).RgbFilled()
    {
      if y.OtherArg? {
        return Failure(InvalidOperand);
      }
      ghost var v := Value();
      ArithmeticInStages(v, op, OperandOf(y));
      var red := AssignChannel(op, y, R);
      if red.Failure? {
        return Failure(red.error);
      }
      var green := AssignChannel(op, y, G);
      if green.Failure? {
        return Failure(green.error);
      }
      var blue := AssignChannel(op, y, B);
      if blue.Failure? {
        return Failure(blue.error);
      }
      return Success(this);
    }

    /** bwNot: every channel is replaced by the complement of its getter value. */
    method BwNot() returns (res: Colour)
      requires Valid()
      modifies this
      ensures Value() == BitwiseNot(old(Value())) && res == this
    {
      var red := GetRed();
      var green := GetGreen();
      var blue := GetBlue();
      r := Some(BitNot(red) as real);
      g := Some(BitNot(green) as real);
      b := Some(BitNot(blue) as real);
      return this;
    }

    /** shiftl and shiftr: an integer operand shifts every channel by 0; anything else is rejected. */
    method Shift(y: Arg) returns (res: Result<Colour>)
      requires Valid()
      modifies this
      ensures var o := ColourArithmetic.Shift(old(Value()), old(OperandOf(y)));
        Value() == o.receiver && (res.Success? <==> o.result.Success?) &&
        (res.Success? ==> res.value == this) && (res.Failure? ==> res.error == o.result.error)
    {
      if !y.IntArg? {
        return Failure(InvalidOperand);
      }
      var red := GetRed();
      var green := GetGreen();
      var blue := GetBlue();
      r := Some(red as real);
      g := Some(green as real);
      b := Some(blue as real);
      return Success(this);
    }

    // -------------------------------------------------------------------------
    // Adjustments

    /** with(): a new colour from this one's components, merged with the changed ones. */
    method With(attrs: map<Key, real>) returns (res: Result<Colour>)
      requires Valid() && (SelectsHsl(attrs) ==> Value().HslComputable())
      modifies this
      ensures Yields(res, Adjustments.With(old(Value()), attrs)) && (res.Success? ==> fresh(res.value))
    {
      ghost var v := Value();
      WithParsesMerged(v, attrs);
      var scheme := AssertValid(attrs.Keys, |attrs|, false);
      if scheme.Failure? {
        return Failure(scheme.error);
      }
      if scheme.value == HslScheme {
        var hue := GetHue();
        var saturation := GetSaturation();
        var lightness := GetLightness();
        res := Create(Table(map[H := hue, S := saturation, L := lightness, A := a] + attrs));
      } else {
        var red := GetRed();
        var green := GetGreen();
        var blue := GetBlue();
        res := Create(Table(map[R := red as real, G := green as real, B := blue as real, A := a] + attrs));
      }
    }

    /**
     * adjust(): the amount must be an integer within [min, max]; the field
     * itself (null reading as 0) is moved by it and clipped.
     */
    method Adjust(amount: Number, ofCurrent: bool, attr: Key, increase: bool, min: int, max: int) returns (res: Result<Colour>)
      requires Adjustable(attr) && min <= max
      requires Valid() && (attr != A ==> Value().HslComputable())
      modifies this
      ensures Yields(res, Adjustments.Adjust(old(Value()), amount, ofCurrent, attr, increase, min, max)) && (res.Success? ==> fresh(res.value))
    {
      if amount.Float? {
        return Failure(AmountNotInteger);
      }
      if !(min <= amount.n <= max) {
        return Failure(AmountOutOfRange);
      }
      ghost var v := Value();
      var current := if attr == S then s.GetOr(0.0) else if attr == L then l.GetOr(0.0) else a;
      assert current == Stored(v, attr);
      var attrs := map[attr := Clip(Moved(current, amount.n, ofCurrent, increase), min as real, max as real)];
      ghost var spec := Adjustments.With(v, attrs);
      assert spec == Adjustments.Adjust(v, amount, ofCurrent, attr, increase, min, max);
      res := With(attrs);
    }

    method Lighten(amount: Number, ofCurrent: bool) returns (res: Result<Colour>)
      requires Valid() && Value().HslComputable()
      modifies this
      ensures Yields(res, Adjustments.Lighten(old(Value()), amount, ofCurrent)) && (res.Success? ==> fresh(res.value))
    {
      res := Adjust(amount, ofCurrent, L, true, 0, 100);
    }

    method Darken(amount: Number, ofCurrent: bool) returns (res: Result<Colour>)
      requires Valid() && Value().HslComputable()
      modifies this
      ensures Yields(res, Adjustments.Darken(old(Value()), amount, ofCurrent)) && (res.Success? ==> fresh(res.value))
    {
      res := Adjust(amount, ofCurrent, L, false, 0, 100);
    }

    method Saturate(amount: Number, ofCurrent: bool) returns (res: Result<Colour>)
      requires Valid() && Value().HslComputable()
      modifies this
      ensures Yields(res, Adjustments.Saturate(old(Value()), amount, ofCurrent)) && (res.Success? ==> fresh(res.value))
    {
      res := Adjust(amount, ofCurrent, S, true, 0, 100);
    }

    method Desaturate(amount: Number, ofCurrent: bool) returns (res: Result<Colour>)
      requires Valid() && Value().HslComputable()
      modifies this
      ensures Yields(res, Adjustments.Desaturate(old(Value()), amount, ofCurrent)) && (res.Success? ==> fresh(res.value))
    {
      res := Adjust(amount, ofCurrent, S, false, 0, 100);
    }

    /** opacify and fade_in. */
    method Opacify(amount: Number, ofCurrent: bool) returns (res: Result<Colour>)
      requires Valid()
      modifies this
      ensures Yields(res, Adjustments.Opacify(old(Value()), amount, ofCurrent)) && (res.Success? ==> fresh(res.value))
    {
      res := Adjust(amount, ofCurrent, A, true, 0, OpacityCeiling(amount));
    }

    /** transparentise, transparentize and fade_out. */
    method Transparentise(amount: Number, ofCurrent: bool) returns (res: Result<Colour>)
      requires Valid()
      modifies this
      ensures Yields(res, Adjustments.Transparentise(old(Value()), amount, ofCurrent)) && (res.Success? ==> fresh(res.value))
    {
      res := Adjust(amount, ofCurrent, A, false, 0, OpacityCeiling(amount));
    }

    method AdjustHue(degrees: int) returns (res: Colour)
      requires Valid() && Value().HslComputable()
      modifies this
      ensures var o := Adjustments.AdjustHue(old(Value()), degrees);
        Value() == o.receiver && o.result == Success(res.Value()) && fresh(res)
    {
      ghost var v := Value();
      FillingPreservesGetters(v);
      var hue := GetHue();
      ghost var u := Value();
      var attrs := map[H := FloatRem(hue + degrees as real, 360) as real];
      ghost var spec := Adjustments.With(u, attrs);
      assert spec == Adjustments.AdjustHue(v, degrees);
      var o := With(attrs);
      res := o.value;
      assert Value() == spec.receiver && spec.result == Success(res.Value());
    }

    method Complement() returns (res: Colour)
      requires Valid() && Value().HslComputable()
      modifies this
      ensures var o := Adjustments.Complement(old(Value()));
        Value() == o.receiver && o.result == Success(res.Value()) && fresh(res)
    {
      res := AdjustHue(180);
    }

    /** greyscale and grayscale. */
    method Greyscale() returns (res: Result<Colour>)
      requires Valid() && Value().HslComputable()
      modifies this
      ensures Yields(res, Adjustments.Greyscale(old(Value()))) && (res.Success? ==> fresh(res.value))
    {
      res := Desaturate(Int(100), false);
    }

    /**
     * mix(): the other colour is built if need be and the weight checked;
     * the call then fails at a method the class does not define.
     */
    method Mix(other: MixArg, weight: Option<Number>) returns (res: Result<Colour>)
      requires Valid() && (other.MixColour? ==> other.colour.Valid())
      ensures res.Failure?
      ensures res.error == Adjustments.Mix(Value(), if other.MixColour? then MixOperand.ColourOperand(other.colour.Value()) else Argument(other.input), weight).error
    {
      if other.MixInput? {
        var built := Create(other.input);
        if built.Failure? {
          return Failure(built.error);
        }
      }
      var w := weight.GetOr(Int(50));
      if w.Float? {
        return Failure(WeightNotInteger);
      }
      if !(0 <= w.n <= 100) {
        return Failure(WeightOutOfRange);
      }
      return Failure(UndefinedMethod);
    }

    // -------------------------------------------------------------------------
    // palette()

    /** palette(n, mode, format): the mode's colours, the first n of them rendered with toString. */
    method Palette(n: int, mode: Mode, format: string) returns (res: Result<seq<string>>)
      requires PaletteDefined(Value(), n, mode, format)
      modifies this
      ensures var o := Palettes.Palette(old(Value()), n, mode, format);
        Value() == o.receiver && res == o.result
    {
      if mode == Named("mono") {
        res := PaletteMono(n, format);
      } else {
        res := PaletteHues(n, mode, format);
      }
    }

    /** The mono branch: the darker colours from the darkest, this colour, then the lighter ones. */
    method PaletteMono(n: int, format: string) returns (res: Result<seq<string>>)
      requires PaletteDefined(Value(), n, Named("mono"), format)
      modifies this
      ensures var o := MonoPaletteOf(old(Value()), n, format);
        Value() == o.receiver && res == o.result
    {
      if n > MonoLimit {
        return Failure(TooManyColours);
      }
      if n <= 1 {
        res := RenderColours(Slice([Value()], n), format, 0);
      } else {
        ghost var v := Value();
        var colours, self := MonoList(n);
        MonoColoursHsl(v.HslFilled(), n);
        res := RenderColours(Slice(colours, n), format, self);
      }
    }

    /** The darker colours reversed, this colour, then the lighter colours; self is this colour's index. */
    method MonoList(n: int) returns (colours: seq<ColourValue>, self: int)
      requires Valid() && Value().HslComputable() && 1 < n && MonoTerminates(Value().Lightness(), n)
      modifies this
      ensures Value() == old(Value()).HslFilled()
      ensures colours == MonoColours(Value(), n) && 0 <= self < n && colours[self] == Value()
    {
      var darker, lighter := MonoSteps(n);
      colours, self := Reverse(darker) + [Value()] + lighter, |darker|;
    }

    /**
     * The mono loop: step i adds darken(5i) while the lightness allows it,
     * then lighten(5i), until n colours are counted. Reading the lightness
     * fills this colour's HSL cache.
     */
    method MonoSteps(n: int) returns (darker: seq<ColourValue>, lighter: seq<ColourValue>)
      requires Valid() && Value().HslComputable() && 1 < n && MonoTerminates(Value().Lightness(), n)
      modifies this
      ensures Value() == old(Value()).HslFilled()
      ensures (darker, lighter) == MonoLoop(old(Value()).HslFilled(), n, 1, 1, [], [])
    {
      ghost var v := Value();
      ghost var w := v.HslFilled();
      FillingPreservesGetters(v);
      ghost var target := MonoLoop(w, n, 1, 1, [], []);
      darker, lighter := [], [];
      var i, c := 1, 1;
      while c < n
        invariant 1 <= i <= 21 && (i == 1 ==> Value() == v && c == 1 && darker == [] && lighter == [])
        invariant i > 1 ==> Value() == w
        invariant c < n ==> n <= c + MonoHits(w.l.value, i)
        invariant MonoLoop(w, n, i, c, darker, lighter) == target
        decreases 21 - i
      {
        c, darker, lighter := MonoStep(w, n, i, c, darker, lighter);
        i := i + 1;
      }
    }

    /** Step i of the mono loop: the darker colour, then the lighter one, when each is added. */
    method MonoStep(ghost w: ColourValue, n: int, i: int, c: int, darker: seq<ColourValue>, lighter: seq<ColourValue>)
      returns (c': int, darker': seq<ColourValue>, lighter': seq<ColourValue>)
      requires Valid() && Value().HslComputable() && Value().HslFilled() == w
      requires 1 <= i && c < n <= c + MonoHits(w.l.value, i)
      modifies this
      ensures Value() == w && i < 21
      ensures c' < n ==> n <= c' + MonoHits(w.l.value, i + 1)
      ensures MonoLoop(w, n, i + 1, c', darker', lighter') == MonoLoop(w, n, i, c, darker, lighter)
    {
      MonoLoopUnfold(w, n, i, c, darker, lighter);
      c', darker' := DarkerStep(i, c, darker);
      c', lighter' := LighterStep(i, c', lighter);
    }

    /** Step i's darker colour, darken(5i), when the lightness is at least 5i. */
    method DarkerStep(i: int, c: int, darker: seq<ColourValue>) returns (c': int, darker': seq<ColourValue>)
      requires Valid() && Value().HslComputable() && 1 <= i <= 20
      modifies this
      ensures Value() == old(Value()).HslFilled()
      ensures c' == c + Indicator(MonoDarker(old(Value()).HslFilled().l.value, i))
      ensures darker' == DarkerAfter(old(Value()).HslFilled(), i, darker)
    {
      ghost var w := Value().HslFilled();
      var lightness := GetLightness();
      c', darker' := c, darker;
      if lightness - (i * 5) as real >= 0.0 {
        AdjustLightnessFillsCache(w, 5 * i, false);
        var d := Darken(Int(i * 5), false);
        c', darker' := c + 1, darker + [d.value.Value()];
      }
    }

    /** Step i's lighter colour, lighten(5i), when the lightness is at most 100 - 5i. */
    method LighterStep(i: int, c: int, lighter: seq<ColourValue>) returns (c': int, lighter': seq<ColourValue>)
      requires Valid() && Value().HslComputable() && 1 <= i <= 20
      modifies this
      ensures Value() == old(Value()).HslFilled()
      ensures c' == c + Indicator(MonoLighter(old(Value()).HslFilled().l.value, i))
      ensures lighter' == LighterAfter(old(Value()).HslFilled(), i, lighter)
    {
      ghost var w := Value().HslFilled();
      var lightness := GetLightness();
      c', lighter' := c, lighter;
      if lightness + (i * 5) as real <= 100.0 {
        AdjustLightnessFillsCache(w, 5 * i, true);
        var u := Lighten(Int(i * 5), false);
        c', lighter' := c + 1, lighter + [u.value.Value()];
      }
    }

    /** The other branches: the mode's colours, with darker and lighter variants when n asks for more. */
    method PaletteHues(n: int, mode: Mode, format: string) returns (res: Result<seq<string>>)
      requires PaletteDefined(Value(), n, mode, format) && mode != Named("mono")
      modifies this
      ensures var o := HuePaletteOf(old(Value()), n, mode, format);
        Value() == o.receiver && res == o.result
    {
      ghost var v := Value();
      var made := HueColours(n, mode);
      if made.Failure? {
        return Failure(made.error);
      }
      var base := made.value;
      if n > EntriesPerHue * |base| {
        return Failure(TooManyColours);
      }
      var colours := base;
      if n > |base| {
        ExpandedRenderable(v, n, mode, format, base);
        colours := ExpandColours(base, n);
      } else {
        var _ := PaletteColours(v, n, mode, format, base);
      }
      res := RenderColours(Slice(colours, n), format, -1);
    }

    /**
     * The switch on the mode: a named rotation (after lower-casing) or a
     * hue count turns this colour's hue; a list of colours builds each one.
     */
    method HueColours(n: int, mode: Mode) returns (colours: Result<seq<ColourValue>>)
      requires Valid() && (ReadsOwnHue(mode, n) ==> Value().HslComputable())
      modifies this
      ensures var s := BaseColours(old(Value()), n, mode);
        Value() == s.receiver && colours == s.colours
    {
      match mode
      case Named(name) =>
        var rot := NamedRotation(Lower(name));
        if rot.None? {
          return Failure(InvalidMode);
        }
        var m := Min(rot.value.count, n);
        if rot.value.offset.Some? {
          var start := AdjustHue(rot.value.offset.value);
          var turned := start.Turns(rot.value.step, m);
          colours := Success(turned);
        } else {
          var turned := Turns(rot.value.step, m);
          colours := Success(turned);
        }
      case HueCount(k) =>
        if k == 0 {
          return Failure(DivisionByZero);
        }
        if Rem(360, k) != 0 {
          return Failure(InvalidMode);
        }
        var turned := Turns(Quot(360, k), Min(k, n));
        colours := Success(turned);
      case ColourList(items) =>
        colours := CreateAll(items);
      case OtherMode =>
        colours := Failure(InvalidMode);
    }

    /** adjustHue(0), adjustHue(step), adjustHue(2 step), ... for m colours. */
    method Turns(step: int, m: int) returns (cols: seq<ColourValue>)
      requires Valid() && (m > 0 ==> Value().HslComputable())
      modifies this
      ensures cols == Rotations(old(Value()), step, m)
      ensures Value() == if m > 0 then old(Value()).HslFilled() else old(Value())
    {
      ghost var v := Value();
      cols := [];
      var k := 0;
      while k < m
        invariant 0 <= k && |cols| == k && (k == 0 || (k <= m && v.HslComputable()))
        invariant forall t | 0 <= t < k :: cols[t] == Adjustments.AdjustHue(v, t * step).result.value
        invariant Value() == if k > 0 then v.HslFilled() else v
      {
        FillingPreservesGetters(v);
        var turned := AdjustHue(k * step);
        cols := cols + [turned.Value()];
        k := k + 1;
      }
    }

    /** new Colour($item) for each item in turn; the first that fails raises its error. */
    static method CreateAll(items: seq<Input>) returns (colours: Result<seq<ColourValue>>)
      ensures colours == ParseAll(items)
    {
      var made: seq<ColourValue> := [];
      var k := 0;
      while k < |items|
        invariant 0 <= k <= |items| && |made| == k
        invariant forall t | 0 <= t < k :: Parse(items[t]) == Success(made[t])
      {
        var colour := Create(items[k]);
        if colour.Failure? {
          ParseAllStops(items, k);
          return Failure(colour.error);
        }
        made := made + [colour.value.Value()];
        k := k + 1;
      }
      colours := Success(made);
      assert ParseAll(items).Success? ==> ParseAll(items).value == made;
    }

    /**
     * toString(format) of each colour in turn; the colour at index self is
     * this object, whose caches the call fills.
     */
    method RenderColours(cols: seq<ColourValue>, format: string, self: int) returns (res: Result<seq<string>>)
      requires Renderable(cols, format)
      requires 0 <= self < |cols| ==> Value() == cols[self]
      modifies this
      ensures res == RenderAll(cols, format)
      ensures Value() == if 0 <= self < |cols| then RenderState(old(Value()), format) else old(Value())
    {
      ghost var v := Value();
      var palette: seq<string> := [];
      var k := 0;
      while k < |cols|
        invariant 0 <= k <= |cols| && RenderAll(cols[..k], format) == Success(palette)
        invariant Value() == if 0 <= self < k then RenderState(v, format) else v
      {
        var text: Result<string>;
        if k == self {
          text := ToString(format, true, true);
        } else {
          text := Render(cols[k], format, true, true);
        }
        if text.Failure? {
          return Failure(text.error);
        }
        RenderAllExtends(cols, format, k, palette, text.value);
        palette := palette + [text.value];
        k := k + 1;
      }
      res := Success(palette);
      assert cols[..k] == cols;
    }
  }

  // ---------------------------------------------------------------------------
  // The expansion loops of palette(), over the colours it has made

  /**
   * The outer loop: while fewer than n colours are counted, step i reads
   * the first colour's lightness (filling its cache) and runs a darker and
   * a lighter pass by (i + 1) * 10 percent; the variants are then merged
   * after the hue colours, step by step.
   */
  method ExpandColours(base: seq<ColourValue>, n: int) returns (colours: seq<ColourValue>)
    requires |base| < n <= EntriesPerHue * |base| && HslReady(base)
    ensures colours == Expanded(base, n)
  {
    ghost var first := base[0].HslFilled();
    FillingPreservesGetters(base[0]);
    ghost var l0 := first.l.value;
    PassesAtLeastEight(l0);
    StartCovers(|base|, n, Passes(l0, 0));
    ghost var target := Expand(base[0 := first], l0, n, 0, |base|, [], []);
    var cols := base;
    var count := |base|;
    var darker: seq<seq<ColourValue>> := [];
    var lighter: seq<seq<ColourValue>> := [];
    var i := 0;
    while count < n
      invariant 0 <= i <= 9 && |cols| == |base| && HslReady(cols) && |darker| == |lighter|
      invariant cols[0].HslFilled() == first && (i > 0 ==> cols[0] == first) && (i == 0 ==> count < n)
      invariant count < n ==> n <= count + |base| * Passes(l0, i)
      invariant Expand(cols[0 := first], l0, n, i, count, darker, lighter) == target
      decreases 9 - i
    {
      cols, count, darker, lighter := ExpandIteration(first, cols, n, i, count, darker, lighter);
      i := i + 1;
    }
    assert cols[0 := first] == cols;
    colours := MergeVariants(cols, darker, lighter);
  }

  /**
   * Step i of the expansion: the first column's lightness is read (which
   * fills its cache), then the darker pass and the lighter pass run.
   */
  method ExpandIteration(ghost first: ColourValue, cols: seq<ColourValue>, n: int, i: nat, count: int,
                         darker: seq<seq<ColourValue>>, lighter: seq<seq<ColourValue>>)
    returns (cols': seq<ColourValue>, count': int, darker': seq<seq<ColourValue>>, lighter': seq<seq<ColourValue>>)
    requires |cols| >= 1 && HslReady(cols) && cols[0].HslFilled() == first && |darker| == |lighter|
    requires count < n <= count + |cols| * Passes(first.l.value, i)
    ensures i < 9 && |cols'| == |cols| && HslReady(cols') && cols'[0] == first && |darker'| == |lighter'|
    ensures count' < n ==> n <= count' + |cols| * Passes(first.l.value, i + 1)
    ensures Expand(cols'[0 := first], first.l.value, n, i + 1, count', darker', lighter') ==
            Expand(cols[0 := first], first.l.value, n, i, count, darker, lighter)
  {
    FillingPreservesGetters(cols[0]);
    var l := cols[0].Lightness();
    var filled := cols[0 := cols[0].HslFilled()];
    assert l == first.l.value;
    var adj := (i + 1) * 10;
    ExpandStep(filled, l, n, i, count);
    var s1 := RunPass(filled, false, l - adj as real > 0.0, adj, n, count);
    var s2 := RunPass(s1.cols, true, l + adj as real < 100.0, adj, n, s1.count);
    cols', count' := s2.cols, s2.count;
    darker', lighter' := darker + [s1.added], lighter + [s2.added];
    assert cols'[0 := first] == cols';
  }

  method RunPass(cols: seq<ColourValue>, lighten: bool, applies: bool, adj: int, n: int, c: int) returns (r: Sweep)
    requires 0 <= adj <= 100 && HslReady(cols)
    ensures r == Pass(cols, lighten, applies, adj, n, 0, c, [])
  {
    var columns, count, added := cols, c, [];
    var j := 0;
    while j < |columns| && count < n
      invariant 0 <= j <= |columns| && HslReady(columns)
      invariant Pass(columns, lighten, applies, adj, n, j, count, added) == Pass(cols, lighten, applies, adj, n, 0, c, [])
      decreases |columns| - j
    {
      if applies {
        var o := if lighten then Lighten(columns[j], Int(adj), false) else Darken(columns[j], Int(adj), false);
        AdjustLightnessFillsCache(columns[j], adj, lighten);
        FillingPreservesGetters(columns[j]);
        added := added + [o.result.value];
        columns := columns[j := o.receiver];
        count := count + 1;
      }
      j := j + 1;
    }
    r := Sweep(columns, count, added);
  }

  /** The merge: each step's darker variants, then its lighter ones, after the columns. */
  method MergeVariants(cols: seq<ColourValue>, darker: seq<seq<ColourValue>>, lighter: seq<seq<ColourValue>>)
    returns (colours: seq<ColourValue>)
    requires |darker| == |lighter|
    ensures colours == cols + Interleave(darker, lighter)
  {
    colours := cols;
    var i := 0;
    while i < |darker|
      invariant 0 <= i <= |darker|
      invariant colours == cols + Interleave(darker[..i], lighter[..i])
    {
      InterleaveStep(darker[..i], lighter[..i], darker[i], lighter[i]);
      assert darker[..i + 1] == darker[..i] + [darker[i]];
      assert lighter[..i + 1] == lighter[..i] + [lighter[i]];
      colours := colours + darker[i] + lighter[i];
      i := i + 1;
    }
    assert darker[..i] == darker && lighter[..i] == lighter;
  }

  /** The getter of one of red, green and blue. */
  function Getter(v: ColourValue, channel: Key): (c: int)
    requires v.WellFormed() && channel in {R, G, B}
    ensures 0 <= c <= 255
    ensures channel == R ==> c == v.Red()
    ensures channel == G ==> c == v.Green()
    ensures channel == B ==> c == v.Blue()
  {
    if channel == R then v.Red() else if channel == G then v.Green() else v.Blue()
  }

  /** The operand's value for one of red, green and blue. */
  function OperandGetter(y: Operand, channel: Key): (k: int)
    requires ValidOperand(y) && !y.OtherOperand? && channel in {R, G, B}
    ensures InWordRange(k)
    ensures channel == R ==> k == OperandChannels(y).r
    ensures channel == G ==> k == OperandChannels(y).g
    ensures channel == B ==> k == OperandChannels(y).b
  {
    var c := OperandChannels(y);
    if channel == R then c.r else if channel == G then c.g else c.b
  }

  /** Filling the RGB cache does not change what the getters of red, green and blue report. */
  lemma RgbFillingKeepsGetters(v: ColourValue)
    requires v.WellFormed()
    ensures v.RgbFilled().Red() == v.Red() && v.RgbFilled().Green() == v.Green() && v.RgbFilled().Blue() == v.Blue()
  {
    assert v.RgbFilled().RgbFilled() == v.RgbFilled();
  }

  /** A colour with one of red, green and blue replaced. */
  function Assigned(w: ColourValue, channel: Key, x: real): (u: ColourValue)
    requires channel in {R, G, B}
    ensures u.h == w.h && u.s == w.s && u.l == w.l && u.a == w.a
    ensures w.WellFormed() && w.HasRgb() ==>
      u.WellFormed() && u.HasRgb() &&
      (channel != R ==> u.Red() == w.Red()) &&
      (channel != G ==> u.Green() == w.Green()) &&
      (channel != B ==> u.Blue() == w.Blue())
  {
    var u := if channel == R then w.(r := Some(x)) else if channel == G then w.(g := Some(x)) else w.(b := Some(x));
    assert w.WellFormed() && w.HasRgb() ==> u.RgbFilled() == u && w.RgbFilled() == w;
    u
  }

  /**
   * The operators read each channel of the receiver after the channels
   * before it were assigned; since an assignment leaves the other channels'
   * getters alone, this is the same as reading them all up front.
   */
  lemma ArithmeticInStages(v: ColourValue, op: Operator, y: Operand)
    requires v.WellFormed() && ValidOperand(y) && !y.OtherOperand?
    ensures var w := v.RgbFilled();
      var o := Arithmetic(v, op, y);
      var red := Combine(op, Getter(v, R), OperandGetter(y, R));
      (red.Failure? ==> o == Outcome(w, Failure(red.error))) &&
      (red.Success? ==>
        var w1 := Assigned(w, R, red.value);
        var green := Combine(op, Getter(w1, G), OperandGetter(y, G));
        (green.Failure? ==> o == Outcome(w1, Failure(green.error))) &&
        (green.Success? ==>
          var w2 := Assigned(w1, G, green.value);
          var blue := Combine(op, Getter(w2, B), OperandGetter(y, B));
          (blue.Failure? ==> o == Outcome(w2, Failure(blue.error))) &&
          (blue.Success? ==> var w3 := Assigned(w2, B, blue.value); o == Outcome(w3, Success(w3)))))
  {
    RgbFillingKeepsGetters(v);
  }

  /** Rendering the state toString leaves gives the same text as rendering the state before it. */
  lemma RenderStateRenders(v: ColourValue, format: string, css3: bool, short: bool)
    requires v.WellFormed() && (NeedsHsl(format) ==> v.HslComputable())
    ensures Render(RenderState(v, format), format, css3, short) == Render(v, format, css3, short)
  {
    if NeedsHsl(format) {
      FillingPreservesGetters(v);
    } else if IsFormat(format) {
      assert v.RgbFilled().RgbFilled() == v.RgbFilled();
    }
  }
}
