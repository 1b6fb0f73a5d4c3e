/**
 * The in-place arithmetic and bitwise operators: add, subtract, multiply,
 * divide, modulus, bwAnd, bwOr, bwXor, bwNot, shiftl and shiftr. Each reads
 * the receiver's red, green and blue through the normalising getters,
 * combines them with the operand's (another colour's getters, or one
 * integer for all three), and assigns the results to r, g and b in that
 * order; hue, saturation, lightness and alpha are never touched.
 */
module ColourArithmetic {
  import opened Outcomes
  import opened PhpNumbers
  import opened ColourState
  import opened Adjustments
  import Spaces = ColourSpaces

  /** The binary operators, in the order the class declares them. */
  datatype Operator = Add | Subtract | Multiply | Divide | Modulus | And | Or | Xor

  /** The second operand: a colour object, a PHP integer, or any other value. */
  datatype Operand = ColourOperand(colour: ColourValue) | IntOperand(k: int) | OtherOperand

  /** The operand a valid call can pass: a colour in a state the class builds, or a 64-bit integer. */
  predicate ValidOperand(y: Operand) {
    match y
    case ColourOperand(c) => c.WellFormed()
    case IntOperand(k) => InWordRange(k)
    case OtherOperand => true
  }

  /** The three values combined with red, green and blue. */
  datatype Channels = Channels(r: int, g: int, b: int)

  /** The operand's values: another colour's normalised channels, or the integer three times. */
  function OperandChannels(y: Operand): (c: Channels)
    requires ValidOperand(y) && !y.OtherOperand?
    ensures InWordRange(c.r) && InWordRange(c.g) && InWordRange(c.b)
    ensures y.ColourOperand? ==> 0 <= c.r <= 255 && 0 <= c.g <= 255 && 0 <= c.b <= 255
  {
    match y
    case ColourOperand(o) => Channels(o.Red(), o.Green(), o.Blue())
    case IntOperand(k) => Channels(k, k, k)
  }

  /**
   * One channel: the operator applied to a getter value x in [0, 255] and
   * the operand's value y. Division and remainder by zero raise PHP's
   * DivisionByZeroError; the float a getter returns is converted to an
   * integer by `%` and the bitwise operators.
   */
  function Combine(op: Operator, x: int, y: int): (r: Result<real>)
    requires 0 <= x <= 255 && InWordRange(y)
    ensures r.Failure? <==> (op == Divide || op == Modulus) && y == 0
    ensures r.Failure? ==> r.error == DivisionByZero
  {
    match op
    case Add => Success((x + y) as real)
    case Subtract => Success((x - y) as real)
    case Multiply => Success((x * y) as real)
    case Divide => if y == 0 then Failure(DivisionByZero) else Success(x as real / y as real)
    case Modulus => if y == 0 then Failure(DivisionByZero) else Success(Rem(x, y) as real)
    case And => Success(BitAnd(x, y) as real)
    case Or => Success(BitOr(x, y) as real)
    case Xor => Success(BitXor(x, y) as real)
  }

  /**
   * A binary operator method: an operand that is neither a colour nor an
   * integer is rejected before anything is read. Otherwise the receiver's
   * RGB cache is filled, and red, green and blue are assigned one after
   * the other; a division by zero stops the method with the channels before
   * it already assigned. On success the method returns the receiver.
   */
  function Arithmetic(v: ColourValue, op: Operator, y: Operand): (o: Outcome)
    requires v.WellFormed() && ValidOperand(y)
    ensures o.receiver.WellFormed()
    ensures o.receiver.h == v.h && o.receiver.s == v.s && o.receiver.l == v.l && o.receiver.a == v.a
    ensures y.OtherOperand? <==> o == Outcome(v, Failure(InvalidOperand))
    ensures !y.OtherOperand? ==> o.receiver.HasRgb()
    ensures o.result.Success? ==> o.result.value == o.receiver
    ensures !y.OtherOperand? ==>
      (o.result.Failure? <==> (op == Divide || op == Modulus) && 0 in {OperandChannels(y).r, OperandChannels(y).g, OperandChannels(y).b})
  {
    if y.OtherOperand? then Outcome(v, Failure(InvalidOperand))
    else
      var w := v.RgbFilled();
      var c := OperandChannels(y);
      match Combine(op, w.Red(), c.r)
      case Failure(e) => Outcome(w, Failure(e))
      case Success(red) =>
        var w1 := w.(r := Some(red));
        match Combine(op, w.Green(), c.g)
        case Failure(e) => Outcome(w1, Failure(e))
        case Success(green) =>
          var w2 := w1.(g := Some(green));
          match Combine(op, w.Blue(), c.b)
          case Failure(e) => Outcome(w2, Failure(e))
          case Success(blue) =>
            var w3 := w2.(b := Some(blue));
            Outcome(w3, Success(w3))
  }

  /** bwNot: every channel becomes the 64-bit complement of its getter value. */
  function BitwiseNot(v: ColourValue): (w: ColourValue)
    requires v.WellFormed()
    ensures w.WellFormed() && w.HasRgb()
    ensures w.h == v.h && w.s == v.s && w.l == v.l && w.a == v.a
  {
    var u := v.RgbFilled();
    u.(r := Some(BitNot(u.Red()) as real), g := Some(BitNot(u.Green()) as real), b := Some(BitNot(u.Blue()) as real))
  }

  /**
   * shiftl and shiftr: an integer operand's `value` property reads as null,
   * so every channel is shifted by 0 and becomes its getter value; any other
   * operand is rejected before anything is read.
   */
  function Shift(v: ColourValue, y: Operand): (o: Outcome)
    requires v.WellFormed()
    ensures o.receiver.h == v.h && o.receiver.s == v.s && o.receiver.l == v.l && o.receiver.a == v.a
    ensures !y.IntOperand? <==> o == Outcome(v, Failure(InvalidOperand))
    ensures o.result.Success? ==> o.result.value == o.receiver
  {
    if !y.IntOperand? then Outcome(v, Failure(InvalidOperand))
    else
      var u := v.RgbFilled();
      var w := u.(r := Some(u.Red() as real), g := Some(u.Green() as real), b := Some(u.Blue() as real));
      Outcome(w, Success(w))
  }

  // ---------------------------------------------------------------------------
  // Properties of the operators

  /**
   * The operators assign only red, green and blue: a cached HSL
   * representation survives unchanged, so hue, saturation and lightness
   * keep reporting the colour from before the operation.
   */
  lemma ArithmeticLeavesHslStale(v: ColourValue, op: Operator, y: Operand)
    requires v.WellFormed() && v.HasHsl() && ValidOperand(y)
    ensures var w := Arithmetic(v, op, y).receiver;
      w.HslComputable() && w.Hue() == v.Hue() && w.Saturation() == v.Saturation() &&
      w.Lightness() == v.Lightness() && w.a == v.a
  {
  }

  /** The receiver's channels after a successful operator, as the getters report them. */
  function Reported(o: Outcome): (c: Channels)
    requires o.receiver.WellFormed()
    ensures 0 <= c.r <= 255 && 0 <= c.g <= 255 && 0 <= c.b <= 255
  {
    Channels(o.receiver.Red(), o.receiver.Green(), o.receiver.Blue())
  }

  /** Adding an integer and then subtracting it restores every channel when no sum leaves [0, 255]. */
  lemma AddThenSubtract(v: ColourValue, k: int)
    requires v.WellFormed() && InWordRange(k)
    requires 0 <= v.Red() + k <= 255 && 0 <= v.Green() + k <= 255 && 0 <= v.Blue() + k <= 255
    ensures var o := Arithmetic(v, Add, IntOperand(k));
      o.result.Success? &&
      Reported(o) == Channels(v.Red() + k, v.Green() + k, v.Blue() + k) &&
      Reported(Arithmetic(o.receiver, Subtract, IntOperand(k))) == Channels(v.Red(), v.Green(), v.Blue())
  {
    var w := Arithmetic(v, Add, IntOperand(k)).receiver;
    ChannelOfByte(v.Red() + k);
    ChannelOfByte(v.Green() + k);
    ChannelOfByte(v.Blue() + k);
    assert w.RgbFilled() == w;
    ChannelOfByte(v.Red());
    ChannelOfByte(v.Green());
    ChannelOfByte(v.Blue());
  }

  /** A channel pushed past 255 is reduced modulo 255: red 250 plus 10 reads back as 5. */
  lemma AdditionWrapsPast255()
    ensures var o := Arithmetic(RgbValue(250.0, 0.0, 0.0, 1.0), Add, IntOperand(10));
      o.receiver.r == Some(260.0) && Reported(o).r == 5
  {
    var v := RgbValue(250.0, 0.0, 0.0, 1.0);
    ChannelOfByte(250);
    ChannelOfByte(0);
    assert Round(260.0) == 260;
  }

  /** The remainder by a non-zero integer stores a whole number in [0, |k|) for every channel. */
  lemma ModulusBounds(v: ColourValue, k: int)
    requires v.WellFormed() && InWordRange(k) && k != 0
    ensures var o := Arithmetic(v, Modulus, IntOperand(k));
      o.result.Success? &&
      0.0 <= o.receiver.r.value < IntAbs(k) as real && o.receiver.r.value == o.receiver.r.value.Floor as real &&
      0.0 <= o.receiver.g.value < IntAbs(k) as real && o.receiver.g.value == o.receiver.g.value.Floor as real &&
      0.0 <= o.receiver.b.value < IntAbs(k) as real && o.receiver.b.value == o.receiver.b.value.Floor as real
  {
  }

  /** Exclusive or with a byte twice restores every channel. */
  lemma XorTwice(v: ColourValue, k: int)
    requires v.WellFormed() && 0 <= k <= 255
    ensures var o := Arithmetic(v, Xor, IntOperand(k));
      Reported(Arithmetic(o.receiver, Xor, IntOperand(k))) == Channels(v.Red(), v.Green(), v.Blue())
  {
    var w := Arithmetic(v, Xor, IntOperand(k)).receiver;
    XorOfBytes(v.Red(), k);
    XorOfBytes(v.Green(), k);
    XorOfBytes(v.Blue(), k);
    ChannelOfByte(BitXor(v.Red(), k));
    ChannelOfByte(BitXor(v.Green(), k));
    ChannelOfByte(BitXor(v.Blue(), k));
    assert w.RgbFilled() == w;
    ChannelOfByte(v.Red());
    ChannelOfByte(v.Green());
    ChannelOfByte(v.Blue());
  }

  /**
   * bwNot does not invert a colour: the stored -c - 1 is read back through
   * its magnitude as c + 1, and 256 wraps to 1.
   */
  lemma BitwiseNotReadsBack(v: ColourValue)
    requires v.WellFormed()
    ensures var w := BitwiseNot(v);
      w.Red() == (if v.Red() == 255 then 1 else v.Red() + 1) &&
      w.Green() == (if v.Green() == 255 then 1 else v.Green() + 1) &&
      w.Blue() == (if v.Blue() == 255 then 1 else v.Blue() + 1)
  {
    var w := BitwiseNot(v);
    assert w.RgbFilled() == w;
    ComplementReadsBack(v.Red());
    ComplementReadsBack(v.Green());
    ComplementReadsBack(v.Blue());
  }

  lemma ComplementReadsBack(c: int)
    requires 0 <= c <= 255
    ensures Spaces.Channel(BitNot(c) as real) == if c == 255 then 1 else c + 1
  {
    assert Abs(BitNot(c) as real) == (c + 1) as real;
    if c < 255 {
      ChannelOfByte(c + 1);
    } else {
      assert Round(256.0) == 256;
    }
  }

  /** A shift is invisible to the getters, and it leaves a colour whose stored channels are its getter values. */
  lemma ShiftKeepsChannels(v: ColourValue, k: int)
    requires v.WellFormed()
    ensures var w := Shift(v, IntOperand(k)).receiver;
      w.WellFormed() && Reported(Shift(v, IntOperand(k))) == Channels(v.Red(), v.Green(), v.Blue()) &&
      w.r == Some(v.Red() as real) && w.g == Some(v.Green() as real) && w.b == Some(v.Blue() as real)
  {
    var w := Shift(v, IntOperand(k)).receiver;
    assert w.RgbFilled() == w;
    ChannelOfByte(v.Red());
    ChannelOfByte(v.Green());
    ChannelOfByte(v.Blue());
  }
}
