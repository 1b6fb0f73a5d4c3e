/**
 * Optional values (PHP's null) and the outcome of an operation that either
 * yields a value or raises one of the colour class's exceptions.
 */
module Outcomes {

  datatype Option<T> = None | Some(value: T) {
    function GetOr(default: T): (r: T)
      ensures Some? ==> r == value
      ensures None? ==> r == default
    {
      match this
      case Some(v) => v
      case None => default
    }
  }

  /**
   * The exceptions the colour class raises, one per distinct condition; the
   * message text (and its American spelling) is not modelled.
   */
  datatype Error =
    | InvalidColour            // an unparseable string or an argument that is neither string nor array
    | MixedColourSpace         // both RGB and HSL keys given
    | IncompleteRgb            // some but not all of r, g, b given where all are needed
    | IncompleteHsl            // some but not all of h, s, l given where all are needed
    | TooFewComponents         // a positional array of fewer than three values
    | InvalidFormat            // toString with an unknown format
    | InvalidOperand           // arithmetic with an operand of the wrong type
    | DivisionByZero           // PHP's DivisionByZeroError from `/` or `%`
    | WeightNotInteger         // mix with a non-integer weight
    | WeightOutOfRange         // mix with a weight outside 0..100
    | AmountNotInteger         // an adjustment by a non-integer amount
    | AmountOutOfRange         // an adjustment by an amount outside its range
    | TooManyColours           // a palette larger than its mode can produce
    | InvalidMode              // a palette mode that is not recognised
    | UndefinedMethod          // a call to a method the class does not define

  datatype Result<T> = Success(value: T) | Failure(error: Error) {
    predicate IsFailure() {
      Failure?
    }

    function PropagateFailure<U>(): Result<U>
      requires Failure?
    {
      Failure(error)
    }

    function Extract(): T
      requires Success?
    {
      value
    }
  }
}
