/**
 * The numeric semantics of PHP that the colour class relies on, written out
 * over Dafny's exact `int` and `real`: the float-to-int conversion that `%`,
 * `%d` and the bitwise operators apply, the remainder operator `%` (whose
 * result takes the sign of the dividend, unlike Dafny's Euclidean `%`),
 * `round` (half away from zero), and 64-bit two's-complement integers for
 * the bitwise operators.
 */
module PhpNumbers {

  function Abs(x: real): (r: real)
    ensures r >= 0.0 && (r == x || r == -x)
  {
    if x < 0.0 then -x else x
  }

  function IntAbs(x: int): (r: int)
    ensures r >= 0 && (r == x || r == -x)
  {
    if x < 0 then -x else x
  }

  /** Conversion of a float to an integer: truncation toward zero. */
  function Trunc(x: real): (r: int)
    ensures x >= 0.0 ==> 0 <= r && r as real <= x < r as real + 1.0
    ensures x < 0.0 ==> r <= 0 && r as real - 1.0 < x <= r as real
  {
    if x >= 0.0 then x.Floor else -((-x).Floor)
  }

  /** PHP's `intdiv`: the quotient truncated toward zero. */
  function Quot(a: int, n: int): int
    requires n != 0
  {
    var q := IntAbs(a) / IntAbs(n);
    if (a < 0) == (n < 0) then q else -q
  }

  /**
   * PHP's integer remainder `a % n`: its magnitude is |a| mod |n| and its
   * sign is that of the dividend; it completes the truncating quotient.
   */
  function Rem(a: int, n: int): (r: int)
    requires n != 0
    ensures a >= 0 ==> 0 <= r < IntAbs(n)
    ensures a < 0 ==> -IntAbs(n) < r <= 0
    ensures a == Quot(a, n) * n + r
  {
    QuotRem(a, n);
    if a >= 0 then a % IntAbs(n) else -((-a) % IntAbs(n))
  }

  lemma QuotRem(a: int, n: int)
    requires n != 0
    ensures a == Quot(a, n) * n + (if a >= 0 then a % IntAbs(n) else -((-a) % IntAbs(n)))
  {
    var m, x := IntAbs(n), IntAbs(a);
    var q, t := x / m, x % m;
    assert x == q * m + t;
    if n < 0 {
      assert q * n == -(q * m);
      assert (-q) * n == q * m;
    }
  }

  /** `x % n` on floats: both operands are truncated to integers first. */
  function FloatRem(x: real, n: int): (r: int)
    requires n != 0
  {
    Rem(Trunc(x), n)
  }

  /** PHP's `round`: to the nearest integer, halves away from zero. */
  function Round(x: real): (r: int)
    ensures x >= 0.0 ==> x - 0.5 < r as real <= x + 0.5
    ensures x < 0.0 ==> x - 0.5 <= r as real < x + 0.5
  {
    if x >= 0.0 then (x + 0.5).Floor else -((-x + 0.5).Floor)
  }

  // ---------------------------------------------------------------------------
  // Strings as bytes

  /**
   * The number of bytes a character takes in UTF-8. A PHP string is a
   * sequence of bytes; a Dafny string stands for its UTF-8 encoding.
   */
  function Utf8Width(c: char): (w: nat)
    ensures 1 <= w <= 4
    ensures w == 1 <==> c < 128 as char
  {
    if c < 128 as char then 1
    else if c < 0x800 as char then 2
    else if c < 0x10000 as char then 3
    else 4
  }

  /** A character that is a single byte in UTF-8. */
  predicate IsAscii(c: char) {
    c < 128 as char
  }

  /**
   * strlen: the length of a string in bytes. It is never below the number
   * of characters, and equals it exactly when every character is ASCII.
   */
  function ByteLength(s: string): (k: nat)
    ensures k >= |s|
    ensures k == |s| <==> forall i | 0 <= i < |s| :: IsAscii(s[i])
  {
    if |s| == 0 then 0
    else
      var k := Utf8Width(s[0]) + ByteLength(s[1..]);
      assert forall i | 1 <= i < |s| :: s[i] == s[1..][i - 1];
      k
  }

  /** The lower-case hexadecimal digits in value order. */
  const HexDigits: string := "0123456789abcdef"

  /** A digit of the `[\da-f]` class the colour patterns use (lower case only). */
  predicate IsHexDigit(c: char) {
    '0' <= c <= '9' || 'a' <= c <= 'f'
  }

  /** The value `intval(.., 16)` gives a single hexadecimal digit. */
  function HexValue(c: char): (d: int)
    requires IsHexDigit(c)
    ensures 0 <= d < 16 && HexDigits[d] == c
  {
    if c <= '9' then c as int - '0' as int else c as int - 'a' as int + 10
  }

  lemma HexDigitValue(d: int)
    requires 0 <= d < 16
    ensures IsHexDigit(HexDigits[d]) && HexValue(HexDigits[d]) == d
  {
  }

  // ---------------------------------------------------------------------------
  // 64-bit integers (PHP_INT_SIZE == 8) and the bitwise operators on them.

  const WordModulus: int := 0x1_0000_0000_0000_0000
  const WordHalf: int := 0x8000_0000_0000_0000

  /** A PHP integer: a signed 64-bit value. */
  newtype PhpInt = x: int | -0x8000_0000_0000_0000 <= x < 0x8000_0000_0000_0000

  predicate InWordRange(x: int) {
    -WordHalf <= x < WordHalf
  }

  /** Two's-complement bit pattern of a 64-bit integer. */
  function ToWord(x: int): (w: bv64)
    requires InWordRange(x)
  {
    (if x < 0 then x + WordModulus else x) as bv64
  }

  /** The signed integer a 64-bit pattern stands for. */
  function FromWord(w: bv64): (x: int)
    ensures InWordRange(x)
  {
    var u := w as int;
    if u < WordHalf then u else u - WordModulus
  }

  function BitAnd(x: int, y: int): int
    requires InWordRange(x) && InWordRange(y)
  {
    FromWord(ToWord(x) & ToWord(y))
  }

  function BitOr(x: int, y: int): int
    requires InWordRange(x) && InWordRange(y)
  {
    FromWord(ToWord(x) | ToWord(y))
  }

  function BitXor(x: int, y: int): int
    requires InWordRange(x) && InWordRange(y)
  {
    FromWord(ToWord(x) ^ ToWord(y))
  }

  /** `~x`: in two's complement the complement of x is -x - 1. */
  function BitNot(x: int): (r: int)
    requires InWordRange(x)
    ensures InWordRange(r)
  {
    -x - 1
  }

  lemma ByteRoundTrip(c: int)
    requires 0 <= c < 256
    ensures (c as bv8) as int == c && ToWord(c) == (c as bv8) as bv64
  {
  }

  /** On bytes, the 64-bit exclusive or is the 8-bit one. */
  lemma XorWidens(a: bv8, b: bv8)
    ensures BitXor(a as int, b as int) == (a ^ b) as int
  {
    WordOfByte(a);
    WordOfByte(b);
    assert (a as bv64) ^ (b as bv64) == (a ^ b) as bv64;
    WordOfByte(a ^ b);
  }

  lemma WordOfByte(a: bv8)
    ensures ToWord(a as int) == a as bv64
    ensures FromWord(a as bv64) == a as int
  {
    ByteRoundTrip(a as int);
    assert (a as int) as bv8 == a;
    assert (a as bv64) as int == a as int;
  }

  /** Exclusive or of two bytes is a byte, and applying it twice gives the first byte back. */
  lemma XorOfBytes(x: int, k: int)
    requires 0 <= x < 256 && 0 <= k < 256
    ensures 0 <= BitXor(x, k) < 256
    ensures BitXor(BitXor(x, k), k) == x
  {
    var a, b := x as bv8, k as bv8;
    ByteRoundTrip(x);
    ByteRoundTrip(k);
    XorWidens(a, b);
    XorWidens(a ^ b, b);
    assert (a ^ b) ^ b == a;
  }
}
