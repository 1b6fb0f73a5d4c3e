/**
 * What the colour constructor accepts and how it reads it: a string (a hex
 * triplet `#rgb` or `#rrggbb`, an SVG colour name, or `transparent`), an
 * array keyed by r, g, b (and a), an array keyed by h, s, l (and a), or a
 * positional array of red, green, blue and an optional alpha. assertValid
 * decides which colour space an array's keys select.
 */
module ColourInput {
  import opened Outcomes
  import opened PhpNumbers
  import opened ColourState
  import opened NamedColours

  /** The array keys the class looks at. */
  datatype Key = R | G | B | H | S | L | A

  /**
   * A constructor argument: a string, an array with string keys, an array
   * with the positional keys 0, 1, 2, ..., or any other PHP value.
   */
  datatype Input = Text(text: string) | Table(entries: map<Key, real>) | List(items: seq<real>) | Unsupported

  /** The colour space assertValid names: 'rgb', 'hsl' or none (null). */
  datatype Scheme = RgbScheme | HslScheme | NoScheme

  predicate AnyRgbKey(keys: set<Key>) {
    R in keys || G in keys || B in keys
  }

  predicate AnyHslKey(keys: set<Key>) {
    H in keys || S in keys || L in keys
  }

  /**
   * assertValid: the colour space an array's keys select. RGB and HSL keys
   * together are an error; when `all` holds, a space must be given whole and
   * an array with neither must have at least three elements.
   */
  function AssertValid(keys: set<Key>, size: int, all: bool): (r: Result<Scheme>)
    ensures AnyRgbKey(keys) && AnyHslKey(keys) <==> r == Failure(MixedColourSpace)
    ensures r == Success(RgbScheme) <==> AnyRgbKey(keys) && !AnyHslKey(keys) && (all ==> {R, G, B} <= keys)
    ensures r == Success(HslScheme) <==> AnyHslKey(keys) && !AnyRgbKey(keys) && (all ==> {H, S, L} <= keys)
    ensures r == Success(NoScheme) <==> !AnyRgbKey(keys) && !AnyHslKey(keys) && (all ==> size >= 3)
    ensures r == Failure(IncompleteRgb) <==> AnyRgbKey(keys) && !AnyHslKey(keys) && all && !({R, G, B} <= keys)
    ensures r == Failure(IncompleteHsl) <==> AnyHslKey(keys) && !AnyRgbKey(keys) && all && !({H, S, L} <= keys)
    ensures r == Failure(TooFewComponents) <==> !AnyRgbKey(keys) && !AnyHslKey(keys) && all && size < 3
    ensures r.Failure? ==> all || r.error == MixedColourSpace
  {
    if AnyRgbKey(keys) then
      if AnyHslKey(keys) then Failure(MixedColourSpace)
      else if all && !(R in keys && G in keys && B in keys) then Failure(IncompleteRgb)
      else Success(RgbScheme)
    else if AnyHslKey(keys) then
      if all && !(H in keys && S in keys && L in keys) then Failure(IncompleteHsl)
      else Success(HslScheme)
    else if all && size < 3 then Failure(TooFewComponents)
    else Success(NoScheme)
  }

  // ---------------------------------------------------------------------------
  // Strings

  /** strtolower: ASCII upper-case letters become lower case. */
  function LowerChar(c: char): (d: char)
    ensures 'A' <= c <= 'Z' ==> d as int == c as int + 32
    ensures !('A' <= c <= 'Z') ==> d == c
  {
    if 'A' <= c <= 'Z' then (c as int + 32) as char else c
  }

  function Lower(s: string): (t: string)
    ensures |t| == |s| && forall i | 0 <= i < |s| :: t[i] == LowerChar(s[i])
  {
    seq(|s|, i requires 0 <= i < |s| => LowerChar(s[i]))
  }

  /** The pattern `#` followed by k hexadecimal digits matches at position i. */
  predicate HexRunAt(u: string, i: nat, k: nat) {
    i + k < |u| && u[i] == '#' && forall j | i < j <= i + k :: IsHexDigit(u[j])
  }

  /** preg_match of the unanchored pattern: the leftmost position at or after i where it matches. */
  function FirstHexRun(u: string, k: nat, i: nat): (r: Option<nat>)
    decreases |u| - i
    ensures r.Some? ==> i <= r.value && HexRunAt(u, r.value, k)
    ensures r.Some? ==> forall j | i <= j < r.value :: !HexRunAt(u, j, k)
    ensures r.None? ==> forall j: nat | i <= j :: !HexRunAt(u, j, k)
  {
    if i >= |u| then None
    else if HexRunAt(u, i, k) then Some(i)
    else FirstHexRun(u, k, i + 1)
  }

  /** intval of a digit repeated twice, base 16. */
  function Doubled(c: char): (v: int)
    requires IsHexDigit(c)
    ensures 0 <= v <= 255 && v % 17 == 0
    ensures v == Pair(c, c)
  {
    17 * HexValue(c)
  }

  /** intval of two digits, base 16. */
  function Pair(hi: char, lo: char): (v: int)
    requires IsHexDigit(hi) && IsHexDigit(lo)
    ensures 0 <= v <= 255
  {
    16 * HexValue(hi) + HexValue(lo)
  }

  /**
   * The string branch of the constructor. After lower-casing and replacing
   * an SVG name by its triplet, a string of four bytes is read with the
   * three-digit pattern and anything else with the six-digit one. When the
   * three-digit pattern does not match, PHP's empty matches become empty
   * strings, and the colour is black rather than an error. The patterns
   * match ASCII bytes only, and no byte of a multi-byte UTF-8 character is
   * ASCII, so matching characters finds the same digits as matching bytes.
   */
  function ParseText(s: string): (r: Result<ColourValue>)
    ensures r.Failure? ==> r.error == InvalidColour
    ensures r.Success? ==> r.value.WellFormed() && r.value.HasRgb() && !r.value.HasHsl()
    ensures r.Success? ==> (r.value.a == 1.0 <==> Lower(s) != "transparent")
    ensures r.Failure? <==> Lower(s) != "transparent" && ByteLength(SvgHex(Lower(s)).GetOr(Lower(s))) != 4 &&
                            forall j: nat :: !HexRunAt(SvgHex(Lower(s)).GetOr(Lower(s)), j, 6)
  {
    var t := Lower(s);
    if t == "transparent" then Success(RgbValue(0.0, 0.0, 0.0, 0.0))
    else
      var u := SvgHex(t).GetOr(t);
      if ByteLength(u) == 4 then
        match FirstHexRun(u, 3, 0)
        case Some(i) =>
          Success(RgbValue(Doubled(u[i + 1]) as real, Doubled(u[i + 2]) as real, Doubled(u[i + 3]) as real, 1.0))
        case None => Success(RgbValue(0.0, 0.0, 0.0, 1.0))
      else
        match FirstHexRun(u, 6, 0)
        case Some(i) =>
          Success(RgbValue(Pair(u[i + 1], u[i + 2]) as real, Pair(u[i + 3], u[i + 4]) as real,
                           Pair(u[i + 5], u[i + 6]) as real, 1.0))
        case None => Failure(InvalidColour)
  }

  // ---------------------------------------------------------------------------
  // The constructor

  /** A string-keyed array with no colour key has at most one entry, the alpha. */
  lemma AlphaOnlyTable(m: map<Key, real>)
    ensures !AnyRgbKey(m.Keys) && !AnyHslKey(m.Keys) ==> |m| <= 1
  {
    if !AnyRgbKey(m.Keys) && !AnyHslKey(m.Keys) {
      forall k | k in m.Keys
        ensures k == A
      {
        match k
        case A =>
      }
      if A in m {
        assert m.Keys == {A};
      } else {
        assert m.Keys == {};
      }
    }
  }

  /** The fields the constructor assigns for a given argument. */
  function Parse(c: Input): (r: Result<ColourValue>)
    ensures r.Success? ==> r.value.WellFormed()
  {
    match c
    case Text(s) => ParseText(s)
    case Table(m) =>
      var scheme :- AssertValid(m.Keys, |m|, true);
      var alpha := if A in m then m[A] else 1.0;
      if scheme == RgbScheme then Success(RgbValue(m[R], m[G], m[B], alpha))
      else if scheme == HslScheme then Success(HslValue(m[H], m[S], m[L], alpha))
      else
        AlphaOnlyTable(m);
        assert false;
        Failure(TooFewComponents)
    case List(items) =>
      var _ :- AssertValid({}, |items|, true);
      Success(RgbValue(items[0], items[1], items[2], if |items| > 3 then items[3] else 1.0))
    case Unsupported => Failure(InvalidColour)
  }

  // ---------------------------------------------------------------------------
  // Properties of string parsing

  /** Lower-casing is idempotent, so the string branch ignores letter case. */
  lemma ParseTextIgnoresCase(s: string)
    ensures Lower(Lower(s)) == Lower(s)
    ensures ParseText(Lower(s)) == ParseText(s)
  {
    assert Lower(Lower(s)) == Lower(s);
  }

  /** A lower-case hex triplet is read as the three byte values it spells. */
  lemma ParseHexTriplet(t: string)
    requires IsHexTriplet(t)
    ensures ParseText(t) == Success(RgbValue(Pair(t[1], t[2]) as real, Pair(t[3], t[4]) as real, Pair(t[5], t[6]) as real, 1.0))
  {
    assert Lower(t) == t;
    assert |"transparent"| == 11;
    NoNameIsHex(t);
    assert HexRunAt(t, 0, 6);
  }

  /**
   * Outside the four-byte case, the six-digit pattern is unanchored: the
   * string is read from its leftmost `#` followed by six hex digits,
   * whatever comes before or after it.
   */
  lemma LeftmostSixDigits(s: string, i: nat)
    requires Lower(s) != "transparent"
    requires var u := SvgHex(Lower(s)).GetOr(Lower(s));
      ByteLength(u) != 4 && HexRunAt(u, i, 6) && forall j: nat | j < i :: !HexRunAt(u, j, 6)
    ensures var u := SvgHex(Lower(s)).GetOr(Lower(s));
      ParseText(s) == Success(RgbValue(Pair(u[i + 1], u[i + 2]) as real, Pair(u[i + 3], u[i + 4]) as real,
                                       Pair(u[i + 5], u[i + 6]) as real, 1.0))
  {
    var u := SvgHex(Lower(s)).GetOr(Lower(s));
    assert FirstHexRun(u, 6, 0) == Some(i);
  }

  /**
   * A string of four bytes can match the three-digit pattern only from its
   * start; it is read with each digit doubled when it does and as opaque
   * black when it does not.
   */
  lemma FourBytesRead(s: string)
    requires Lower(s) != "transparent" && ByteLength(SvgHex(Lower(s)).GetOr(Lower(s))) == 4
    ensures var u := SvgHex(Lower(s)).GetOr(Lower(s));
      ParseText(s) == if HexRunAt(u, 0, 3)
                      then Success(RgbValue(Doubled(u[1]) as real, Doubled(u[2]) as real, Doubled(u[3]) as real, 1.0))
                      else Success(RgbValue(0.0, 0.0, 0.0, 1.0))
  {
    var u := SvgHex(Lower(s)).GetOr(Lower(s));
    if HexRunAt(u, 0, 3) {
      assert FirstHexRun(u, 3, 0) == Some(0);
    } else {
      assert forall j: nat :: HexRunAt(u, j, 3) ==> j == 0;
    }
  }

  /** `xx#aabbcc` is read from its `#`: the letters before it are skipped. */
  lemma UnanchoredTriplet()
    ensures ParseText("xx#aabbcc") == Success(RgbValue(170.0, 187.0, 204.0, 1.0))
  {
    var t := "xx#aabbcc";
    UnanchoredTripletMatch(t);
    LeftmostSixDigits(t, 2);
  }

  /** `xx#aabbcc` is no colour name, and its leftmost six-digit match starts at 2. */
  lemma UnanchoredTripletMatch(t: string)
    requires t == "xx#aabbcc"
    ensures Lower(t) == t && SvgHex(t) == None && |t| == 9
    ensures HexRunAt(t, 2, 6) && forall j: nat | j < 2 :: !HexRunAt(t, j, 6)
    ensures Pair(t[3], t[4]) == 170 && Pair(t[5], t[6]) == 187 && Pair(t[7], t[8]) == 204
  {
    assert Lower(t) == t;
    assert !HexRunAt(t, 0, 6) && !HexRunAt(t, 1, 6);
  }

  /** A three-digit triplet `#rgb` is read with each digit doubled. */
  lemma ParseShortTriplet(t: string)
    requires |t| == 4 && t[0] == '#' && IsHexDigit(t[1]) && IsHexDigit(t[2]) && IsHexDigit(t[3])
    ensures ParseText(t) == Success(RgbValue(Doubled(t[1]) as real, Doubled(t[2]) as real, Doubled(t[3]) as real, 1.0))
  {
    assert forall i | 0 <= i < |t| :: IsAscii(t[i]);
    assert Lower(t) == t;
    assert |"transparent"| == 11;
    NoNameIsHex(t);
    assert HexRunAt(t, 0, 3);
  }

  /** An SVG colour name, in any letter case, is read as its triplet with full opacity. */
  lemma ParseColourName(s: string)
    requires SvgHex(Lower(s)).Some?
    ensures var t := SvgHex(Lower(s)).value;
      IsHexTriplet(t) &&
      ParseText(s) == Success(RgbValue(Pair(t[1], t[2]) as real, Pair(t[3], t[4]) as real, Pair(t[5], t[6]) as real, 1.0))
  {
    var t := SvgHex(Lower(s)).value;
    SvgHexIsTriplet(Lower(s));
    assert SvgHex("transparent") == None;
    assert HexRunAt(t, 0, 6);
    LeftmostSixDigits(s, 0);
  }

  /**
   * Every string that is four bytes long after the name lookup is
   * accepted: one that is not a short triplet is read as opaque black.
   */
  lemma FourBytesNeverFail(s: string)
    requires ByteLength(SvgHex(Lower(s)).GetOr(Lower(s))) == 4
    ensures ParseText(s).Success?
  {
  }

  /**
   * strlen counts bytes: `#a\u00e9` is three characters but four bytes, so
   * it takes the three-digit branch, finds no triplet and is black.
   */
  lemma ThreeCharactersFourBytes()
    ensures ParseText("#a\U{e9}") == Success(RgbValue(0.0, 0.0, 0.0, 1.0))
  {
    var t := "#a\U{e9}";
    assert Lower(t) == t;
    assert SvgHex(t) == None;
    assert ByteLength(t[2..]) == 2;
    assert ByteLength(t[1..]) == 3;
    assert ByteLength(t) == 4;
    assert FirstHexRun(t, 3, 0) == None;
  }

  /**
   * `\u00e9#ab` is four characters but five bytes, so it takes the
   * six-digit branch and is rejected.
   */
  lemma FourCharactersFiveBytes()
    ensures ParseText("\U{e9}#ab") == Failure(InvalidColour)
  {
    var t := "\U{e9}#ab";
    assert Lower(t) == t;
    assert SvgHex(t) == None;
    assert ByteLength(t) == 2 + ByteLength(t[1..]);
    assert ByteLength(t) != 4;
    assert FirstHexRun(t, 6, 0) == None;
  }

  /** A short triplet reads as the long triplet with each digit written twice. */
  lemma ShortTripletIsLong(x: char, y: char, z: char)
    requires IsHexDigit(x) && IsHexDigit(y) && IsHexDigit(z)
    ensures ParseText(['#', x, y, z]) == ParseText(['#', x, x, y, y, z, z])
  {
    ParseShortTriplet(['#', x, y, z]);
    ParseHexTriplet(['#', x, x, y, y, z, z]);
  }

  lemma UnmatchedShortStringIsBlack()
    ensures ParseText("ZZZZ") == Success(RgbValue(0.0, 0.0, 0.0, 1.0))
  {
    var t := Lower("ZZZZ");
    assert t == "zzzz";
    assert SvgHex(t) == None;
    assert FirstHexRun(t, 3, 0) == None;
  }

  /** `transparent` in any letter case is black with alpha 0. */
  lemma ParseTransparent(s: string)
    requires Lower(s) == "transparent"
    ensures ParseText(s) == Success(RgbValue(0.0, 0.0, 0.0, 0.0))
  {
  }

  // ---------------------------------------------------------------------------
  // Properties of array arguments

  /** A positional array is read as red, green, blue and an alpha that defaults to 1. */
  lemma ParseList(items: seq<real>)
    ensures |items| < 3 <==> Parse(List(items)) == Failure(TooFewComponents)
    ensures |items| >= 3 ==> Parse(List(items)) == Success(RgbValue(items[0], items[1], items[2], if |items| > 3 then items[3] else 1.0))
  {
  }

  /**
   * A keyed array is accepted exactly when it gives all three keys of one
   * colour space and none of the other; the colour holds those values and
   * an alpha that defaults to 1.
   */
  lemma ParseTable(m: map<Key, real>)
    ensures Parse(Table(m)).Success? <==> ({R, G, B} <= m.Keys && !AnyHslKey(m.Keys)) || ({H, S, L} <= m.Keys && !AnyRgbKey(m.Keys))
    ensures {R, G, B} <= m.Keys && !AnyHslKey(m.Keys) ==>
      Parse(Table(m)) == Success(RgbValue(m[R], m[G], m[B], if A in m then m[A] else 1.0))
    ensures {H, S, L} <= m.Keys && !AnyRgbKey(m.Keys) ==>
      Parse(Table(m)) == Success(HslValue(m[H], m[S], m[L], if A in m then m[A] else 1.0))
  {
    AlphaOnlyTable(m);
  }
}
