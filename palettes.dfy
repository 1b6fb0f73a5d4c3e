/**
 * palette(): a list of colours derived from this one, rendered with
 * toString. The mono mode steps the lightness in 5% steps either side of
 * this colour; the other modes rotate the hue (or take a list of colours)
 * and, when more colours are asked for than there are hues, add darker
 * and lighter variants in 10% steps.
 *
 * This module states what palette() computes; the loops that compute it
 * are in the class.
 */
module Palettes {
  import opened Outcomes
  import opened PhpNumbers
  import opened ColourState
  import opened ColourInput
  import opened ColourFormat
  import opened Adjustments

  /** The mode argument: a string, an integer, an array of colours, or any other value. */
  datatype Mode = Named(name: string) | HueCount(k: int) | ColourList(items: seq<Input>) | OtherMode

  /** The largest palette the mono mode makes. */
  const MonoLimit := 21

  /** Each colour of the other modes yields at most this many palette entries. */
  const EntriesPerHue := 9

  function Min(x: int, y: int): int {
    if x < y then x else y
  }

  function Indicator(b: bool): nat {
    if b then 1 else 0
  }

  // ---------------------------------------------------------------------------
  // Slicing and rendering

  /** array_slice($s, 0, $n): the first n elements, or all but the last -n when n is negative. */
  function Slice<T>(s: seq<T>, n: int): (t: seq<T>)
    ensures |t| <= |s| && t == s[..|t|]
    ensures n >= 0 ==> |t| == Min(n, |s|)
    ensures n < 0 ==> |t| == if |s| + n > 0 then |s| + n else 0
  {
    if n >= 0 then s[..Min(n, |s|)]
    else s[..if |s| + n > 0 then |s| + n else 0]
  }

  /** Every colour can be rendered in the format. */
  predicate Renderable(cols: seq<ColourValue>, format: string) {
    forall k | 0 <= k < |cols| :: cols[k].WellFormed() && (NeedsHsl(format) ==> cols[k].HslComputable())
  }

  /** toString of each colour in turn, with the CSS3 names and short triplets; an unknown format fails at the first colour. */
  function RenderAll(cols: seq<ColourValue>, format: string): (r: Result<seq<string>>)
    requires Renderable(cols, format)
    decreases |cols|
    ensures r.Failure? <==> |cols| > 0 && !IsFormat(format)
    ensures r.Failure? ==> r.error == InvalidFormat
    ensures r.Success? ==> |r.value| == |cols|
  {
    if |cols| == 0 then Success([])
    else
      var last := |cols| - 1;
      match RenderAll(cols[..last], format)
      case Failure(e) => Failure(e)
      case Success(texts) =>
        match Render(cols[last], format, true, true)
        case Failure(e) => Failure(e)
        case Success(text) => Success(texts + [text])
  }

  /** Each text of a rendered list is its colour's toString. */
  lemma RenderAllEntries(cols: seq<ColourValue>, format: string)
    requires Renderable(cols, format) && RenderAll(cols, format).Success?
    ensures forall k | 0 <= k < |cols| :: Render(cols[k], format, true, true) == Success(RenderAll(cols, format).value[k])
  {
    forall k | 0 <= k < |cols|
      ensures Render(cols[k], format, true, true) == Success(RenderAll(cols, format).value[k])
    {
      RenderAllEntry(cols, format, k);
    }
  }

  /** Entry k of a rendered list is the text of colour k. */
  lemma RenderAllEntry(cols: seq<ColourValue>, format: string, k: int)
    requires Renderable(cols, format) && RenderAll(cols, format).Success? && 0 <= k < |cols|
    ensures Render(cols[k], format, true, true) == Success(RenderAll(cols, format).value[k])
  {
    var prefix := cols[..k + 1];
    RenderAllPrefix(cols, format, k + 1);
    var texts, text := RenderAllSnoc(prefix, format);
    assert prefix[k] == cols[k];
  }

  /** Rendering a prefix gives the same prefix of the rendered list. */
  lemma {:induction false} RenderAllPrefix(cols: seq<ColourValue>, format: string, j: int)
    requires Renderable(cols, format) && RenderAll(cols, format).Success? && 0 <= j <= |cols|
    decreases |cols|
    ensures Renderable(cols[..j], format) && RenderAll(cols[..j], format) == Success(RenderAll(cols, format).value[..j])
  {
    if j < |cols| {
      var last := |cols| - 1;
      var prefix := cols[..last];
      var texts := RenderAllInit(cols, format);
      RenderAllPrefix(prefix, format, j);
      assert prefix[..j] == cols[..j];
      var all := RenderAll(cols, format).value;
      assert texts[..j] == all[..j];
    } else {
      var all := RenderAll(cols, format).value;
      assert cols[..j] == cols && all[..j] == all;
    }
  }

  /** Rendering all colours but the last gives all texts but the last. */
  lemma RenderAllInit(cols: seq<ColourValue>, format: string) returns (texts: seq<string>)
    requires Renderable(cols, format) && |cols| > 0 && RenderAll(cols, format).Success?
    ensures Renderable(cols[..|cols| - 1], format) && RenderAll(cols[..|cols| - 1], format) == Success(texts)
    ensures texts == RenderAll(cols, format).value[..|cols| - 1]
  {
    texts := RenderAll(cols[..|cols| - 1], format).value;
    assert RenderAll(cols, format).value[..|cols| - 1] == texts;
  }

  /** A rendered non-empty list is the rendered list without its last colour, then that colour's text. */
  lemma RenderAllSnoc(cols: seq<ColourValue>, format: string) returns (texts: seq<string>, text: string)
    requires Renderable(cols, format) && |cols| > 0 && RenderAll(cols, format).Success?
    ensures Renderable(cols[..|cols| - 1], format) && RenderAll(cols[..|cols| - 1], format) == Success(texts)
    ensures Render(cols[|cols| - 1], format, true, true) == Success(text)
    ensures RenderAll(cols, format).value == texts + [text]
  {
    texts := RenderAll(cols[..|cols| - 1], format).value;
    text := Render(cols[|cols| - 1], format, true, true).value;
  }

  /** Rendering one more colour extends the rendered prefix by its text. */
  lemma RenderAllExtends(cols: seq<ColourValue>, format: string, k: int, texts: seq<string>, text: string)
    requires Renderable(cols, format) && 0 <= k < |cols|
    requires RenderAll(cols[..k], format) == Success(texts)
    requires Render(cols[k], format, true, true) == Success(text)
    ensures RenderAll(cols[..k + 1], format) == Success(texts + [text])
  {
    assert cols[..k + 1][..k] == cols[..k];
  }

  // ---------------------------------------------------------------------------
  // The mono mode

  /** Step i of the mono loop adds a colour darker by 5i percent. */
  predicate MonoDarker(l: real, i: int) {
    l - (5 * i) as real >= 0.0
  }

  /** Step i of the mono loop adds a colour lighter by 5i percent. */
  predicate MonoLighter(l: real, i: int) {
    l + (5 * i) as real <= 100.0
  }

  /** How many colours steps i to 20 of the mono loop add. */
  function MonoHits(l: real, i: int): nat
    decreases 21 - i
  {
    if i > 20 then 0
    else Indicator(MonoDarker(l, i)) + Indicator(MonoLighter(l, i)) + MonoHits(l, i + 1)
  }

  /**
   * The mono loop ends: its count reaches n within the first 20 steps. For
   * a lightness in [0, 100] no later step adds a colour, so otherwise the
   * loop runs forever.
   */
  predicate MonoTerminates(l: real, n: int) {
    n <= 1 + MonoHits(l, 1)
  }

  /** How many of the steps i, i + 1, ..., 20 are at most m. */
  function CountUpTo(m: int, i: int): nat {
    var top := if m < 20 then m else 20;
    if top - i + 1 > 0 then top - i + 1 else 0
  }

  /** The steps that add a darker colour and those that add a lighter one, counted apart. */
  lemma {:induction false} HitsSplit(l: real, i: int)
    requires 1 <= i <= 21
    decreases 21 - i
    ensures MonoHits(l, i) == CountUpTo((l / 5.0).Floor, i) + CountUpTo(((100.0 - l) / 5.0).Floor, i)
  {
    if i <= 20 {
      HitsSplit(l, i + 1);
      assert MonoDarker(l, i) <==> i <= (l / 5.0).Floor;
      assert MonoLighter(l, i) <==> i <= ((100.0 - l) / 5.0).Floor;
    }
  }

  /**
   * The mono loop adds 20 colours in its first twenty steps when the
   * lightness is a multiple of 5 or lies outside [0, 100], and 19 otherwise:
   * a mono palette of 21 colours from any other lightness never ends.
   */
  lemma MonoHitsCount(l: real)
    ensures MonoHits(l, 1) == if 0.0 <= l <= 100.0 && l != (5 * (l / 5.0).Floor) as real then 19 else 20
  {
    HitsSplit(l, 1);
    var x := l / 5.0;
    assert (100.0 - l) / 5.0 == 20.0 - x;
  }

  /** Which mono palettes of at most 21 colours the loop completes. */
  lemma MonoTerminatesExactly(l: real, n: int)
    requires n <= MonoLimit
    ensures MonoTerminates(l, n) <==> n <= 20 || !(0.0 <= l <= 100.0) || l == (5 * (l / 5.0).Floor) as real
  {
    MonoHitsCount(l);
  }

  /**
   * The mono loop from step i, with c colours counted so far: both tests
   * of a step are made before the count is compared with n again, so the
   * count can pass n by one.
   */
  function MonoLoop(v: ColourValue, n: int, i: int, c: int, darker: seq<ColourValue>, lighter: seq<ColourValue>)
    : (r: (seq<ColourValue>, seq<ColourValue>))
    requires v.WellFormed() && v.HasHsl() && i >= 1
    requires c < n ==> n <= c + MonoHits(v.l.value, i)
    decreases 21 - i
    ensures c >= n ==> r == (darker, lighter)
    ensures c < n ==> n <= c + |r.0| - |darker| + |r.1| - |lighter| <= n + 1
    ensures c < n ==> c + |r.0| - |darker| <= n
    ensures |r.0| >= |darker| && r.0[..|darker|] == darker && |r.1| >= |lighter| && r.1[..|lighter|] == lighter
  {
    if c >= n then (darker, lighter)
    else
      var l := v.l.value;
      var d := DarkerAfter(v, i, darker);
      var u := LighterAfter(v, i, lighter);
      var c' := c + Indicator(MonoDarker(l, i)) + Indicator(MonoLighter(l, i));
      var r := MonoLoop(v, n, i + 1, c', d, u);
      assert r.0[..|d|] == d && r.1[..|u|] == u;
      assert d[..|darker|] == darker && u[..|lighter|] == lighter;
      r
  }

  /** Step i's darker colour, darken(5i), when it is added. */
  function DarkerAfter(v: ColourValue, i: int, darker: seq<ColourValue>): (d: seq<ColourValue>)
    requires v.WellFormed() && v.HasHsl() && 1 <= i <= 20
    ensures |d| == |darker| + Indicator(MonoDarker(v.l.value, i)) && d[..|darker|] == darker
  {
    if MonoDarker(v.l.value, i) then darker + [Darken(v, Int(5 * i), false).result.value] else darker
  }

  /** Step i's lighter colour, lighten(5i), when it is added. */
  function LighterAfter(v: ColourValue, i: int, lighter: seq<ColourValue>): (u: seq<ColourValue>)
    requires v.WellFormed() && v.HasHsl() && 1 <= i <= 20
    ensures |u| == |lighter| + Indicator(MonoLighter(v.l.value, i)) && u[..|lighter|] == lighter
  {
    if MonoLighter(v.l.value, i) then lighter + [Lighten(v, Int(5 * i), false).result.value] else lighter
  }

  /**
   * The colours of the mono mode before slicing: the darker ones from the
   * darkest, this colour, then the lighter ones.
   */
  function MonoColours(w: ColourValue, n: int): (cols: seq<ColourValue>)
    requires w.WellFormed() && w.HasHsl() && 1 < n && MonoTerminates(w.l.value, n)
    ensures n <= |cols| <= n + 1
    ensures var self := |MonoLoop(w, n, 1, 1, [], []).0|; self < n && cols[self] == w
  {
    var r := MonoLoop(w, n, 1, 1, [], []);
    Reverse(r.0) + [w] + r.1
  }

  function Reverse<T>(s: seq<T>): (t: seq<T>)
    ensures |t| == |s| && forall k | 0 <= k < |s| :: t[k] == s[|s| - 1 - k]
  {
    if |s| == 0 then [] else Reverse(s[1..]) + [s[0]]
  }

  // ---------------------------------------------------------------------------
  // The hue modes

  /** A named mode's rotations: an optional first turn, the step between hues, and how many hues. */
  datatype Rotation = Rotation(offset: Option<int>, step: int, count: int)

  /** The named modes after lower-casing. */
  function NamedRotation(name: string): Option<Rotation> {
    if name == "analogous" then Some(Rotation(Some(-30), 30, 3))
    else if name == "complements" then Some(Rotation(None, 180, 2))
    else if name == "split-complements" then Some(Rotation(Some(-150), 150, 3))
    else if name == "tetrads" then Some(Rotation(None, 90, 4))
    else if name == "triads" then Some(Rotation(None, 120, 3))
    else if name == "wheel" then Some(Rotation(None, 30, 12))
    else None
  }

  /** adjustHue of b by 0, step, 2 step, ... for m colours. */
  function Rotations(b: ColourValue, step: int, m: int): (cols: seq<ColourValue>)
    requires m > 0 ==> b.WellFormed() && b.HslComputable()
    ensures |cols| == if m > 0 then m else 0
    ensures forall k | 0 <= k < |cols| :: cols[k].WellFormed() && cols[k].HasHsl()
  {
    seq(if m > 0 then m else 0, k requires 0 <= k < m => AdjustHue(b, k * step).result.value)
  }

  /** The receiver's fields after the mode's colours were made, and those colours. */
  datatype Stage = Stage(receiver: ColourValue, colours: Result<seq<ColourValue>>)

  /** `new Colour($item)` for each item in turn; the first that fails raises its error. */
  function ParseAll(items: seq<Input>): (r: Result<seq<ColourValue>>)
    ensures r.Success? ==> |r.value| == |items| && forall k | 0 <= k < |items| :: Parse(items[k]) == Success(r.value[k])
    ensures r.Failure? <==> exists k | 0 <= k < |items| :: Parse(items[k]).Failure?
  {
    if |items| == 0 then Success([])
    else
      var first :- Parse(items[0]);
      var rest :- ParseAll(items[1..]);
      assert forall k | 1 <= k < |items| :: items[k] == items[1..][k - 1];
      Success([first] + rest)
  }

  /** new Colour($item) in turn stops at the first item that fails, with that item's error. */
  lemma {:induction false} ParseAllStops(items: seq<Input>, k: int)
    requires 0 <= k < |items| && Parse(items[k]).Failure?
    requires forall t | 0 <= t < k :: Parse(items[t]).Success?
    ensures ParseAll(items) == Failure(Parse(items[k]).error)
    decreases k
  {
    if k > 0 {
      var tail := items[1..];
      assert tail[k - 1] == items[k];
      forall t | 0 <= t < k - 1
        ensures Parse(tail[t]).Success?
      {
        assert tail[t] == items[t + 1];
      }
      ParseAllStops(tail, k - 1);
      assert Parse(items[0]).Success?;
    }
  }

  /** The receiver reads its own hue for this mode and count. */
  predicate ReadsOwnHue(mode: Mode, n: int) {
    match mode
    case Named(name) =>
      (match NamedRotation(Lower(name))
       case Some(rot) => rot.offset.Some? || n > 0
       case None => false)
    case HueCount(k) => k > 0 && Rem(360, k) == 0 && n > 0
    case _ => false
  }

  /** The colours a mode other than mono starts from, before variants are added. */
  function BaseColours(v: ColourValue, n: int, mode: Mode): (s: Stage)
    requires v.WellFormed() && (ReadsOwnHue(mode, n) ==> v.HslComputable())
    ensures s.receiver == if ReadsOwnHue(mode, n) then v.HslFilled() else v
    ensures s.colours.Success? && !mode.ColourList? ==> forall k | 0 <= k < |s.colours.value| :: s.colours.value[k].HasHsl()
    ensures s.colours.Success? ==> forall k | 0 <= k < |s.colours.value| :: s.colours.value[k].WellFormed()
  {
    match mode
    case Named(name) =>
      (match NamedRotation(Lower(name))
       case Some(rot) =>
         var m := Min(rot.count, n);
         (match rot.offset
          case Some(d) => Stage(v.HslFilled(), Success(Rotations(AdjustHue(v, d).result.value, rot.step, m)))
          case None => Stage(if m > 0 then v.HslFilled() else v, Success(Rotations(v, rot.step, m))))
       case None => Stage(v, Failure(InvalidMode)))
    case HueCount(k) =>
      if k == 0 then Stage(v, Failure(DivisionByZero))
      else if Rem(360, k) != 0 then Stage(v, Failure(InvalidMode))
      else
        var m := Min(k, n);
        Stage(if m > 0 then v.HslFilled() else v, Success(Rotations(v, Quot(360, k), m)))
    case ColourList(items) => Stage(v, ParseAll(items))
    case OtherMode => Stage(v, Failure(InvalidMode))
  }

  // ---------------------------------------------------------------------------
  // Lightness variants of the other modes

  /** Colours that darken and lighten can be applied to. */
  predicate HslReady(cols: seq<ColourValue>) {
    forall k | 0 <= k < |cols| :: cols[k].WellFormed() && cols[k].HslComputable()
  }

  /** Colours held as HSL. */
  predicate AllHsl(cols: seq<ColourValue>) {
    forall k | 0 <= k < |cols| :: cols[k].WellFormed() && cols[k].HasHsl()
  }

  /** The state of one inner loop: the columns (their caches), the count, and the variants added. */
  datatype Sweep = Sweep(cols: seq<ColourValue>, count: int, added: seq<ColourValue>)

  /**
   * One inner loop of the expansion from column j: while columns remain and
   * the count is below n, the column's colour darkened (or lightened) by
   * adj is added when the pass applies. The call fills the column's cache.
   */
  function Pass(cols: seq<ColourValue>, lighten: bool, applies: bool, adj: int, n: int, j: int, c: int, added: seq<ColourValue>)
    : (r: Sweep)
    requires 0 <= j <= |cols| && 0 <= adj <= 100 && HslReady(cols)
    decreases |cols| - j
    ensures |r.cols| == |cols| && HslReady(r.cols)
  {
    if j >= |cols| || c >= n then Sweep(cols, c, added)
    else if applies then
      var o := if lighten then Lighten(cols[j], Int(adj), false) else Darken(cols[j], Int(adj), false);
      AdjustLightnessFillsCache(cols[j], adj, lighten);
      FillingPreservesGetters(cols[j]);
      Pass(cols[j := o.receiver], lighten, applies, adj, n, j + 1, c + 1, added + [o.result.value])
    else Pass(cols, lighten, applies, adj, n, j + 1, c, added)
  }

  /**
   * An inner loop adds one variant per remaining column until the count
   * reaches n, or none when its pass does not apply; it changes a column
   * only by filling its cache.
   */
  lemma {:induction false} PassCounts(cols: seq<ColourValue>, lighten: bool, applies: bool, adj: int, n: int, j: int, c: int, added: seq<ColourValue>)
    requires 0 <= j <= |cols| && 0 <= adj <= 100 && HslReady(cols)
    decreases |cols| - j
    ensures var r := Pass(cols, lighten, applies, adj, n, j, c, added);
      r.count == (if applies && c < n then Min(n, c + |cols| - j) else c) &&
      |r.added| == |added| + (r.count - c) && r.added[..|added|] == added &&
      (AllHsl(added) ==> AllHsl(r.added))
  {
    if j >= |cols| || c >= n {
    } else if applies {
      var o := if lighten then Lighten(cols[j], Int(adj), false) else Darken(cols[j], Int(adj), false);
      AdjustLightnessFillsCache(cols[j], adj, lighten);
      FillingPreservesGetters(cols[j]);
      assert o.receiver == cols[j].HslFilled() && o.result.value.HasHsl();
      var added' := added + [o.result.value];
      PassCounts(cols[j := o.receiver], lighten, applies, adj, n, j + 1, c + 1, added');
      var r := Pass(cols[j := o.receiver], lighten, applies, adj, n, j + 1, c + 1, added');
      assert added'[..|added|] == added;
      assert r.added[..|added|] == r.added[..|added'|][..|added|];
    } else {
      PassCounts(cols, lighten, applies, adj, n, j + 1, c, added);
    }
  }

  /** An inner loop changes a column only by filling its cache, and leaves a column held as HSL as it is. */
  lemma {:induction false} PassKeepsColumns(cols: seq<ColourValue>, lighten: bool, applies: bool, adj: int, n: int, j: int, c: int, added: seq<ColourValue>)
    requires 0 <= j <= |cols| && 0 <= adj <= 100 && HslReady(cols)
    decreases |cols| - j
    ensures var r := Pass(cols, lighten, applies, adj, n, j, c, added);
      (forall k | 0 <= k < |cols| :: r.cols[k] == cols[k] || r.cols[k] == cols[k].HslFilled()) &&
      (forall k | 0 <= k < |cols| :: cols[k].HasHsl() ==> r.cols[k] == cols[k])
  {
    if j >= |cols| || c >= n {
    } else if applies {
      var o := if lighten then Lighten(cols[j], Int(adj), false) else Darken(cols[j], Int(adj), false);
      AdjustLightnessFillsCache(cols[j], adj, lighten);
      FillingPreservesGetters(cols[j]);
      assert o.receiver == cols[j].HslFilled();
      var cols' := cols[j := o.receiver];
      PassKeepsColumns(cols', lighten, applies, adj, n, j + 1, c + 1, added + [o.result.value]);
    } else {
      PassKeepsColumns(cols, lighten, applies, adj, n, j + 1, c, added);
    }
  }

  /** The variant an inner loop adds for one column: the column darkened or lightened by adj. */
  function Variant(col: ColourValue, lighten: bool, adj: int): ColourValue
    requires col.WellFormed() && col.HslComputable() && 0 <= adj <= 100
  {
    AdjustLightnessFillsCache(col, adj, lighten);
    (if lighten then Lighten(col, Int(adj), false) else Darken(col, Int(adj), false)).result.value
  }

  /**
   * A column held as RGB only has no stored lightness, and adjust() reads the
   * null field as 0: darkening it gives lightness 0 and lightening it by adj
   * gives lightness adj, whatever the colour. In the array mode this is what
   * happens to every column but the first, whose lightness the loop reads.
   */
  lemma UncachedVariants(col: ColourValue, adj: int)
    requires col.WellFormed() && col.HslComputable() && col.HasRgb() && !col.HasHsl() && 0 <= adj <= 100
    ensures Variant(col, false, adj) == HslValue(col.Hue(), col.Saturation(), 0.0, col.a)
    ensures Variant(col, true, adj) == HslValue(col.Hue(), col.Saturation(), adj as real, col.a)
  {
    AdjustLightnessValue(col, adj, false, false, 0, 100);
    AdjustLightnessValue(col, adj, false, true, 0, 100);
  }

  /** The variants of the m columns from column j, in column order. */
  function Variants(cols: seq<ColourValue>, lighten: bool, adj: int, j: int, m: int): seq<ColourValue>
    requires 0 <= j && 0 <= m && j + m <= |cols| && HslReady(cols) && 0 <= adj <= 100
  {
    seq(m, k requires 0 <= k < m => Variant(cols[j + k], lighten, adj))
  }

  /** The variants from column j are column j's, then those from j + 1 of columns that agree from there on. */
  lemma VariantsCons(cols: seq<ColourValue>, cols': seq<ColourValue>, lighten: bool, adj: int, j: int, m: int)
    requires 0 <= j && 1 <= m && j + m <= |cols| == |cols'| && HslReady(cols) && HslReady(cols') && 0 <= adj <= 100
    requires forall k | j < k < |cols| :: cols'[k] == cols[k]
    ensures Variants(cols, lighten, adj, j, m) == [Variant(cols[j], lighten, adj)] + Variants(cols', lighten, adj, j + 1, m - 1)
  {
    var u := Variants(cols, lighten, adj, j, m);
    var w := [Variant(cols[j], lighten, adj)] + Variants(cols', lighten, adj, j + 1, m - 1);
    forall k | 0 <= k < m
      ensures u[k] == w[k]
    {
      if k > 0 {
        assert cols'[j + 1 + (k - 1)] == cols[j + k];
      }
    }
  }

  /**
   * An inner loop adds, in column order, the variant of each column it
   * reaches, starting at column j: one per count it adds.
   */
  lemma {:induction false} PassVariants(cols: seq<ColourValue>, lighten: bool, applies: bool, adj: int, n: int, j: int, c: int, added: seq<ColourValue>)
    requires 0 <= j <= |cols| && 0 <= adj <= 100 && HslReady(cols)
    decreases |cols| - j
    ensures var r := Pass(cols, lighten, applies, adj, n, j, c, added);
      0 <= r.count - c <= |cols| - j &&
      r.added == added + Variants(cols, lighten, adj, j, r.count - c)
  {
    if j >= |cols| || c >= n {
    } else if applies {
      var col, x := PassStep(cols, lighten, applies, adj, n, j, c, added);
      var cols' := cols[j := col];
      PassVariants(cols', lighten, applies, adj, n, j + 1, c + 1, added + [x]);
      var r := Pass(cols', lighten, applies, adj, n, j + 1, c + 1, added + [x]);
      VariantsCons(cols, cols', lighten, adj, j, r.count - c);
    } else {
      PassCounts(cols, lighten, applies, adj, n, j + 1, c, added);
      PassVariants(cols, lighten, applies, adj, n, j + 1, c, added);
      assert Variants(cols, lighten, adj, j, 0) == Variants(cols, lighten, adj, j + 1, 0);
    }
  }

  /** One step of an inner loop that applies: the column's variant is added and the column's cache filled. */
  lemma PassStep(cols: seq<ColourValue>, lighten: bool, applies: bool, adj: int, n: int, j: int, c: int, added: seq<ColourValue>)
    returns (col: ColourValue, x: ColourValue)
    requires 0 <= j < |cols| && 0 <= adj <= 100 && HslReady(cols) && applies && c < n
    ensures HslReady(cols[j := col]) && x == Variant(cols[j], lighten, adj)
    ensures Pass(cols, lighten, applies, adj, n, j, c, added) == Pass(cols[j := col], lighten, applies, adj, n, j + 1, c + 1, added + [x])
  {
    var o := if lighten then Lighten(cols[j], Int(adj), false) else Darken(cols[j], Int(adj), false);
    AdjustLightnessFillsCache(cols[j], adj, lighten);
    FillingPreservesGetters(cols[j]);
    col, x := o.receiver, o.result.value;
  }

  /** Step i of the expansion adds darker variants, by (i + 1) * 10 percent. */
  predicate DarkerPass(l: real, i: int) {
    l - ((i + 1) * 10) as real > 0.0
  }

  /** Step i of the expansion adds lighter variants, by (i + 1) * 10 percent. */
  predicate LighterPass(l: real, i: int) {
    l + ((i + 1) * 10) as real < 100.0
  }

  /** How many of the passes of steps i to 8 apply. */
  function Passes(l: real, i: nat): nat
    decreases 9 - i
  {
    if i > 8 then 0
    else Indicator(DarkerPass(l, i)) + Indicator(LighterPass(l, i)) + Passes(l, i + 1)
  }

  /** Each step's darker variants, then its lighter ones, step after step. */
  function Interleave(darker: seq<seq<ColourValue>>, lighter: seq<seq<ColourValue>>): seq<ColourValue>
    requires |darker| == |lighter|
    decreases |darker|
  {
    if |darker| == 0 then []
    else Interleave(darker[..|darker| - 1], lighter[..|lighter| - 1]) + darker[|darker| - 1] + lighter[|lighter| - 1]
  }

  lemma InterleaveStep(darker: seq<seq<ColourValue>>, lighter: seq<seq<ColourValue>>, d: seq<ColourValue>, u: seq<ColourValue>)
    requires |darker| == |lighter|
    ensures Interleave(darker + [d], lighter + [u]) == Interleave(darker, lighter) + d + u
  {
    assert (darker + [d])[..|darker|] == darker;
    assert (lighter + [u])[..|lighter|] == lighter;
  }

  /** The state of the outer loop: the columns, the count, and each step's variants. */
  datatype Expansion = Expansion(cols: seq<ColourValue>, count: int, darker: seq<seq<ColourValue>>, lighter: seq<seq<ColourValue>>)

  /**
   * The outer loop of the expansion from step i, with c colours counted:
   * the first column's lightness l decides whether a step's darker and
   * lighter passes apply.
   */
  function Expand(cols: seq<ColourValue>, l: real, n: int, i: nat, c: int,
                  darker: seq<seq<ColourValue>>, lighter: seq<seq<ColourValue>>): (r: Expansion)
    requires |cols| >= 1 && HslReady(cols) && cols[0].HasHsl() && cols[0].l.value == l
    requires |darker| == |lighter|
    requires c < n ==> n <= c + |cols| * Passes(l, i)
    decreases 9 - i
    ensures |r.cols| == |cols| && HslReady(r.cols) && |r.darker| == |r.lighter|
  {
    if c >= n then Expansion(cols, c, darker, lighter)
    else
      var adj := (i + 1) * 10;
      var s1 := Pass(cols, false, DarkerPass(l, i), adj, n, 0, c, []);
      var s2 := Pass(s1.cols, true, LighterPass(l, i), adj, n, 0, s1.count, []);
      ExpandStep(cols, l, n, i, c);
      Expand(s2.cols, l, n, i + 1, s2.count, darker + [s1.added], lighter + [s2.added])
  }

  /** One step of the outer loop keeps the first column, and enough passes remain for the rest. */
  lemma ExpandStep(cols: seq<ColourValue>, l: real, n: int, i: nat, c: int)
    requires |cols| >= 1 && HslReady(cols) && cols[0].HasHsl() && cols[0].l.value == l
    requires c < n && n <= c + |cols| * Passes(l, i)
    ensures i <= 8
    ensures var s1 := Pass(cols, false, DarkerPass(l, i), (i + 1) * 10, n, 0, c, []);
      var s2 := Pass(s1.cols, true, LighterPass(l, i), (i + 1) * 10, n, 0, s1.count, []);
      s2.cols[0] == cols[0] && s2.count >= c && |s1.added| + |s2.added| == s2.count - c &&
      (s2.count < n ==> n <= s2.count + |cols| * Passes(l, i + 1)) &&
      AllHsl(s1.added) && AllHsl(s2.added) &&
      forall k | 0 <= k < |cols| :: s2.cols[k] == cols[k] || s2.cols[k] == cols[k].HslFilled()
  {
    var adj := (i + 1) * 10;
    var s1 := Pass(cols, false, DarkerPass(l, i), adj, n, 0, c, []);
    var s2 := Pass(s1.cols, true, LighterPass(l, i), adj, n, 0, s1.count, []);
    PassCounts(cols, false, DarkerPass(l, i), adj, n, 0, c, []);
    PassCounts(s1.cols, true, LighterPass(l, i), adj, n, 0, s1.count, []);
    CountStep(|cols|, n, c, Indicator(DarkerPass(l, i)), Indicator(LighterPass(l, i)), Passes(l, i + 1), s1.count, s2.count);
    TwoPassesKeepColumns(cols, l, n, i, c);
  }

  /** The count after both passes of a step, in terms of how many passes remain. */
  lemma CountStep(m: int, n: int, c: int, dp: nat, lp: nat, p: nat, c1: int, c2: int)
    requires m >= 1 && dp <= 1 && lp <= 1 && c < n <= c + m * (dp + lp + p)
    requires c1 == if dp == 1 then Min(n, c + m) else c
    requires c2 == if lp == 1 && c1 < n then Min(n, c1 + m) else c1
    ensures c2 >= c && (c2 < n ==> n <= c2 + m * p)
  {
    assert m * (dp + lp + p) == m * dp + m * lp + m * p;
  }

  lemma TwoPassesKeepColumns(cols: seq<ColourValue>, l: real, n: int, i: nat, c: int)
    requires |cols| >= 1 && HslReady(cols) && cols[0].HasHsl() && i <= 8
    ensures var s1 := Pass(cols, false, DarkerPass(l, i), (i + 1) * 10, n, 0, c, []);
      var s2 := Pass(s1.cols, true, LighterPass(l, i), (i + 1) * 10, n, 0, s1.count, []);
      s2.cols[0] == cols[0] &&
      forall k | 0 <= k < |cols| :: s2.cols[k] == cols[k] || s2.cols[k] == cols[k].HslFilled()
  {
    var adj := (i + 1) * 10;
    var s1 := Pass(cols, false, DarkerPass(l, i), adj, n, 0, c, []);
    PassKeepsColumns(cols, false, DarkerPass(l, i), adj, n, 0, c, []);
    PassKeepsColumns(s1.cols, true, LighterPass(l, i), adj, n, 0, s1.count, []);
    forall k | 0 <= k < |cols|
      ensures s1.cols[k].HslFilled() == cols[k].HslFilled()
    {
      FillingPreservesGetters(cols[k]);
    }
  }

  /**
   * The outer loop ends with at least n colours counted, every variant it
   * added held as HSL, and the columns changed only by their caches.
   */
  lemma {:induction false} ExpandCounts(cols: seq<ColourValue>, l: real, n: int, i: nat, c: int,
                                        darker: seq<seq<ColourValue>>, lighter: seq<seq<ColourValue>>)
    requires |cols| >= 1 && HslReady(cols) && cols[0].HasHsl() && cols[0].l.value == l
    requires |darker| == |lighter|
    requires c < n ==> n <= c + |cols| * Passes(l, i)
    decreases 9 - i
    ensures var r := Expand(cols, l, n, i, c, darker, lighter);
      r.cols[0] == cols[0] && r.count >= c && (c < n ==> r.count >= n) &&
      |Interleave(r.darker, r.lighter)| == |Interleave(darker, lighter)| + r.count - c &&
      (AllHsl(Interleave(darker, lighter)) ==> AllHsl(Interleave(r.darker, r.lighter))) &&
      forall k | 0 <= k < |cols| :: r.cols[k] == cols[k] || r.cols[k] == cols[k].HslFilled()
  {
    if c < n {
      var adj := (i + 1) * 10;
      var s1 := Pass(cols, false, DarkerPass(l, i), adj, n, 0, c, []);
      var s2 := Pass(s1.cols, true, LighterPass(l, i), adj, n, 0, s1.count, []);
      ExpandStep(cols, l, n, i, c);
      InterleaveStep(darker, lighter, s1.added, s2.added);
      ExpandCounts(s2.cols, l, n, i + 1, s2.count, darker + [s1.added], lighter + [s2.added]);
      var r := Expand(s2.cols, l, n, i + 1, s2.count, darker + [s1.added], lighter + [s2.added]);
      forall k | 0 <= k < |cols|
        ensures r.cols[k] == cols[k] || r.cols[k] == cols[k].HslFilled()
      {
        FillingPreservesGetters(cols[k]);
      }
    }
  }

  /**
   * The colours once variants are added: the hue colours, with the caches
   * the expansion filled, then each step's darker and lighter variants.
   */
  function Expanded(base: seq<ColourValue>, n: int): (cols: seq<ColourValue>)
    requires |base| < n <= EntriesPerHue * |base| && HslReady(base)
    ensures |cols| >= n && HslReady(cols)
    ensures forall k | 0 <= k < |base| :: cols[k] == base[k] || cols[k] == base[k].HslFilled()
  {
    var first := base[0].HslFilled();
    FillingPreservesGetters(base[0]);
    PassesAtLeastEight(first.l.value);
    StartCovers(|base|, n, Passes(first.l.value, 0));
    var e := Expand(base[0 := first], first.l.value, n, 0, |base|, [], []);
    ExpandedCounts(base, n);
    JoinReady(e.cols, Interleave(e.darker, e.lighter));
    e.cols + Interleave(e.darker, e.lighter)
  }

  lemma ExpandedCounts(base: seq<ColourValue>, n: int)
    requires |base| < n <= EntriesPerHue * |base| && HslReady(base)
    ensures var first := base[0].HslFilled();
      var e := Expand(base[0 := first], first.l.value, n, 0, |base|, [], []);
      |e.cols| + |Interleave(e.darker, e.lighter)| >= n && AllHsl(Interleave(e.darker, e.lighter)) &&
      forall k | 0 <= k < |base| :: e.cols[k] == base[k] || e.cols[k] == base[k].HslFilled()
  {
    var first := base[0].HslFilled();
    FillingPreservesGetters(base[0]);
    var cols0 := base[0 := first];
    PassesAtLeastEight(first.l.value);
    StartCovers(|base|, n, Passes(first.l.value, 0));
    ExpandCounts(cols0, first.l.value, n, 0, |base|, [], []);
  }

  /**
   * With columns held as HSL, which the expansion then leaves as they are,
   * the outer loop from step i records for each later step t the darker
   * variants of the first columns by (t + 1) * 10 percent, in column
   * order, and then their lighter variants; a list is empty unless its
   * pass applies at the first column's lightness.
   */
  lemma {:induction false} ExpandVariants(cols: seq<ColourValue>, l: real, n: int, i: nat, c: int,
                                          darker: seq<seq<ColourValue>>, lighter: seq<seq<ColourValue>>)
    requires |cols| >= 1 && HslReady(cols) && AllHsl(cols) && cols[0].l.value == l
    requires |darker| == |lighter| == i && AllRounds(cols, l, darker, lighter)
    requires c < n ==> n <= c + |cols| * Passes(l, i)
    decreases 9 - i
    ensures var r := Expand(cols, l, n, i, c, darker, lighter);
      r.cols == cols && AllRounds(cols, l, r.darker, r.lighter)
  {
    if c < n {
      var d, u, c' := HslRound(cols, l, n, i, c, darker, lighter);
      AllRoundsExtend(cols, l, darker, lighter, d, u);
      ExpandVariants(cols, l, n, i + 1, c', darker + [d], lighter + [u]);
    }
  }

  /** Every recorded step's lists are that step's variants. */
  predicate AllRounds(cols: seq<ColourValue>, l: real, darker: seq<seq<ColourValue>>, lighter: seq<seq<ColourValue>>) {
    |darker| == |lighter| && forall t | 0 <= t < |darker| :: RoundVariants(cols, l, t, darker[t], lighter[t])
  }

  lemma AllRoundsExtend(cols: seq<ColourValue>, l: real, darker: seq<seq<ColourValue>>, lighter: seq<seq<ColourValue>>,
                        d: seq<ColourValue>, u: seq<ColourValue>)
    requires AllRounds(cols, l, darker, lighter) && RoundVariants(cols, l, |darker|, d, u)
    ensures AllRounds(cols, l, darker + [d], lighter + [u])
  {
    forall t | 0 <= t < |darker| + 1
      ensures RoundVariants(cols, l, t, (darker + [d])[t], (lighter + [u])[t])
    {
      if t < |darker| {
        assert (darker + [d])[t] == darker[t] && (lighter + [u])[t] == lighter[t];
      }
    }
  }

  /**
   * One step of the outer loop over columns held as HSL: it keeps the
   * columns, records the step's variant lists, and continues from the
   * next step with the new count.
   */
  lemma HslRound(cols: seq<ColourValue>, l: real, n: int, i: nat, c: int,
                 darker: seq<seq<ColourValue>>, lighter: seq<seq<ColourValue>>)
    returns (d: seq<ColourValue>, u: seq<ColourValue>, c': int)
    requires |cols| >= 1 && HslReady(cols) && AllHsl(cols) && cols[0].l.value == l
    requires |darker| == |lighter|
    requires c < n && n <= c + |cols| * Passes(l, i)
    ensures RoundVariants(cols, l, i, d, u)
    ensures c' < n ==> n <= c' + |cols| * Passes(l, i + 1)
    ensures Expand(cols, l, n, i, c, darker, lighter) == Expand(cols, l, n, i + 1, c', darker + [d], lighter + [u])
  {
    var adj := (i + 1) * 10;
    var s1 := Pass(cols, false, DarkerPass(l, i), adj, n, 0, c, []);
    var s2 := Pass(s1.cols, true, LighterPass(l, i), adj, n, 0, s1.count, []);
    ExpandUnfold(cols, l, n, i, c, darker, lighter);
    RoundOfHsl(cols, l, n, i, c);
    d, u, c' := s1.added, s2.added, s2.count;
  }

  /** One step of the outer loop: both inner loops, then the rest from the next step. */
  lemma ExpandUnfold(cols: seq<ColourValue>, l: real, n: int, i: nat, c: int,
                     darker: seq<seq<ColourValue>>, lighter: seq<seq<ColourValue>>)
    requires |cols| >= 1 && HslReady(cols) && cols[0].HasHsl() && cols[0].l.value == l
    requires |darker| == |lighter|
    requires c < n && n <= c + |cols| * Passes(l, i)
    ensures var adj := (i + 1) * 10;
      var s1 := Pass(cols, false, DarkerPass(l, i), adj, n, 0, c, []);
      var s2 := Pass(s1.cols, true, LighterPass(l, i), adj, n, 0, s1.count, []);
      i <= 8 && s2.cols[0] == cols[0] && HslReady(s2.cols) && |s2.cols| == |cols| &&
      (s2.count < n ==> n <= s2.count + |cols| * Passes(l, i + 1)) &&
      Expand(cols, l, n, i, c, darker, lighter) == Expand(s2.cols, l, n, i + 1, s2.count, darker + [s1.added], lighter + [s2.added])
  {
    ExpandStep(cols, l, n, i, c);
  }

  /** One step of the outer loop over columns held as HSL keeps them, and adds that step's variant lists. */
  lemma RoundOfHsl(cols: seq<ColourValue>, l: real, n: int, i: nat, c: int)
    requires |cols| >= 1 && HslReady(cols) && AllHsl(cols) && i <= 8
    ensures var adj := (i + 1) * 10;
      var s1 := Pass(cols, false, DarkerPass(l, i), adj, n, 0, c, []);
      var s2 := Pass(s1.cols, true, LighterPass(l, i), adj, n, 0, s1.count, []);
      s1.cols == cols && s2.cols == cols && RoundVariants(cols, l, i, s1.added, s2.added)
  {
    var adj := (i + 1) * 10;
    var s1 := Pass(cols, false, DarkerPass(l, i), adj, n, 0, c, []);
    PassKeepsColumns(cols, false, DarkerPass(l, i), adj, n, 0, c, []);
    assert s1.cols == cols;
    PassKeepsColumns(s1.cols, true, LighterPass(l, i), adj, n, 0, s1.count, []);
    PassVariants(cols, false, DarkerPass(l, i), adj, n, 0, c, []);
    PassVariants(s1.cols, true, LighterPass(l, i), adj, n, 0, s1.count, []);
    PassCounts(cols, false, DarkerPass(l, i), adj, n, 0, c, []);
    PassCounts(s1.cols, true, LighterPass(l, i), adj, n, 0, s1.count, []);
  }

  /**
   * Step t's variant lists: the darker variants of the first columns by
   * (t + 1) * 10 percent, in column order, and then their lighter
   * variants, each empty unless its pass applies at lightness l.
   */
  predicate RoundVariants(cols: seq<ColourValue>, l: real, t: int, d: seq<ColourValue>, u: seq<ColourValue>) {
    HslReady(cols) && 0 <= t <= 8 && |d| <= |cols| && |u| <= |cols| &&
    d == Variants(cols, false, (t + 1) * 10, 0, |d|) && u == Variants(cols, true, (t + 1) * 10, 0, |u|) &&
    (|d| > 0 ==> DarkerPass(l, t)) && (|u| > 0 ==> LighterPass(l, t))
  }

  /**
   * The expansion of hue colours held as HSL: the hue colours, then for
   * each step t the darker variants of the first hues by (t + 1) * 10
   * percent in hue order, then their lighter variants.
   */
  lemma ExpandedVariants(base: seq<ColourValue>, n: int)
    requires |base| < n <= EntriesPerHue * |base| && HslReady(base) && AllHsl(base)
    ensures var e := Expand(base, base[0].l.value, n, 0, |base|, [], []);
      Expanded(base, n) == base + Interleave(e.darker, e.lighter) && AllRounds(base, base[0].l.value, e.darker, e.lighter)
  {
    assert base[0 := base[0].HslFilled()] == base;
    PassesAtLeastEight(base[0].l.value);
    StartCovers(|base|, n, Passes(base[0].l.value, 0));
    ExpandVariants(base, base[0].l.value, n, 0, |base|, [], []);
  }

  /** With at least eight passes, the hue colours' columns can supply up to nine colours per hue. */
  lemma StartCovers(m: int, n: int, p: int)
    requires m >= 1 && n <= EntriesPerHue * m && p >= 8
    ensures n <= m + m * p
  {
    assert m * p == m * 8 + m * (p - 8);
    assert m * (p - 8) >= 0;
  }

  /**
   * Whatever the first colour's lightness, at least eight of the eighteen
   * passes apply: the darker pass of step k - 1 and the lighter pass of
   * step 9 - k exclude each other only when the lightness is exactly 10k.
   */
  lemma PassesAtLeastEight(l: real)
    ensures Passes(l, 0) >= 8
  {
    assert Passes(l, 8) == Indicator(DarkerPass(l, 8)) + Indicator(LighterPass(l, 8));
    assert Passes(l, 7) == Indicator(DarkerPass(l, 7)) + Indicator(LighterPass(l, 7)) + Passes(l, 8);
    assert Passes(l, 6) == Indicator(DarkerPass(l, 6)) + Indicator(LighterPass(l, 6)) + Passes(l, 7);
    assert Passes(l, 5) == Indicator(DarkerPass(l, 5)) + Indicator(LighterPass(l, 5)) + Passes(l, 6);
    assert Passes(l, 4) == Indicator(DarkerPass(l, 4)) + Indicator(LighterPass(l, 4)) + Passes(l, 5);
    assert Passes(l, 3) == Indicator(DarkerPass(l, 3)) + Indicator(LighterPass(l, 3)) + Passes(l, 4);
    assert Passes(l, 2) == Indicator(DarkerPass(l, 2)) + Indicator(LighterPass(l, 2)) + Passes(l, 3);
    assert Passes(l, 1) == Indicator(DarkerPass(l, 1)) + Indicator(LighterPass(l, 1)) + Passes(l, 2);
  }

  // ---------------------------------------------------------------------------
  // palette()

  /** The receiver's fields after palette(), and the strings it returns. */
  datatype PaletteOutcome = PaletteOutcome(receiver: ColourValue, result: Result<seq<string>>)

  /**
   * The calls the model covers: the colours converted to HSL can be
   * converted without dividing by zero, and a mono palette's loop ends.
   */
  predicate PaletteDefined(v: ColourValue, n: int, mode: Mode, format: string) {
    v.WellFormed() &&
    if mode == Named("mono") then
      n <= MonoLimit ==>
        (n == 1 && NeedsHsl(format) ==> v.HslComputable()) &&
        (n > 1 ==> v.HslComputable() && MonoTerminates(v.Lightness(), n))
    else
      (ReadsOwnHue(mode, n) ==> v.HslComputable()) &&
      (mode.ColourList? && (n > |mode.items| || NeedsHsl(format)) ==>
        forall k | 0 <= k < |mode.items| :: Parse(mode.items[k]).Success? ==> Parse(mode.items[k]).value.HslComputable())
  }

  /**
   * palette(n, mode, format): the mode's colours, the first n of them
   * rendered with toString. Only the exact string `mono` selects the mono
   * mode; other strings are compared after lower-casing.
   */
  function Palette(v: ColourValue, n: int, mode: Mode, format: string): (o: PaletteOutcome)
    requires PaletteDefined(v, n, mode, format)
    ensures o.receiver.WellFormed()
  {
    if mode == Named("mono") then MonoPaletteOf(v, n, format)
    else HuePaletteOf(v, n, mode, format)
  }

  /** The mono branch of palette: at most 21 colours, darker ones first. */
  function MonoPaletteOf(v: ColourValue, n: int, format: string): (o: PaletteOutcome)
    requires PaletteDefined(v, n, Named("mono"), format)
    ensures o.receiver.WellFormed()
  {
    if n > MonoLimit then PaletteOutcome(v, Failure(TooManyColours))
    else if n <= 1 then
      var cols := Slice([v], n);
      PaletteOutcome(if |cols| > 0 then RenderState(v, format) else v, RenderAll(cols, format))
    else
      var w := v.HslFilled();
      var cols := Slice(MonoColours(w, n), n);
      MonoColoursHsl(w, n);
      PaletteOutcome(RenderState(w, format), RenderAll(cols, format))
  }

  /** The other branches of palette: the mode's colours, expanded when n asks for more. */
  function HuePaletteOf(v: ColourValue, n: int, mode: Mode, format: string): (o: PaletteOutcome)
    requires PaletteDefined(v, n, mode, format) && mode != Named("mono")
    ensures o.receiver.WellFormed()
  {
    var stage := BaseColours(v, n, mode);
    match stage.colours
    case Failure(e) => PaletteOutcome(stage.receiver, Failure(e))
    case Success(base) =>
      if n > EntriesPerHue * |base| then PaletteOutcome(stage.receiver, Failure(TooManyColours))
      else if n > |base| then
        ExpandedRenderable(v, n, mode, format, base);
        PaletteOutcome(stage.receiver, RenderAll(Slice(Expanded(base, n), n), format))
      else
        PaletteOutcome(stage.receiver, RenderAll(Slice(base, n), format))
  }

  lemma MonoColoursHsl(w: ColourValue, n: int)
    requires w.WellFormed() && w.HasHsl() && 1 < n && MonoTerminates(w.l.value, n)
    ensures AllHsl(MonoColours(w, n))
  {
    MonoAscending(w, n);
  }

  /** The expanded colours of a mode other than mono can be rendered in any format the call allows. */
  lemma ExpandedRenderable(v: ColourValue, n: int, mode: Mode, format: string, base: seq<ColourValue>)
    requires PaletteDefined(v, n, mode, format) && mode != Named("mono")
    requires BaseColours(v, n, mode).colours == Success(base) && |base| < n <= EntriesPerHue * |base|
    ensures HslReady(base) && Renderable(Slice(Expanded(base, n), n), format)
  {
    BaseReady(v, n, mode, base);
    SliceReady(Expanded(base, n), n, format);
  }

  /** The hue colours, or the listed colours when the expansion or the format converts them, can be converted to HSL. */
  lemma BaseReady(v: ColourValue, n: int, mode: Mode, base: seq<ColourValue>)
    requires PaletteDefined(v, n, mode, format := "") && mode != Named("mono")
    requires BaseColours(v, n, mode).colours == Success(base) && n > |base|
    ensures HslReady(base)
  {
    if mode.ColourList? {
      forall k | 0 <= k < |base|
        ensures base[k].HslComputable()
      {
        assert Parse(mode.items[k]) == Success(base[k]);
      }
    }
  }

  lemma JoinReady(a: seq<ColourValue>, b: seq<ColourValue>)
    requires HslReady(a) && AllHsl(b)
    ensures HslReady(a + b)
  {
    forall k | 0 <= k < |a + b|
      ensures (a + b)[k].WellFormed() && (a + b)[k].HslComputable()
    {
      if k >= |a| {
        assert (a + b)[k] == b[k - |a|];
      }
    }
  }

  lemma SliceReady(cols: seq<ColourValue>, n: int, format: string)
    requires HslReady(cols)
    ensures Renderable(Slice(cols, n), format)
  {
  }

  // ---------------------------------------------------------------------------
  // Properties of palette()

  /** Colours held as HSL whose lightness never decreases along the sequence. */
  predicate Ascending(cols: seq<ColourValue>) {
    AllHsl(cols) && forall a, b | 0 <= a < b < |cols| :: cols[a].l.value <= cols[b].l.value
  }

  /** Colours held as HSL, each at most as light as l and as light as the ones after it. */
  predicate Darkening(l: real, d: seq<ColourValue>) {
    AllHsl(d) &&
    (forall a, b | 0 <= a < b < |d| :: d[a].l.value >= d[b].l.value) &&
    (forall k | 0 <= k < |d| :: d[k].l.value <= l)
  }

  /** Colours held as HSL, each at least as light as l and no lighter than the ones after it. */
  predicate Lightening(l: real, u: seq<ColourValue>) {
    Ascending(u) && forall k | 0 <= k < |u| :: l <= u[k].l.value
  }

  /** The mono loop's darker colours before step i: none darker than 5 (i - 1) percent below l. */
  predicate DarkerBefore(l: real, i: int, d: seq<ColourValue>) {
    Darkening(l, d) && forall k | 0 <= k < |d| :: Clip(l - (5 * (i - 1)) as real, 0.0, 100.0) <= d[k].l.value
  }

  /** The mono loop's lighter colours before step i: none lighter than 5 (i - 1) percent above l. */
  predicate LighterBefore(l: real, i: int, u: seq<ColourValue>) {
    Lightening(l, u) && forall k | 0 <= k < |u| :: u[k].l.value <= Clip(l + (5 * (i - 1)) as real, 0.0, 100.0)
  }

  lemma DarkerStep(v: ColourValue, i: int, darker: seq<ColourValue>)
    requires v.WellFormed() && v.HasHsl() && 1 <= i <= 20
    requires DarkerBefore(v.l.value, i, darker)
    ensures DarkerBefore(v.l.value, i + 1, DarkerAfter(v, i, darker))
  {
    var l := v.l.value;
    AdjustLightness(v, 5 * i, false);
    var x := Clip(l - (5 * i) as real, 0.0, 100.0);
    assert x <= Clip(l - (5 * (i - 1)) as real, 0.0, 100.0);
    if MonoDarker(l, i) {
      var d := darker + [Darken(v, Int(5 * i), false).result.value];
      assert d[|darker|].l.value == x <= l;
      assert forall k | 0 <= k < |darker| :: d[k] == darker[k];
    }
  }

  lemma LighterStep(v: ColourValue, i: int, lighter: seq<ColourValue>)
    requires v.WellFormed() && v.HasHsl() && 1 <= i <= 20
    requires LighterBefore(v.l.value, i, lighter)
    ensures LighterBefore(v.l.value, i + 1, LighterAfter(v, i, lighter))
  {
    var l := v.l.value;
    AdjustLightness(v, 5 * i, true);
    var y := Clip(l + (5 * i) as real, 0.0, 100.0);
    assert Clip(l + (5 * (i - 1)) as real, 0.0, 100.0) <= y;
    if MonoLighter(l, i) {
      var u := lighter + [Lighten(v, Int(5 * i), false).result.value];
      assert l <= y == u[|lighter|].l.value;
      assert forall k | 0 <= k < |lighter| :: u[k] == lighter[k];
    }
  }

  /** One step of the mono loop, while the count is below n. */
  lemma MonoLoopUnfold(v: ColourValue, n: int, i: int, c: int, darker: seq<ColourValue>, lighter: seq<ColourValue>)
    requires v.WellFormed() && v.HasHsl() && i >= 1
    requires c < n <= c + MonoHits(v.l.value, i)
    ensures i <= 20
    ensures var c' := c + Indicator(MonoDarker(v.l.value, i)) + Indicator(MonoLighter(v.l.value, i));
      (c' < n ==> n <= c' + MonoHits(v.l.value, i + 1)) &&
      MonoLoop(v, n, i, c, darker, lighter) == MonoLoop(v, n, i + 1, c', DarkerAfter(v, i, darker), LighterAfter(v, i, lighter))
  {
  }

  /** One step of the mono loop keeps the darker and the lighter colours ordered and bounded. */
  lemma MonoNext(v: ColourValue, n: int, i: int, c: int, darker: seq<ColourValue>, lighter: seq<ColourValue>)
    returns (c': int, d: seq<ColourValue>, u: seq<ColourValue>)
    requires v.WellFormed() && v.HasHsl() && i >= 1
    requires c < n <= c + MonoHits(v.l.value, i)
    ensures c' < n ==> n <= c' + MonoHits(v.l.value, i + 1)
    ensures MonoLoop(v, n, i, c, darker, lighter) == MonoLoop(v, n, i + 1, c', d, u)
    ensures DarkerBefore(v.l.value, i, darker) ==> DarkerBefore(v.l.value, i + 1, d)
    ensures LighterBefore(v.l.value, i, lighter) ==> LighterBefore(v.l.value, i + 1, u)
  {
    var l := v.l.value;
    MonoLoopUnfold(v, n, i, c, darker, lighter);
    c' := c + Indicator(MonoDarker(l, i)) + Indicator(MonoLighter(l, i));
    d, u := DarkerAfter(v, i, darker), LighterAfter(v, i, lighter);
    if DarkerBefore(l, i, darker) {
      DarkerStep(v, i, darker);
    }
    if LighterBefore(l, i, lighter) {
      LighterStep(v, i, lighter);
    }
  }

  /** The mono loop's darker colours get darker and stay at most the base lightness. */
  lemma {:induction false} MonoLoopDarkens(v: ColourValue, n: int, i: int, c: int, darker: seq<ColourValue>, lighter: seq<ColourValue>)
    requires v.WellFormed() && v.HasHsl() && i >= 1
    requires c < n ==> n <= c + MonoHits(v.l.value, i)
    requires DarkerBefore(v.l.value, i, darker)
    decreases 21 - i
    ensures Darkening(v.l.value, MonoLoop(v, n, i, c, darker, lighter).0)
  {
    if c < n {
      var c', d, u := MonoNext(v, n, i, c, darker, lighter);
      MonoLoopDarkens(v, n, i + 1, c', d, u);
    }
  }

  /** The mono loop's lighter colours get lighter and stay at least the base lightness. */
  lemma {:induction false} MonoLoopLightens(v: ColourValue, n: int, i: int, c: int, darker: seq<ColourValue>, lighter: seq<ColourValue>)
    requires v.WellFormed() && v.HasHsl() && i >= 1
    requires c < n ==> n <= c + MonoHits(v.l.value, i)
    requires LighterBefore(v.l.value, i, lighter)
    decreases 21 - i
    ensures Lightening(v.l.value, MonoLoop(v, n, i, c, darker, lighter).1)
  {
    if c < n {
      var c', d, u := MonoNext(v, n, i, c, darker, lighter);
      MonoLoopLightens(v, n, i + 1, c', d, u);
    }
  }

  lemma ReverseAscending(l: real, d: seq<ColourValue>)
    requires Darkening(l, d)
    ensures Ascending(Reverse(d)) && forall k | 0 <= k < |d| :: Reverse(d)[k].l.value <= l
  {
    var t := Reverse(d);
    forall a, b | 0 <= a < b < |t|
      ensures t[a].l.value <= t[b].l.value
    {
      assert t[a] == d[|d| - 1 - a] && t[b] == d[|d| - 1 - b];
    }
  }

  /** Two ascending runs separated by the lightness m join into one. */
  lemma JoinAscending(a: seq<ColourValue>, m: real, b: seq<ColourValue>)
    requires Ascending(a) && Ascending(b)
    requires forall k | 0 <= k < |a| :: a[k].l.value <= m
    requires forall k | 0 <= k < |b| :: m <= b[k].l.value
    ensures Ascending(a + b)
  {
    var t := a + b;
    forall x, y | 0 <= x < y < |t|
      ensures t[x].l.value <= t[y].l.value
    {
      if y < |a| {
        assert t[x] == a[x] && t[y] == a[y];
      } else if x >= |a| {
        assert t[x] == b[x - |a|] && t[y] == b[y - |a|];
      } else {
        assert t[x] == a[x] && t[y] == b[y - |a|];
      }
    }
    forall k | 0 <= k < |t|
      ensures t[k].WellFormed() && t[k].HasHsl()
    {
      if k < |a| {
        assert t[k] == a[k];
      } else {
        assert t[k] == b[k - |a|];
      }
    }
  }

  /** A mono palette's colours run from the darkest to the lightest, with this colour among them. */
  lemma MonoAscending(w: ColourValue, n: int)
    requires w.WellFormed() && w.HasHsl() && 1 < n && MonoTerminates(w.l.value, n)
    ensures Ascending(MonoColours(w, n))
  {
    var l := w.l.value;
    MonoLoopDarkens(w, n, 1, 1, [], []);
    MonoLoopLightens(w, n, 1, 1, [], []);
    var r := MonoLoop(w, n, 1, 1, [], []);
    ReverseAscending(l, r.0);
    var d := Reverse(r.0);
    JoinAscending(d, l, [w]);
    var dw := d + [w];
    AppendBelow(d, w, l);
    JoinAscending(dw, l, r.1);
  }

  /** A colour no lighter than m, appended to colours no lighter than m. */
  lemma AppendBelow(d: seq<ColourValue>, w: ColourValue, m: real)
    requires forall k | 0 <= k < |d| :: d[k].HasHsl() && d[k].l.value <= m
    requires w.HasHsl() && w.l.value <= m
    ensures forall k | 0 <= k < |d + [w]| :: (d + [w])[k].HasHsl() && (d + [w])[k].l.value <= m
  {
    forall k | 0 <= k < |d + [w]|
      ensures (d + [w])[k].HasHsl() && (d + [w])[k].l.value <= m
    {
      if k < |d| {
        assert (d + [w])[k] == d[k];
      }
    }
  }

  /** Slicing a sequence of at least n >= 0 elements leaves exactly n. */
  lemma PaletteSize(v: ColourValue, n: int, mode: Mode, format: string)
    requires PaletteDefined(v, n, mode, format) && n >= 0
    ensures var o := Palette(v, n, mode, format);
      o.result.Success? ==> |o.result.value| == n
  {
  }

  /**
   * A negative n is a negative length for array_slice, which drops -n
   * colours from the end: a mono palette is then empty, and the other modes
   * keep their first |base| + n colours, or none.
   */
  lemma PaletteSizeNegative(v: ColourValue, n: int, mode: Mode, format: string)
    requires PaletteDefined(v, n, mode, format) && n < 0
    ensures var o := Palette(v, n, mode, format);
      o.result.Success? ==>
        if mode == Named("mono") then o.result.value == []
        else
          var base := BaseColours(v, n, mode).colours;
          base.Success? && |o.result.value| == if |base.value| + n > 0 then |base.value| + n else 0
  {
  }

  /** A mono palette has at most 21 colours; asking for more changes nothing. */
  lemma MonoTooMany(v: ColourValue, n: int, format: string)
    requires v.WellFormed() && n > MonoLimit
    ensures Palette(v, n, Named("mono"), format) == PaletteOutcome(v, Failure(TooManyColours))
  {
  }

  /** The mode `mono` is compared before lower-casing, so `Mono` is not a mode. */
  lemma MonoIsCaseSensitive(v: ColourValue, n: int, format: string)
    requires v.WellFormed()
    ensures Palette(v, n, Named("Mono"), format) == PaletteOutcome(v, Failure(InvalidMode))
  {
    assert Lower("Mono") == "mono";
  }

  /**
   * A count of hues must divide 360: zero raises the division error of
   * `%`, and any other non-divisor is an invalid mode. A negative divisor
   * makes no hues, so any positive n is too many.
   */
  lemma HueCountErrors(v: ColourValue, n: int, k: int, format: string)
    requires v.WellFormed()
    ensures k == 0 ==> Palette(v, n, HueCount(k), format) == PaletteOutcome(v, Failure(DivisionByZero))
    ensures k != 0 && Rem(360, k) != 0 ==> Palette(v, n, HueCount(k), format) == PaletteOutcome(v, Failure(InvalidMode))
    ensures k < 0 && Rem(360, k) == 0 && n > 0 ==> Palette(v, n, HueCount(k), format) == PaletteOutcome(v, Failure(TooManyColours))
  {
  }

  /** An unknown mode name, or a mode that is neither a string, an integer nor an array, is an error. */
  lemma UnknownModes(v: ColourValue, n: int, name: string, format: string)
    requires v.WellFormed() && name != "mono" && NamedRotation(Lower(name)).None?
    ensures Palette(v, n, Named(name), format) == PaletteOutcome(v, Failure(InvalidMode))
    ensures Palette(v, n, OtherMode, format) == PaletteOutcome(v, Failure(InvalidMode))
  {
  }

  /** A named rotation yields at most nine entries per hue. */
  lemma RotationLimit(v: ColourValue, n: int, name: string, format: string)
    requires name != "mono" && NamedRotation(Lower(name)).Some?
    requires PaletteDefined(v, n, Named(name), format)
    requires n > EntriesPerHue * NamedRotation(Lower(name)).value.count
    ensures Palette(v, n, Named(name), format) == PaletteOutcome(v.HslFilled(), Failure(TooManyColours))
  {
  }

  /**
   * Every mode other than mono yields at most nine entries per colour it
   * starts from: asking for more is refused after those colours are made.
   */
  lemma PaletteTooMany(v: ColourValue, n: int, mode: Mode, format: string)
    requires mode != Named("mono") && PaletteDefined(v, n, mode, format)
    requires BaseColours(v, n, mode).colours.Success?
    requires n > EntriesPerHue * |BaseColours(v, n, mode).colours.value|
    ensures Palette(v, n, mode, format) == PaletteOutcome(BaseColours(v, n, mode).receiver, Failure(TooManyColours))
  {
  }

  /**
   * A hue rotation of a whole hue: colour k has the hue turned by k steps
   * and the saturation, lightness and alpha of the colour rotated.
   */
  lemma RotationHues(b: ColourValue, step: int, m: int, k: int)
    requires b.WellFormed() && b.HslComputable() && WholeDegrees(b.Hue()) && step >= 0
    requires 0 <= k < m
    ensures var c := Rotations(b, step, m)[k];
      c.h == Some(((b.Hue().Floor + k * step) % 360) as real) &&
      c.s == Some(b.Saturation()) && c.l == Some(b.Lightness()) && c.a == b.a
  {
    var t := b.Hue().Floor + k * step;
    assert b.Hue() + (k * step) as real == t as real;
    WholeRemainder(t);
    var o := AdjustHue(b, k * step);
    assert Rotations(b, step, m)[k] == o.result.value;
    assert o.result.value == HslValue((t % 360) as real, b.Saturation(), b.Lightness(), b.a);
  }

  /** The wheel: up to twelve colours with the hue turned in 30-degree steps. */
  lemma WheelHues(v: ColourValue, n: int, k: int)
    requires v.WellFormed() && v.HslComputable() && WholeDegrees(v.Hue())
    requires 0 <= k < Min(12, n)
    ensures var base := BaseColours(v, n, Named("wheel")).colours;
      base.Success? && |base.value| == Min(12, n) &&
      base.value[k].h == Some(((v.Hue().Floor + 30 * k) % 360) as real) && base.value[k].l == Some(v.Lightness())
  {
    assert Lower("wheel") == "wheel";
    NamedBase(v, n, "wheel");
    RotationHues(v, 30, Min(12, n), k);
  }

  /**
   * adjustHue keeps the sign of a negative sum, so the analogous colours
   * of a hue below 30 start from a negative hue.
   */
  lemma AnalogousFromNegativeHue()
    ensures var base := BaseColours(HslValue(10.0, 50.0, 50.0, 1.0), 3, Named("analogous")).colours;
      base.Success? && |base.value| == 3 && base.value[0].h == Some(-20.0) && base.value[1].h == Some(10.0)
  {
    var v := HslValue(10.0, 50.0, 50.0, 1.0);
    NamedBase(v, 3, "analogous");
    AdjustHueOfHsl(10.0, 50.0, 50.0, 1.0, -30);
    assert Trunc(-20.0) == -20;
    var b := HslValue(-20.0, 50.0, 50.0, 1.0);
    assert AdjustHue(v, -30).result.value == b;
    AnalogousTurns(b);
  }

  lemma AnalogousTurns(b: ColourValue)
    requires b == HslValue(-20.0, 50.0, 50.0, 1.0)
    ensures var base := Rotations(b, 30, 3); base[0].h == Some(-20.0) && base[1].h == Some(10.0)
  {
    AdjustHueOfHsl(-20.0, 50.0, 50.0, 1.0, 0);
    AdjustHueOfHsl(-20.0, 50.0, 50.0, 1.0, 30);
    assert FloatRem(-20.0, 360) == -20 by {
      assert Trunc(-20.0) == -20;
      assert Rem(-20, 360) == -((20) % 360) == -20;
    }
    assert FloatRem(10.0, 360) == 10 by {
      assert Trunc(10.0) == 10;
      assert Rem(10, 360) == 10 % 360 == 10;
    }
    var base := Rotations(b, 30, 3);
    assert base[0] == AdjustHue(b, 0).result.value;
    assert base[1] == AdjustHue(b, 30).result.value;
  }

  /** The colours of a named rotation. */
  lemma NamedBase(v: ColourValue, n: int, name: string)
    requires v.WellFormed() && v.HslComputable() && Lower(name) == name && name != "mono"
    requires NamedRotation(name).Some?
    ensures var rot := NamedRotation(name).value;
      var start := if rot.offset.Some? then AdjustHue(v, rot.offset.value).result.value else v;
      BaseColours(v, n, Named(name)).colours == Success(Rotations(start, rot.step, Min(rot.count, n)))
  {
  }

  /**
   * The mode's own colours come first and read as they were made: the
   * expansion only fills their caches.
   */
  lemma HueColoursFirst(v: ColourValue, n: int, mode: Mode, format: string, base: seq<ColourValue>, palette: seq<string>, k: int)
    requires PaletteDefined(v, n, mode, format) && mode != Named("mono")
    requires BaseColours(v, n, mode).colours == Success(base) && 0 <= k < |base| && k < n
    requires Palette(v, n, mode, format).result == Success(palette)
    ensures base[k].WellFormed() && (NeedsHsl(format) ==> base[k].HslComputable())
    ensures |palette| == n && Render(base[k], format, true, true) == Success(palette[k])
  {
    PaletteSize(v, n, mode, format);
    BaseEntryReady(v, n, mode, format, base, k);
    var cols := PaletteColours(v, n, mode, format, base);
    RenderAllEntries(Slice(cols, n), format);
    assert Slice(cols, n)[k] == cols[k];
    if cols[k] != base[k] {
      RenderFilled(base[k], format);
    }
  }

  /** Filling the HSL cache changes nothing toString reports. */
  lemma RenderFilled(c: ColourValue, format: string)
    requires c.WellFormed() && c.HslComputable()
    ensures Render(c.HslFilled(), format, true, true) == Render(c, format, true, true)
  {
    FillingPreservesGetters(c);
  }

  lemma BaseEntryReady(v: ColourValue, n: int, mode: Mode, format: string, base: seq<ColourValue>, k: int)
    requires PaletteDefined(v, n, mode, format) && mode != Named("mono")
    requires BaseColours(v, n, mode).colours == Success(base) && 0 <= k < |base|
    ensures base[k].WellFormed() && (NeedsHsl(format) ==> base[k].HslComputable())
    ensures n > |base| ==> HslReady(base)
  {
    if mode.ColourList? && NeedsHsl(format) {
      assert Parse(mode.items[k]) == Success(base[k]);
    }
    if n > |base| {
      BaseReady(v, n, mode, base);
    }
  }

  /** The colours a palette of a mode other than mono renders, before slicing. */
  lemma PaletteColours(v: ColourValue, n: int, mode: Mode, format: string, base: seq<ColourValue>)
    returns (cols: seq<ColourValue>)
    requires PaletteDefined(v, n, mode, format) && mode != Named("mono")
    requires BaseColours(v, n, mode).colours == Success(base) && n <= EntriesPerHue * |base|
    ensures n > |base| ==> HslReady(base) && cols == Expanded(base, n)
    ensures n <= |base| ==> cols == base
    ensures Renderable(Slice(cols, n), format)
    ensures Palette(v, n, mode, format).result == RenderAll(Slice(cols, n), format)
  {
    if n > |base| {
      ExpandedRenderable(v, n, mode, format, base);
      cols := Expanded(base, n);
    } else {
      cols := base;
    }
  }

  /**
   * A mono palette of at least two colours: this colour's HSL cache is
   * filled, and the colours are rendered from the darkest to the lightest
   * with this colour among them.
   */
  lemma MonoPalette(v: ColourValue, n: int, format: string)
    requires PaletteDefined(v, n, Named("mono"), format) && 1 < n <= MonoLimit
    ensures var w := v.HslFilled();
      var cols := Slice(MonoColours(w, n), n);
      Ascending(cols) && w in cols &&
      Palette(v, n, Named("mono"), format) == PaletteOutcome(RenderState(w, format), RenderAll(cols, format))
  {
    FillingPreservesGetters(v);
    MonoSliceAscending(v.HslFilled(), n);
  }

  /** The first n mono colours ascend in lightness and include the colour itself. */
  lemma MonoSliceAscending(w: ColourValue, n: int)
    requires w.WellFormed() && w.HasHsl() && 1 < n && MonoTerminates(w.l.value, n)
    ensures var cols := Slice(MonoColours(w, n), n);
      Ascending(cols) && w in cols
  {
    MonoAscending(w, n);
    var all := MonoColours(w, n);
    var cols := Slice(all, n);
    var self := |MonoLoop(w, n, 1, 1, [], []).0|;
    assert cols[self] == all[self] == w;
  }
}
