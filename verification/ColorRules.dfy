/** The pixel classifiers of the background-removal worker: the RGB distance
    to a target colour, the six-digit #RRGGBB form of CSS Color Module Level 4
    (section 5.2), and the HSV rule used for green screens. JavaScript numbers
    are modelled as reals; channels are the bytes 0..255 of an RGBA buffer. */
module ColorRules {
  import opened Wrappers
  import opened JsText

  type Channel = x: int | 0 <= x < 256

  datatype Rgb = Rgb(r: Channel, g: Channel, b: Channel)

  const Black: Rgb := Rgb(0, 0, 0)

  // ---------------------------------------------------------------------------
  // colorDistance (services/utils.ts lines 9-11)

  /** The squared Euclidean distance between two colours. */
  function SqDistance(p: Rgb, q: Rgb): int {
    (p.r - q.r) * (p.r - q.r) + (p.g - q.g) * (p.g - q.g) + (p.b - q.b) * (p.b - q.b)
  }

  /** The distance is symmetric, never negative, and zero exactly on equal colours. */
  lemma SqDistanceFacts(p: Rgb, q: Rgb)
    ensures SqDistance(p, q) == SqDistance(q, p)
    ensures SqDistance(p, q) >= 0
    ensures SqDistance(p, q) == 0 <==> p == q
  {
    var dr, dg, db := p.r - q.r, p.g - q.g, p.b - q.b;
    assert dr * dr >= 0 && dg * dg >= 0 && db * db >= 0;
    if SqDistance(p, q) == 0 {
      assert dr * dr == 0 && dg * dg == 0 && db * db == 0;
    }
  }

  /** `colorDistance(p, q) <= limit`, decided on squares: Math.sqrt is never
      negative, so a negative limit is never met. */
  predicate WithinDistance(p: Rgb, q: Rgb, limit: real) {
    limit >= 0.0 && SqDistance(p, q) as real <= limit * limit
  }

  /** For the true distance d (d >= 0, d * d the squared distance), comparing
      d with the limit decides the same as WithinDistance. */
  lemma WithinDistanceMatchesSqrt(p: Rgb, q: Rgb, limit: real, d: real)
    requires d >= 0.0 && d * d == SqDistance(p, q) as real
    ensures d <= limit <==> WithinDistance(p, q, limit)
  {
    if d <= limit {
      SquareMonotone(d, limit);
    } else if limit >= 0.0 {
      SquareStrict(limit, d);
    }
  }

  lemma SquareMonotone(a: real, b: real)
    requires 0.0 <= a <= b
    ensures a * a <= b * b
  {
    assert a * a <= a * b;
  }

  lemma SquareStrict(a: real, b: real)
    requires 0.0 <= a < b
    ensures a * a < b * b
  {
    var d := b - a;
    assert b * b == a * a + 2.0 * a * d + d * d;
    assert a * d >= 0.0;
    assert d * d > 0.0;
  }

  // ---------------------------------------------------------------------------
  // hexToRgb (lines 13-20)

  predicate IsHexDigit(c: char) {
    '0' <= c <= '9' || 'a' <= c <= 'f' || 'A' <= c <= 'F'
  }

  function HexValue(c: char): (v: nat)
    requires IsHexDigit(c)
    ensures v < 16
  {
    if '0' <= c <= '9' then c as int - '0' as int
    else if 'a' <= c <= 'f' then c as int - 'a' as int + 10
    else c as int - 'A' as int + 10
  }

  /** parseInt of two hexadecimal digits. */
  function HexByte(hi: char, lo: char): Channel
    requires IsHexDigit(hi) && IsHexDigit(lo)
  {
    16 * HexValue(hi) + HexValue(lo)
  }

  predicate AllHex(s: string) {
    forall i :: 0 <= i < |s| ==> IsHexDigit(s[i])
  }

  /** The text after the optional leading '#'. */
  function HexBody(hex: string): string {
    if |hex| > 0 && hex[0] == '#' then hex[1..] else hex
  }

  /** `/^#?([a-f\d]{2})([a-f\d]{2})([a-f\d]{2})$/i`: an optional '#', then
      exactly six hexadecimal digits of either case; each pair is a channel. */
  function HexToRgb(hex: string): (c: Option<Rgb>)
    ensures c.Some? <==> (|hex| == 6 && AllHex(hex)) || (|hex| == 7 && hex[0] == '#' && AllHex(hex[1..]))
  {
    var body := HexBody(hex);
    if |body| == 6 && AllHex(body) then
      Some(Rgb(HexByte(body[0], body[1]), HexByte(body[2], body[3]), HexByte(body[4], body[5])))
    else None
  }

  function LowerHexDigit(v: nat): (c: char)
    requires v < 16
    ensures IsHexDigit(c) && HexValue(c) == v
  {
    if v < 10 then ('0' as int + v) as char else ('a' as int + v - 10) as char
  }

  function LowerHexByte(v: Channel): string {
    [LowerHexDigit(v / 16), LowerHexDigit(v % 16)]
  }

  /** The canonical lower-case #rrggbb spelling of a colour. */
  function RgbToHex(c: Rgb): (hex: string)
    ensures |hex| == 7 && hex[0] == '#'
  {
    "#" + LowerHexByte(c.r) + LowerHexByte(c.g) + LowerHexByte(c.b)
  }

  /** Every colour parses back from its canonical spelling. */
  lemma HexRoundTrip(c: Rgb)
    ensures HexToRgb(RgbToHex(c)) == Some(c)
  {
    var hex := RgbToHex(c);
    assert HexBody(hex) == LowerHexByte(c.r) + LowerHexByte(c.g) + LowerHexByte(c.b);
  }

  /** Parsing keeps everything but the '#' and the letter case: the parsed
      colour's canonical spelling is the lower-cased digits. */
  lemma HexToRgbCanonical(hex: string)
    requires HexToRgb(hex).Some?
    ensures RgbToHex(HexToRgb(hex).value) == "#" + ToLowerAscii(HexBody(hex))
  {
    var body := HexBody(hex);
    HexByteCanonical(body[0], body[1]);
    HexByteCanonical(body[2], body[3]);
    HexByteCanonical(body[4], body[5]);
    assert body == [body[0], body[1]] + [body[2], body[3]] + [body[4], body[5]];
    LowerConcat([body[0], body[1]] + [body[2], body[3]], [body[4], body[5]]);
    LowerConcat([body[0], body[1]], [body[2], body[3]]);
  }

  lemma HexByteCanonical(hi: char, lo: char)
    requires IsHexDigit(hi) && IsHexDigit(lo)
    ensures LowerHexByte(HexByte(hi, lo)) == ToLowerAscii([hi, lo])
  {
    var v := HexByte(hi, lo);
    assert v / 16 == HexValue(hi) && v % 16 == HexValue(lo);
  }

  lemma LowerConcat(a: string, b: string)
    ensures ToLowerAscii(a + b) == ToLowerAscii(a) + ToLowerAscii(b)
  {
  }

  // ---------------------------------------------------------------------------
  // isPixelBackgroundHSVHard (lines 23-66)

  function Max3(r: int, g: int, b: int): int {
    if r >= g && r >= b then r else if g >= b then g else b
  }

  function Min3(r: int, g: int, b: int): int {
    if r <= g && r <= b then r else if g <= b then g else b
  }

  /** The hue of lines 24-32, in degrees, exactly as written: the green
      branch is that of the standard RGB to HSV conversion, but the red
      branch adds the offset 4 and the blue branch none, so the red and blue
      sectors are exchanged (ColorFindings.IntendedHue is the standard hue).
      A negative hue is wrapped once by adding 360. */
  function Hue(p: Rgb): (hue: real)
    ensures 0.0 <= hue < 360.0
  {
    var max := Max3(p.r, p.g, p.b);
    var delta := (max - Min3(p.r, p.g, p.b)) as real;
    var raw :=
      if delta == 0.0 then 0.0
      else if max == p.g then 60.0 * (SignedRatio(p.b - p.r, delta) + 2.0)
      else if max == p.r then 60.0 * (SignedRatio(p.g - p.b, delta) + 4.0)
      else 60.0 * SignedRatio(p.r - p.g, delta);
    WrapHue(raw)
  }

  /** `x / delta` for a difference of two channels no larger than delta. */
  function SignedRatio(x: int, delta: real): (q: real)
    requires delta > 0.0
    ensures -1.0 <= q <= 1.0 || !(-delta <= x as real <= delta)
    ensures q * delta == x as real
  {
    var q := x as real / delta;
    if -delta <= x as real <= delta then
      RatioBounds(x as real, delta);
      q
    else q
  }

  lemma RatioBounds(x: real, delta: real)
    requires delta > 0.0 && -delta <= x <= delta
    ensures -1.0 <= x / delta <= 1.0
  {
    var q := x / delta;
    assert (1.0 - q) * delta == delta - x;
    assert (1.0 + q) * delta == delta + x;
  }

  /** `if (hue < 0) hue += 360`. */
  function WrapHue(h: real): real {
    if h < 0.0 then h + 360.0 else h
  }

  /** The sectors of the hue as written: a grey pixel has hue 0, green as
      the largest channel gives 60 to 180 degrees, red as the strict largest
      gives 180 to 300 (the blue sector of the standard conversion), and blue
      as the strict largest gives the red sector, within 60 degrees of 0. */
  lemma HueSectors(p: Rgb)
    ensures p.r == p.g == p.b ==> Hue(p) == 0.0
    ensures p.g >= p.r && p.g >= p.b && p.g > Min3(p.r, p.g, p.b) ==> 60.0 <= Hue(p) <= 180.0
    ensures p.r > p.g && p.r >= p.b ==> 180.0 <= Hue(p) <= 300.0
    ensures p.b > p.r && p.b > p.g ==> Hue(p) <= 60.0 || 300.0 <= Hue(p)
  {
  }

  function Saturation(p: Rgb): real {
    var max := Max3(p.r, p.g, p.b);
    if max == 0 then 0.0 else (max - Min3(p.r, p.g, p.b)) as real / max as real
  }

  function Value(p: Rgb): real {
    Max3(p.r, p.g, p.b) as real / 255.0
  }

  function RealMax(a: real, b: real): real { if a < b then b else a }

  /** 1.1 * (1 - tolerance / 200): the green channel must beat the others by
      this factor; the higher the tolerance, the weaker the demand. */
  function PurityMultiplier(tolerance: real): real {
    1.1 * (1.0 - tolerance / 100.0 * 0.5)
  }

  predicate GreenPure(p: Rgb, tolerance: real) {
    var m := PurityMultiplier(tolerance);
    p.g as real > p.r as real * m && p.g as real > p.b as real * m
  }

  predicate GreenHue(hue: real) {
    50.0 <= hue <= 190.0
  }

  function MinSaturation(tolerance: real): real {
    RealMax(0.1, 0.4 * (1.0 - tolerance / 100.0))
  }

  function MinValue(tolerance: real): real {
    RealMax(0.1, 0.3 * (1.0 - tolerance / 100.0))
  }

  predicate DominantGreen(p: Rgb) {
    p.g > p.r + 20 && p.g > p.b + 20 && p.g > 60
  }

  /** The rule of lines 41-65 for a pixel whose hue is given. */
  predicate HsvRule(p: Rgb, tolerance: real, hue: real) {
    GreenPure(p, tolerance) &&
    ((GreenHue(hue) && Saturation(p) >= MinSaturation(tolerance) && Value(p) >= MinValue(tolerance)) ||
     DominantGreen(p))
  }

  predicate IsPixelBackgroundHsv(p: Rgb, tolerance: real) {
    HsvRule(p, tolerance, Hue(p))
  }

  /** A pixel is background only if its green channel passes the purity
      test, and given that test it is background whenever green leads both
      other channels by more than 20 and exceeds 60. */
  lemma HsvRuleShape(p: Rgb, tolerance: real)
    ensures IsPixelBackgroundHsv(p, tolerance) ==> GreenPure(p, tolerance)
    ensures GreenPure(p, tolerance) && DominantGreen(p) ==> IsPixelBackgroundHsv(p, tolerance)
  {
  }

  /** A grey pixel (r == g == b) is never background, whatever the tolerance. */
  lemma GreyIsNeverBackground(p: Rgb, tolerance: real)
    requires p.r == p.g == p.b
    ensures !IsPixelBackgroundHsv(p, tolerance)
  {
    assert Hue(p) == 0.0;
  }

  lemma ScaleMonotone(x: real, m1: real, m2: real)
    requires x >= 0.0 && m2 <= m1
    ensures x * m2 <= x * m1
  {
    assert x * m1 - x * m2 == x * (m1 - m2);
  }

  /** Raising the tolerance never turns a background pixel into foreground. */
  lemma HsvMonotoneInTolerance(p: Rgb, t1: real, t2: real, hue: real)
    requires t1 <= t2 && HsvRule(p, t1, hue)
    ensures HsvRule(p, t2, hue)
  {
    ScaleMonotone(p.r as real, PurityMultiplier(t1), PurityMultiplier(t2));
    ScaleMonotone(p.b as real, PurityMultiplier(t1), PurityMultiplier(t2));
  }

  // ---------------------------------------------------------------------------
  // The classifier removeBgFloodFill builds (lines 71-83)

  const GreenScreenHex: string := "#00ff00"
  const MaxDistance: real := 442.0

  datatype Classifier = GreenScreen(tolerance: real) | NearColor(target: Rgb, limit: real)

  /** The HSV rule when the target lower-cases to #00ff00; otherwise the
      distance to the parsed target (black when it does not parse), against
      442 * tolerance / 100. */
  function ClassifierFor(targetHex: string, tolerance: real): Classifier {
    if ToLowerAscii(targetHex) == GreenScreenHex then GreenScreen(tolerance)
    else
      var target := match HexToRgb(targetHex) case Some(c) => c case None => Black;
      NearColor(target, MaxDistance * (tolerance / 100.0))
  }

  predicate IsBackground(c: Classifier, p: Rgb) {
    match c
    case GreenScreen(tolerance) => IsPixelBackgroundHsv(p, tolerance)
    case NearColor(target, limit) => WithinDistance(p, target, limit)
  }

  /** The HSV rule decides exactly when the target is #00ff00 in any letter
      case; otherwise a pixel is background iff its true distance to the
      target colour (black if the target does not parse) is at most
      442 * tolerance / 100. */
  lemma ClassifierChoice(targetHex: string, tolerance: real, p: Rgb, d: real)
    ensures ClassifierFor(targetHex, tolerance).GreenScreen? <==> ToLowerAscii(targetHex) == GreenScreenHex
    ensures ToLowerAscii(targetHex) == GreenScreenHex ==>
              (IsBackground(ClassifierFor(targetHex, tolerance), p) <==> IsPixelBackgroundHsv(p, tolerance))
    ensures var target := if HexToRgb(targetHex).Some? then HexToRgb(targetHex).value else Black;
            ToLowerAscii(targetHex) != GreenScreenHex && d >= 0.0 && d * d == SqDistance(p, target) as real ==>
              (IsBackground(ClassifierFor(targetHex, tolerance), p) <==> d <= MaxDistance * (tolerance / 100.0))
  {
    var target := if HexToRgb(targetHex).Some? then HexToRgb(targetHex).value else Black;
    if d >= 0.0 && d * d == SqDistance(p, target) as real {
      WithinDistanceMatchesSqrt(p, target, MaxDistance * (tolerance / 100.0), d);
    }
  }

  /** Raising the tolerance never shrinks the background, for either rule. */
  lemma ClassifierMonotoneInTolerance(targetHex: string, t1: real, t2: real, p: Rgb)
    requires t1 <= t2 && IsBackground(ClassifierFor(targetHex, t1), p)
    ensures IsBackground(ClassifierFor(targetHex, t2), p)
  {
    if ToLowerAscii(targetHex) == GreenScreenHex {
      HsvMonotoneInTolerance(p, t1, t2, Hue(p));
    } else {
      var l1 := MaxDistance * (t1 / 100.0);
      var l2 := MaxDistance * (t2 / 100.0);
      assert 0.0 <= l1 <= l2;
      assert l1 * l1 <= l1 * l2 <= l2 * l2;
    }
  }
}
