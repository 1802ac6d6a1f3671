/** The hue of isPixelBackgroundHSVHard (services/utils.ts lines 28-32)
    gives the red-max branch the blue sector's offset and the blue-max
    branch none, so reds land near 240 degrees and blues near 0. This
    module holds the standard conversion those lines evidently intend, the
    green-screen rule built on it, and the inputs on which the two rules
    part. */
module ColorFindings {
  import opened ColorRules

  /** The hue of the standard RGB to HSV conversion, in degrees: red at 0,
      green at 120, blue at 240. It agrees with the hue as written whenever
      green is the largest channel. */
  function IntendedHue(p: Rgb): (hue: real)
    ensures 0.0 <= hue < 360.0
    ensures Max3(p.r, p.g, p.b) == p.g ==> hue == Hue(p)
  {
    var max := Max3(p.r, p.g, p.b);
    var delta := (max - Min3(p.r, p.g, p.b)) as real;
    if delta == 0.0 then 0.0
    else if max == p.g then 60.0 * (SignedRatio(p.b - p.r, delta) + 2.0)
    else if max == p.r then WrapHue(60.0 * SignedRatio(p.g - p.b, delta))
    else 60.0 * (SignedRatio(p.r - p.g, delta) + 4.0)
  }

  /** Each sector of the standard hue belongs to the channel that is
      largest: red within 60 degrees of 0, green between 60 and 180, blue
      between 180 and 300. */
  lemma IntendedHueSectors(p: Rgb)
    ensures p.r > p.g && p.r >= p.b ==> IntendedHue(p) <= 60.0 || 300.0 <= IntendedHue(p)
    ensures p.g >= p.r && p.g >= p.b && p.g > Min3(p.r, p.g, p.b) ==> 60.0 <= IntendedHue(p) <= 180.0
    ensures p.b > p.r && p.b > p.g ==> 180.0 <= IntendedHue(p) <= 300.0
  {
  }

  /** The HSV rule with the standard hue. */
  predicate IsPixelBackgroundHsvIntended(p: Rgb, tolerance: real) {
    HsvRule(p, tolerance, IntendedHue(p))
  }

  /** Pure red gets hue 240 (blue) as written, against 0 for the standard
      conversion; pure blue gets 0 against 240. */
  lemma AsWrittenSwapsRedAndBlue()
    ensures Hue(Rgb(255, 0, 0)) == 240.0 && IntendedHue(Rgb(255, 0, 0)) == 0.0
    ensures Hue(Rgb(0, 0, 255)) == 0.0 && IntendedHue(Rgb(0, 0, 255)) == 240.0
  {
  }

  /** At tolerance 100 the pinkish (200, 150, 195) passes the green-screen
      test as written (hue 186) but not with the standard hue (306). */
  lemma AsWrittenKeysOutPink()
    ensures IsPixelBackgroundHsv(Rgb(200, 150, 195), 100.0)
    ensures !IsPixelBackgroundHsvIntended(Rgb(200, 150, 195), 100.0)
  {
    var p := Rgb(200, 150, 195);
    assert Hue(p) == 186.0;
    assert IntendedHue(p) == 306.0;
  }

  /** At the worker's default tolerance 20 the yellow (200, 199, 0) is kept
      as written (hue 299.7) but would be keyed out with the standard hue
      (59.7). */
  lemma AsWrittenKeepsYellowAtDefault()
    ensures !IsPixelBackgroundHsv(Rgb(200, 199, 0), 20.0)
    ensures IsPixelBackgroundHsvIntended(Rgb(200, 199, 0), 20.0)
  {
    var p := Rgb(200, 199, 0);
    assert Hue(p) == 299.7;
    assert IntendedHue(p) == 59.7;
  }

  /** Up to tolerance 200/11 a pixel that passes the purity test has its
      green channel as the strict maximum. */
  lemma PureGreenLeads(p: Rgb, tolerance: real)
    requires tolerance <= 200.0 / 11.0 && GreenPure(p, tolerance)
    ensures p.g > p.r && p.g > p.b && Max3(p.r, p.g, p.b) == p.g
  {
    var m := PurityMultiplier(tolerance);
    PurityAtLeastOne(tolerance);
    BeatsScaled(p.g as real, p.r as real, m);
    BeatsScaled(p.g as real, p.b as real, m);
  }

  lemma PurityAtLeastOne(tolerance: real)
    requires tolerance <= 200.0 / 11.0
    ensures PurityMultiplier(tolerance) >= 1.0
  {
    var x := tolerance / 100.0 * 0.5;
    assert x * 200.0 == tolerance;
  }

  lemma BeatsScaled(g: real, r: real, m: real)
    requires r >= 0.0 && m >= 1.0 && g > r * m
    ensures g > r
  {
    ScaleMonotone(r, m, 1.0);
  }

  /** Up to tolerance 200/11 the purity multiplier is at least 1, so only
      pixels whose green channel is the strict maximum get past the purity
      test, and for those both hues coincide: the two rules agree. This
      covers the tolerance 18 the green-screen pipeline passes. */
  lemma AsWrittenAgreesUpToPurityOne(p: Rgb, tolerance: real)
    requires tolerance <= 200.0 / 11.0
    ensures IsPixelBackgroundHsv(p, tolerance) == IsPixelBackgroundHsvIntended(p, tolerance)
  {
    if GreenPure(p, tolerance) {
      PureGreenLeads(p, tolerance);
      assert IntendedHue(p) == Hue(p);
    }
  }
}
