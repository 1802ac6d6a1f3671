/** The worker's message handler (services/utils.ts lines 160-177): the
    flood fill always runs, with a missing target colour or tolerance
    replaced by its default, and the erosion runs only for a positive
    strength. The image is handed over as its RGBA buffer and is changed in
    place; posting it back is message plumbing and is not modelled. */
module Worker {
  import opened Wrappers
  import opened JsText
  import opened ColorRules
  import opened PixelGrid
  import opened FloodFill
  import opened Erosion

  const DefaultTolerance: real := 20.0

  /** `targetColorHex || '#00ff00'`: an absent or empty colour string is
      falsy and becomes pure green; any other string is kept. */
  function EffectiveHex(targetColorHex: Option<string>): (hex: string)
    ensures hex != ""
    ensures targetColorHex.Some? && targetColorHex.value != "" ==> hex == targetColorHex.value
    ensures targetColorHex.None? || targetColorHex.value == "" ==> hex == GreenScreenHex
  {
    match targetColorHex
    case Some(s) => if s != "" then s else GreenScreenHex
    case None => GreenScreenHex
  }

  /** `colorTolerance || 20`: an absent tolerance or a tolerance of 0 is
      falsy and becomes 20. */
  function EffectiveTolerance(colorTolerance: Option<real>): (t: real)
    ensures t != 0.0
    ensures colorTolerance.Some? && colorTolerance.value != 0.0 ==> t == colorTolerance.value
    ensures colorTolerance.None? || colorTolerance.value == 0.0 ==> t == DefaultTolerance
  {
    match colorTolerance
    case Some(t) => if t != 0.0 then t else DefaultTolerance
    case None => DefaultTolerance
  }

  /** The buffer the handler posts back. */
  ghost function Processed(d: seq<Channel>, w: nat, h: nat, targetColorHex: Option<string>,
                           colorTolerance: Option<real>, erodeStrength: int): seq<Channel>
  {
    var isBg := BackgroundTest(EffectiveHex(targetColorHex), EffectiveTolerance(colorTolerance));
    var flooded := FloodResult(isBg, d, w, h);
    if erodeStrength > 0 then Erode(flooded, w, h, erodeStrength) else flooded
  }

  /** self.onmessage, from the buffer on. */
  method OnMessage(data: array<Channel>, w: nat, h: nat, targetColorHex: Option<string>,
                   colorTolerance: Option<real>, erodeStrength: int)
    requires data.Length == 4 * (w * h)
    modifies data
    ensures data[..] == Processed(old(data[..]), w, h, targetColorHex, colorTolerance, erodeStrength)
  {
    RemoveBgFloodFill(data, w, h, EffectiveHex(targetColorHex), EffectiveTolerance(colorTolerance));
    if erodeStrength > 0 {
      ApplyErosion(data, w, h, erodeStrength);
    }
  }

  /** The handler never changes a colour byte and never raises an alpha
      value: every byte is kept or is an alpha byte set to 0. Border pixels
      only lose alpha through the flood fill, and a pixel the flood fill
      does not reach is changed only by erosion, which touches interior
      pixels only. */
  lemma ProcessedOnlyClears(d: seq<Channel>, w: nat, h: nat, targetColorHex: Option<string>,
                            colorTolerance: Option<real>, erodeStrength: int)
    requires |d| == 4 * (w * h)
    ensures var e := Processed(d, w, h, targetColorHex, colorTolerance, erodeStrength);
            var isBg := BackgroundTest(EffectiveHex(targetColorHex), EffectiveTolerance(colorTolerance));
            |e| == |d| &&
            (forall i :: 0 <= i < |d| ==> e[i] == d[i] || (IsAlphaIndex(i) && e[i] == 0)) &&
            (forall i :: 0 <= i < |d| && i / 4 !in Flooded(isBg, d, w, h) && !Interior(w, h, i / 4) ==> e[i] == d[i])
  {
    var isBg := BackgroundTest(EffectiveHex(targetColorHex), EffectiveTolerance(colorTolerance));
    var flooded := FloodResult(isBg, d, w, h);
    ErodeOnlyClears(flooded, w, h, erodeStrength);
  }

  /** Without a colour or tolerance the handler keys out the green screen
      with the HSV rule at tolerance 20, and the call the pipeline makes
      ('#00FF00' at tolerance 18) selects the HSV rule as well. */
  lemma DefaultsSelectGreenScreen()
    ensures ClassifierFor(EffectiveHex(None), EffectiveTolerance(None)) == GreenScreen(20.0)
    ensures ClassifierFor(EffectiveHex(Some("")), EffectiveTolerance(Some(0.0))) == GreenScreen(20.0)
    ensures ClassifierFor(EffectiveHex(Some("#00FF00")), EffectiveTolerance(Some(18.0))) == GreenScreen(18.0)
  {
    assert ToLowerAscii("#00FF00") == GreenScreenHex;
    assert ToLowerAscii(GreenScreenHex) == GreenScreenHex;
  }
}
