/** applyErosion (services/utils.ts lines 133-157): in each round, every
    opaque pixel off the image border that has a transparent neighbour
    becomes transparent, the decision being taken on the alpha values at the
    start of the round. */
module Erosion {
  import opened ColorRules
  import opened PixelGrid

  /** Pixel p is off the border: 1 <= x < w - 1 and 1 <= y < h - 1. */
  predicate Interior(w: int, h: int, p: int) {
    w > 0 && 0 <= p < w * h && 1 <= Col(w, p) < w - 1 && 1 <= Row(w, p) < h - 1
  }

  lemma InteriorNeighbours(w: int, h: int, p: int)
    requires Interior(w, h, p)
    ensures 0 <= p - w && p + w < w * h
  {
    AdjacentInRange(w, h, p, p - w);
    AdjacentInRange(w, h, p, p + w);
  }

  function Alpha(d: seq<Channel>, p: int): Channel
    requires 0 <= p && 4 * p + 3 < |d|
  {
    d[4 * p + 3]
  }

  /** Pixel p of image d turns transparent in one round: it is off the
      border, opaque, and one of its four neighbours is transparent. */
  predicate Erodes(d: seq<Channel>, w: int, h: int, p: int) {
    |d| == 4 * (w * h) && Interior(w, h, p) &&
    (InteriorNeighbours(w, h, p);
     Alpha(d, p) > 0 &&
     (Alpha(d, p - 1) == 0 || Alpha(d, p + 1) == 0 || Alpha(d, p - w) == 0 || Alpha(d, p + w) == 0))
  }

  /** One round (lines 137-155). */
  ghost function ErodeOnce(d: seq<Channel>, w: nat, h: nat): seq<Channel> {
    ClearAlpha(d, set p | 0 <= p < w * h && Erodes(d, w, h, p))
  }

  /** `strength` rounds; none when strength <= 0 (line 134). */
  ghost function Erode(d: seq<Channel>, w: nat, h: nat, strength: int): seq<Channel>
    decreases strength
  {
    if strength <= 0 then d else ErodeOnce(Erode(d, w, h, strength - 1), w, h)
  }

  // ---------------------------------------------------------------------------
  // Properties

  /** A round changes only alpha bytes, and only to 0. */
  lemma ErodeOnceOnlyClears(d: seq<Channel>, w: nat, h: nat)
    ensures var e := ErodeOnce(d, w, h);
            |e| == |d| &&
            forall i :: 0 <= i < |d| ==> e[i] == d[i] || (IsAlphaIndex(i) && e[i] == 0)
  {
  }

  /** Any number of rounds keeps every colour byte, never raises an alpha
      value, keeps transparent pixels transparent and leaves the border
      pixels untouched. */
  lemma {:induction false} ErodeOnlyClears(d: seq<Channel>, w: nat, h: nat, strength: int)
    ensures var e := Erode(d, w, h, strength);
            |e| == |d| &&
            (forall i :: 0 <= i < |d| ==> e[i] == d[i] || (IsAlphaIndex(i) && e[i] == 0)) &&
            (forall i :: 0 <= i < |d| && !Interior(w, h, i / 4) ==> e[i] == d[i])
    decreases strength
  {
    if strength > 0 {
      ErodeOnlyClears(d, w, h, strength - 1);
    }
  }

  /** With a strength of 0 or less the image is returned unchanged. */
  lemma NoStrengthNoErosion(d: seq<Channel>, w: nat, h: nat, strength: int)
    requires strength <= 0
    ensures Erode(d, w, h, strength) == d
  {
  }

  /** In a round a pixel turns transparent exactly when it erodes, and
      otherwise keeps its alpha; colour bytes never change. */
  lemma ErodeOnceExact(d: seq<Channel>, w: nat, h: nat, p: int)
    requires |d| == 4 * (w * h) && 0 <= p < w * h
    ensures var e := ErodeOnce(d, w, h);
            |e| == |d| &&
            Alpha(e, p) == (if Erodes(d, w, h, p) then 0 else Alpha(d, p)) &&
            e[4 * p] == d[4 * p] && e[4 * p + 1] == d[4 * p + 1] && e[4 * p + 2] == d[4 * p + 2]
  {
    ColourBytes(p);
  }

  /** The opaque pixels after k + 1 rounds are among those after k rounds. */
  lemma ErodeOpaqueShrinks(d: seq<Channel>, w: nat, h: nat, k: nat, p: int)
    requires |d| == 4 * (w * h) && 0 <= p < w * h
    ensures |Erode(d, w, h, k)| == |d|
    ensures Alpha(Erode(d, w, h, k + 1), p) > 0 ==> Alpha(Erode(d, w, h, k), p) > 0
  {
    ErodeOnlyClears(d, w, h, k);
    ErodeOnceExact(Erode(d, w, h, k), w, h, p);
  }

  /** An opaque pixel whose four neighbours are opaque survives a round,
      and so does every pixel on the border. */
  lemma ErodeOnceKeeps(d: seq<Channel>, w: nat, h: nat, p: int)
    requires |d| == 4 * (w * h) && 0 <= p < w * h
    requires Interior(w, h, p) ==>
               (InteriorNeighbours(w, h, p);
                Alpha(d, p - 1) > 0 && Alpha(d, p + 1) > 0 && Alpha(d, p - w) > 0 && Alpha(d, p + w) > 0)
    ensures Alpha(ErodeOnce(d, w, h), p) == Alpha(d, p)
  {
    assert !Erodes(d, w, h, p);
    assert (4 * p + 3) / 4 == p;
  }

  // ---------------------------------------------------------------------------
  // The round, pixel by pixel

  /** cur is s with the pixels below `bound` (in row-major order) eroded. */
  ghost predicate ErodedBelow(s: seq<Channel>, w: nat, h: nat, bound: int, cur: seq<Channel>) {
    |cur| == |s| &&
    forall i :: 0 <= i < |s| ==> cur[i] == if IsAlphaIndex(i) && i / 4 < bound && Erodes(s, w, h, i / 4) then 0 else s[i]
  }

  /** Moving the bound over pixels that do not erode changes nothing. */
  lemma SkipKept(s: seq<Channel>, w: nat, h: nat, a: int, b: int, cur: seq<Channel>)
    requires ErodedBelow(s, w, h, a, cur) && a <= b
    requires forall p :: a <= p < b ==> !Interior(w, h, p)
    ensures ErodedBelow(s, w, h, b, cur)
  {
  }

  /** Deciding pixel p moves the bound past it. */
  lemma StepPixel(s: seq<Channel>, w: nat, h: nat, p: int, cur: seq<Channel>)
    requires ErodedBelow(s, w, h, p, cur) && 0 <= p && 4 * p + 3 < |s|
    ensures ErodedBelow(s, w, h, p + 1, if Erodes(s, w, h, p) then cur[4 * p + 3 := 0] else cur)
  {
    var next := if Erodes(s, w, h, p) then cur[4 * p + 3 := 0] else cur;
    forall i | 0 <= i < |s|
      ensures next[i] == if IsAlphaIndex(i) && i / 4 < p + 1 && Erodes(s, w, h, i / 4) then 0 else s[i]
    {
      if i / 4 == p {
        assert i / 4 < p + 1;
      }
      if i == 4 * p + 3 {
        assert IsAlphaIndex(i) && i / 4 == p;
      }
    }
  }

  /** The last column of row y and the first column of row y + 1 are border. */
  lemma RowSeam(w: nat, h: nat, y: int, xEnd: int)
    requires 0 <= y && 1 <= xEnd && w - 1 <= xEnd
    ensures forall p :: Offset(w, xEnd, y) <= p < Offset(w, 1, y + 1) ==> !Interior(w, h, p)
  {
    forall p | Offset(w, xEnd, y) <= p < Offset(w, 1, y + 1)
      ensures !Interior(w, h, p)
    {
      if p < Offset(w, 0, y + 1) {
        OffsetCoords(w, p - y * w, y);
      } else if w > 0 {
        assert p == Offset(w, 0, y + 1);
        OffsetCoords(w, 0, y + 1);
      }
    }
  }

  /** Every pixel at or after the start of row y, y >= h - 1, is border. */
  lemma LastRows(w: nat, h: nat, y: int)
    requires y >= 1 && y >= h - 1
    ensures forall p :: Offset(w, 1, y) <= p ==> !Interior(w, h, p)
  {
    forall p | Offset(w, 1, y) <= p && w > 0
      ensures !Interior(w, h, p)
    {
      RowAtLeast(w, p, y);
    }
  }

  /** Row 0 and the first pixel of row 1 are border. */
  lemma FirstRow(w: nat, h: nat)
    ensures forall p :: 0 <= p < Offset(w, 1, 1) ==> !Interior(w, h, p)
  {
    forall p | 0 <= p < Offset(w, 1, 1)
      ensures !Interior(w, h, p)
    {
      if p < w {
        OffsetCoords(w, p, 0);
      } else if w > 0 {
        OffsetCoords(w, 0, 1);
      }
    }
  }

  /** The test of lines 149-151 at an interior (x, y) is Erodes. */
  lemma ErodeDecision(s: seq<Channel>, w: nat, h: nat, x: int, y: int)
    requires |s| == 4 * (w * h) && 1 <= x < w - 1 && 1 <= y < h - 1
    ensures var p := Offset(w, x, y);
            Interior(w, h, p) && 0 <= p - w && p + w < w * h &&
            (Erodes(s, w, h, p) <==>
               Alpha(s, p) > 0 &&
               (Alpha(s, p - 1) == 0 || Alpha(s, p + 1) == 0 || Alpha(s, p - w) == 0 || Alpha(s, p + w) == 0))
  {
    OffsetCoords(w, x, y);
    OffsetInRange(w, h, x, y);
    InteriorNeighbours(w, h, Offset(w, x, y));
  }

  /** With every pixel decided the buffer is the eroded image. */
  lemma AllDecided(s: seq<Channel>, w: nat, h: nat, bound: int, cur: seq<Channel>)
    requires |s| == 4 * (w * h) && ErodedBelow(s, w, h, bound, cur)
    requires forall p :: bound <= p ==> !Interior(w, h, p)
    ensures cur == ErodeOnce(s, w, h)
  {
    var e := ErodeOnce(s, w, h);
    forall i | 0 <= i < |s|
      ensures cur[i] == e[i]
    {
      if i / 4 >= bound {
        assert !Interior(w, h, i / 4);
      }
    }
  }

  /** One round of lines 137-155, on the RGBA buffer of a w x h image. */
  method ErodeRound(data: array<Channel>, w: nat, h: nat)
    requires data.Length == 4 * (w * h)
    modifies data
    ensures data[..] == ErodeOnce(old(data[..]), w, h)
  {
    ghost var s := data[..];
    var currentAlpha := AlphaSnapshot(data, w, h);
    FirstRow(w, h);
    SkipKept(s, w, h, 0, Offset(w, 1, 1), data[..]);
    var y := 1;
    while y < h - 1
      invariant 1 <= y && (h >= 2 ==> y <= h - 1) && data.Length == |s|
      invariant ErodedBelow(s, w, h, Offset(w, 1, y), data[..])
      invariant forall j :: 0 <= j < w * h ==> currentAlpha[j] == Alpha(s, j)
    {
      ErodeRow(data, currentAlpha, s, w, h, y);
      y := y + 1;
    }
    LastRows(w, h, y);
    AllDecided(s, w, h, Offset(w, 1, y), data[..]);
  }

  /** Lines 138-139: a copy of every pixel's alpha. */
  method AlphaSnapshot(data: array<Channel>, w: nat, h: nat) returns (currentAlpha: array<Channel>)
    requires data.Length == 4 * (w * h)
    ensures fresh(currentAlpha) && currentAlpha.Length == w * h
    ensures forall j :: 0 <= j < w * h ==> currentAlpha[j] == Alpha(data[..], j)
  {
    var n := w * h;
    currentAlpha := new Channel[n];
    for i := 0 to n
      invariant forall j :: 0 <= j < i ==> currentAlpha[j] == Alpha(data[..], j)
    {
      currentAlpha[i] := data[i * 4 + 3];
    }
  }

  /** Lines 142-153 for one row y: decide pixels x = 1 .. w - 2 from the
      snapshot. */
  method ErodeRow(data: array<Channel>, currentAlpha: array<Channel>, ghost s: seq<Channel>, w: nat, h: nat, y: int)
    requires data.Length == 4 * (w * h) && |s| == data.Length && currentAlpha.Length == w * h
    requires currentAlpha != data && 1 <= y < h - 1
    requires forall j :: 0 <= j < w * h ==> currentAlpha[j] == Alpha(s, j)
    requires ErodedBelow(s, w, h, Offset(w, 1, y), data[..])
    modifies data
    ensures ErodedBelow(s, w, h, Offset(w, 1, y + 1), data[..])
  {
    var x := 1;
    while x < w - 1
      invariant 1 <= x && (x <= w - 1 || x == 1)
      invariant ErodedBelow(s, w, h, Offset(w, x, y), data[..])
    {
      ErodePixel(data, currentAlpha, s, w, h, x, y);
      x := x + 1;
    }
    assert Offset(w, 1, y + 1) == Offset(w, 0, y) + w + 1;
    RowSeam(w, h, y, x);
    SkipKept(s, w, h, Offset(w, x, y), Offset(w, 1, y + 1), data[..]);
  }

  /** Lines 143-152 for the interior pixel (x, y). */
  method ErodePixel(data: array<Channel>, currentAlpha: array<Channel>, ghost s: seq<Channel>, w: nat, h: nat, x: int, y: int)
    requires data.Length == 4 * (w * h) && |s| == data.Length && currentAlpha.Length == w * h
    requires currentAlpha != data && 1 <= x < w - 1 && 1 <= y < h - 1
    requires forall j :: 0 <= j < w * h ==> currentAlpha[j] == Alpha(s, j)
    requires ErodedBelow(s, w, h, Offset(w, x, y), data[..])
    modifies data
    ensures ErodedBelow(s, w, h, Offset(w, x, y) + 1, data[..])
  {
    var idx := y * w + x;
    ErodeDecision(s, w, h, x, y);
    ghost var cur := data[..];
    StepPixel(s, w, h, idx, cur);
    assert idx == Offset(w, x, y);
    assert currentAlpha[idx] == Alpha(s, idx) && currentAlpha[idx - 1] == Alpha(s, idx - 1) &&
           currentAlpha[idx + 1] == Alpha(s, idx + 1) && currentAlpha[idx - w] == Alpha(s, idx - w) &&
           currentAlpha[idx + w] == Alpha(s, idx + w);
    var erodes := currentAlpha[idx] > 0 &&
       (currentAlpha[idx - 1] == 0 || currentAlpha[idx + 1] == 0 ||
        currentAlpha[idx - w] == 0 || currentAlpha[idx + w] == 0);
    assert erodes == Erodes(s, w, h, idx);
    if erodes {
      data[idx * 4 + 3] := 0;
      assert data[..] == cur[4 * idx + 3 := 0];
    }
  }

  /** applyErosion: `strength` rounds, none when strength <= 0. */
  method ApplyErosion(data: array<Channel>, w: nat, h: nat, strength: int)
    requires data.Length == 4 * (w * h)
    modifies data
    ensures data[..] == Erode(old(data[..]), w, h, strength)
  {
    if strength <= 0 {
      return;
    }
    var k := 0;
    while k < strength
      invariant 0 <= k <= strength
      invariant data[..] == Erode(old(data[..]), w, h, k)
    {
      ErodeRound(data, w, h);
      k := k + 1;
    }
  }
}
