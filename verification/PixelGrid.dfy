/** A w x h RGBA image as the ImageData of the canvas API lays it out: pixel
    (x, y) has offset y * w + x, and its red, green, blue and alpha bytes sit
    at 4 * offset .. 4 * offset + 3. */
module PixelGrid {
  import opened ColorRules

  function Offset(w: int, x: int, y: int): int { y * w + x }

  predicate InGrid(w: int, h: int, x: int, y: int) { 0 <= x < w && 0 <= y < h }

  lemma OffsetInRange(w: int, h: int, x: int, y: int)
    requires InGrid(w, h, x, y)
    ensures 0 <= Offset(w, x, y) < w * h
  {
    assert 0 <= y * w <= (h - 1) * w;
    assert (h - 1) * w + w == h * w;
  }

  lemma MulSign(d: int, w: int)
    requires w > 0
    ensures d >= 1 ==> d * w >= w
    ensures d <= -1 ==> d * w <= -w
  {
  }

  /** The column `offset % w` of an offset, by repeated subtraction. */
  function Col(w: int, p: int): int
    requires w > 0 && p >= 0
    decreases p
  {
    if p < w then p else Col(w, p - w)
  }

  /** The row `Math.floor(offset / w)` of an offset, by repeated subtraction. */
  function Row(w: int, p: int): int
    requires w > 0 && p >= 0
    decreases p
  {
    if p < w then 0 else 1 + Row(w, p - w)
  }

  /** Column and row split an offset: p == Row * w + Col with 0 <= Col < w. */
  lemma {:induction false} ColRowSplit(w: int, p: int)
    requires w > 0 && p >= 0
    ensures p == Offset(w, Col(w, p), Row(w, p)) && 0 <= Col(w, p) < w && 0 <= Row(w, p)
    decreases p
  {
    if p >= w {
      ColRowSplit(w, p - w);
      assert (Row(w, p - w) + 1) * w == Row(w, p - w) * w + w;
    }
  }

  /** They are JavaScript's `%` and floored `/` on non-negative operands. */
  lemma ColRowAreModDiv(w: int, p: int)
    requires w > 0 && p >= 0
    ensures Col(w, p) == p % w && Row(w, p) == p / w
  {
    ColRowSplit(w, p);
    DivModUnique(w, Col(w, p), Row(w, p));
  }

  lemma DivModUnique(w: int, x: int, y: int)
    requires 0 <= x < w && 0 <= y
    ensures Offset(w, x, y) % w == x && Offset(w, x, y) / w == y
  {
    var p := Offset(w, x, y);
    var q, r := p / w, p % w;
    assert p == q * w + r;
    assert (q - y) * w == x - r;
    MulSign(q - y, w);
  }

  /** Column and row recover the coordinates of an offset. */
  lemma OffsetCoords(w: int, x: int, y: int)
    requires 0 <= x < w && 0 <= y
    ensures Offset(w, x, y) >= 0 && Col(w, Offset(w, x, y)) == x && Row(w, Offset(w, x, y)) == y
  {
    DivModUnique(w, x, y);
    assert y * w >= 0;
    ColRowAreModDiv(w, Offset(w, x, y));
  }

  /** Every offset of the image is the offset of its coordinates. */
  lemma CoordsOfOffset(w: int, h: int, p: int)
    requires 0 <= p < w * h && 0 <= w
    ensures w > 0 && InGrid(w, h, Col(w, p), Row(w, p)) && Offset(w, Col(w, p), Row(w, p)) == p
  {
    assert w != 0;
    ColRowSplit(w, p);
    var y := Row(w, p);
    assert y * w == (y - h + 1) * w + (h - 1) * w;
    MulSign(y - h + 1, w);
  }

  /** An offset at or past the start of row y lies in row y or below. */
  lemma RowAtLeast(w: int, p: int, y: int)
    requires w > 0 && p >= 0 && p >= Offset(w, 0, y)
    ensures Row(w, p) >= y
  {
    ColRowSplit(w, p);
    var r := Row(w, p);
    assert y * w == (y - r) * w + r * w;
    MulSign(y - r, w);
  }

  /** q is one of the four neighbours of p that the fill pushes: left when
      x > 0, right when x < w - 1, up when y > 0, down when y < h - 1. */
  predicate Adjacent(w: int, h: int, p: int, q: int) {
    w > 0 && 0 <= p < w * h &&
    ((Col(w, p) > 0 && q == p - 1) || (Col(w, p) < w - 1 && q == p + 1) ||
     (Row(w, p) > 0 && q == p - w) || (Row(w, p) < h - 1 && q == p + w))
  }

  lemma AdjacentInRange(w: int, h: int, p: int, q: int)
    requires Adjacent(w, h, p, q)
    ensures 0 <= q < w * h
  {
    var x, y := Col(w, p), Row(w, p);
    CoordsOfOffset(w, h, p);
    if q == p - 1 && x > 0 {
      assert q == Offset(w, x - 1, y);
      OffsetInRange(w, h, x - 1, y);
    } else if q == p + 1 && x < w - 1 {
      assert q == Offset(w, x + 1, y);
      OffsetInRange(w, h, x + 1, y);
    } else if q == p - w && y > 0 {
      assert q == Offset(w, x, y - 1);
      OffsetInRange(w, h, x, y - 1);
    } else {
      assert q == Offset(w, x, y + 1);
      OffsetInRange(w, h, x, y + 1);
    }
  }

  /** The colour of pixel p. */
  function PixelRgb(d: seq<Channel>, p: int): Rgb
    requires 0 <= p && 4 * p + 2 < |d|
  {
    Rgb(d[4 * p], d[4 * p + 1], d[4 * p + 2])
  }

  predicate IsAlphaIndex(i: int) { i % 4 == 3 }

  /** Bytes 4q .. 4q + 2 are colour, byte 4q + 3 is pixel q's alpha. */
  lemma ColourBytes(q: int)
    ensures !IsAlphaIndex(4 * q) && !IsAlphaIndex(4 * q + 1) && !IsAlphaIndex(4 * q + 2)
    ensures IsAlphaIndex(4 * q + 3) && (4 * q + 3) / 4 == q
  {
  }

  /** The image with the alpha byte of every pixel in `cleared` set to 0. */
  function ClearAlpha(d: seq<Channel>, cleared: set<int>): (e: seq<Channel>)
    ensures |e| == |d|
    ensures forall i :: 0 <= i < |d| ==> e[i] == if IsAlphaIndex(i) && i / 4 in cleared then 0 else d[i]
  {
    seq(|d|, i requires 0 <= i < |d| => if IsAlphaIndex(i) && i / 4 in cleared then 0 else d[i])
  }
}
