/** Sequential dynamic grid slicing of a sticker sheet (processGreenScreenAndSlice).

    OpenCV turns the sheet into a binary foreground mask; the slicer then walks
    the sheet row by row. For every row but the last it looks for the bottom cut
    in a window of +/-25% of the average row height around the expected
    boundary, taking the first line without foreground or else the earliest line
    with the fewest foreground pixels. Inside each settled row it does the same
    for the columns. A span of 10 pixels or less is skipped. A row's region is
    clamped to the image, but its cells are asked for the row's height before
    clamping; a region or column that OpenCV rejects fails the whole slice.
    Each remaining cell is trimmed to the union of its contour boxes (boxes
    under 5x5 are noise) and fitted, aspect ratio kept, into the centre of a
    targetW x targetH canvas with a 2-pixel margin.

    The mask is `mask[y][x]`, true for foreground. The contour boxes that
    `cv.findContours` would report for a cell are supplied by `Sheet.contours`,
    relative to the cell. A produced sticker is described by its grid position,
    its cell, its crop in sheet coordinates and the rectangle it is drawn into. */
module GridSlicer {
  import opened Wrappers

  /** A pixel rectangle, as OpenCV's cv.Rect. */
  datatype Rect = Rect(x: int, y: int, w: int, h: int)

  /** The rectangle of the output canvas that a trimmed cell is drawn into. */
  datatype DrawRect = DrawRect(x: real, y: real, w: real, h: real)

  datatype Sticker = Sticker(row: nat, col: nat, cell: Rect, crop: Rect, draw: DrawRect)

  /** OpenCV rejects a region of interest or a column that leaves its
      matrix; the source lets that exception reject the whole call. */
  datatype SliceError = RowRoiOutOfImage(row: nat) | ColumnOutOfRow(row: nat, col: nat) | CellRoiOutOfImage(row: nat, col: nat)

  /** The cleaned mask of one sheet and the contour boxes found in any cell of it. */
  datatype Sheet = Sheet(mask: seq<seq<bool>>, width: nat, contours: Rect -> seq<Rect>)
  {
    predicate Valid() {
      forall y :: 0 <= y < |mask| ==> |mask[y]| == width
    }
  }

  datatype Layout = Layout(rows: nat, cols: nat, targetW: int, targetH: int)

  const Padding: int := 2
  const MinSpan: int := 10
  const MinContourSide: int := 5
  const SearchFraction: real := 0.25

  function Max(a: int, b: int): int { if a < b then b else a }
  function Min(a: int, b: int): int { if a < b then a else b }

  // ---------------------------------------------------------------------------
  // Foreground counts (cv.countNonZero on one mask line)

  function CountTrue(s: seq<bool>): (n: nat)
    ensures n <= |s|
  {
    if s == [] then 0 else (if s[0] then 1 else 0) + CountTrue(s[1..])
  }

  function CountColumn(lines: seq<seq<bool>>, x: nat): (n: nat)
    requires forall y :: 0 <= y < |lines| ==> x < |lines[y]|
    ensures n <= |lines|
  {
    if lines == [] then 0 else (if lines[0][x] then 1 else 0) + CountColumn(lines[1..], x)
  }

  /** Foreground pixels on every horizontal line of the sheet. */
  function RowCounts(mask: seq<seq<bool>>): (c: seq<nat>)
    ensures |c| == |mask|
  {
    seq(|mask|, y requires 0 <= y < |mask| => CountTrue(mask[y]))
  }

  /** Foreground pixels on every vertical line of the band of lines [y0, y1). */
  function ColCounts(sheet: Sheet, y0: nat, y1: nat): (c: seq<nat>)
    requires sheet.Valid() && y0 <= y1 <= |sheet.mask|
    ensures |c| == sheet.width
  {
    seq(sheet.width, x requires 0 <= x < sheet.width => CountColumn(sheet.mask[y0..y1], x))
  }

  // ---------------------------------------------------------------------------
  // Choice of one cut

  /** `k` is the earliest position of the minimum of `counts`; when a zero
      exists, that is the first zero. */
  predicate IsEarliestMin(counts: seq<nat>, k: int) {
    0 <= k < |counts| &&
    (forall j :: 0 <= j < |counts| ==> counts[k] <= counts[j]) &&
    (forall j :: 0 <= j < k ==> counts[k] < counts[j])
  }

  function EarliestMin(counts: seq<nat>): (k: nat)
    requires |counts| > 0
    ensures IsEarliestMin(counts, k)
  {
    if |counts| == 1 then 0
    else
      var k' := EarliestMin(counts[..|counts| - 1]);
      if counts[|counts| - 1] < counts[k'] then |counts| - 1 else k'
  }

  lemma EarliestMinUnique(counts: seq<nat>, k1: int, k2: int)
    requires IsEarliestMin(counts, k1) && IsEarliestMin(counts, k2)
    ensures k1 == k2
  {
    assert counts[k1] == counts[k2];
  }

  /** The search geometry along one axis with `parts` cells over `total`
      pixels: with avg = total / parts, the window starts floor(0.75 avg) and
      ends floor(1.25 avg) after the cursor, and floor(avg) is the fallback. */
  datatype Axis = Axis(near: nat, mid: nat, far: nat)

  function MakeAxis(total: nat, parts: nat): Axis
    requires parts > 0
  {
    Axis(Quotient(3 * total, 4 * parts), Quotient(total, parts), Quotient(5 * total, 4 * parts))
  }

  function Quotient(n: nat, d: nat): nat
    requires d > 0
  {
    n / d
  }

  lemma ScaleByPositive(a: real, b: real)
    requires b > 0.0
    ensures 0.0 <= a * b < b <==> 0.0 <= a < 1.0
  {
    if a < 0.0 {
      assert a * b < 0.0;
    } else if a >= 1.0 {
      assert a * b >= 1.0 * b;
    }
  }
  lemma FloorOfQuotient(n: nat, d: nat)
    requires d > 0
    ensures (n as real / d as real).Floor == Quotient(n, d)
  {
    var q, r := n / d, n % d;
    var x := n as real / d as real;
    var dr := d as real;
    assert x * dr == n as real;
    assert n == q * d + r && 0 <= r < d;
    assert n as real == q as real * dr + r as real;
    assert (x - q as real) * dr == r as real;
    ScaleByPositive(x - q as real, dr);
    assert q as real <= x < (q + 1) as real;
    assert Quotient(n, d) == q;
  }

  lemma ScaledAverage(total: nat, parts: nat, k: nat, f: real)
    requires parts > 0 && f == k as real / 4.0
    ensures (total as real / parts as real) * f == (k * total) as real / (4 * parts) as real
  {
    var x := total as real;
    var p := parts as real;
    var avg := x / p;
    var q := (k * total) as real / (4 * parts) as real;
    assert avg * p == x;
    assert q * (4.0 * p) == k as real * x;
    assert (avg * f) * (4.0 * p) == k as real * (avg * p);
  }

  /** In exact arithmetic the axis offsets are the source's
      Math.floor(current + avg -/+ avg * 0.25) and Math.floor(current + avg). */
  lemma MakeAxisMatchesAverage(current: int, total: nat, parts: nat)
    requires parts > 0
    ensures var avg := total as real / parts as real;
            var axis := MakeAxis(total, parts);
            (current as real + avg - avg * SearchFraction).Floor == current + axis.near &&
            (current as real + avg + avg * SearchFraction).Floor == current + axis.far &&
            (current as real + avg).Floor == current + axis.mid
  {
    var avg := total as real / parts as real;
    ScaledAverage(total, parts, 3, 0.75);
    ScaledAverage(total, parts, 5, 1.25);
    assert avg - avg * SearchFraction == avg * 0.75;
    assert avg + avg * SearchFraction == avg * 1.25;
    FloorOfQuotient(3 * total, 4 * parts);
    FloorOfQuotient(5 * total, 4 * parts);
    FloorOfQuotient(total, parts);
    assert current as real + avg - avg * SearchFraction == current as real + (avg - avg * SearchFraction);
    assert current as real + avg + avg * SearchFraction == current as real + (avg + avg * SearchFraction);
  }

  /** The inclusive search window [start, end] for the cut after `current`
      on an axis of `total` lines. */
  function SearchWindow(current: int, axis: Axis, total: int): (int, int) {
    (Max(current + MinSpan, current + axis.near), Min(total - 1, current + axis.far))
  }

  /** The cut that closes the span starting at `current`, given the foreground
      count of every line. */
  function Cut(lineCounts: seq<nat>, current: nat, axis: Axis): (cut: nat)
    ensures cut >= current
  {
    var (start, end) := SearchWindow(current, axis, |lineCounts|);
    if start <= end then start + EarliestMin(lineCounts[start..end + 1])
    else current + axis.mid
  }

  /** A non-empty window yields a cut at least 10 lines after the cursor and on
      a line of the image; an empty one yields floor(current + avg). */
  lemma CutBounds(lineCounts: seq<nat>, current: nat, axis: Axis)
    ensures var (start, end) := SearchWindow(current, axis, |lineCounts|);
            var cut := Cut(lineCounts, current, axis);
            (start <= end ==> current + MinSpan <= start <= cut <= end <= |lineCounts| - 1) &&
            (start > end ==> cut == current + axis.mid)
  {
  }

  /** The cut is the first gap (zero-count line) of the window if there is one,
      and otherwise the earliest line with the least foreground. */
  lemma CutIsEarliestLeastLine(lineCounts: seq<nat>, current: nat, axis: Axis)
    ensures var (start, end) := SearchWindow(current, axis, |lineCounts|);
            var cut := Cut(lineCounts, current, axis);
            start <= end ==>
              (forall y :: start <= y <= end ==> lineCounts[cut] <= lineCounts[y]) &&
              (forall y :: start <= y < cut ==> lineCounts[cut] < lineCounts[y]) &&
              ((exists y :: start <= y <= end && lineCounts[y] == 0) ==> lineCounts[cut] == 0)
  {
    var (start, end) := SearchWindow(current, axis, |lineCounts|);
    if start <= end {
      var w := lineCounts[start..end + 1];
      var k := EarliestMin(w);
      assert forall y :: start <= y <= end ==> lineCounts[y] == w[y - start];
    }
  }

  /** The cut after `current`: the fallback floor(current + avg) when the
      window is empty, otherwise the scan of the window (lines 145-173, 192-217). */
  method FindCut(lineCounts: seq<nat>, current: nat, axis: Axis) returns (cut: nat)
    ensures cut == Cut(lineCounts, current, axis)
  {
    var (start, end) := SearchWindow(current, axis, |lineCounts|);
    cut := current + axis.mid;
    if start <= end {
      cut := ScanWindow(lineCounts, start, end);
    }
  }

  /** The scan of one window (lines 157-172 and 203-216): stop at the first
      gap, otherwise keep the line whose count is strictly below the best so far.
      `best == None` stands for the initial Number.MAX_VALUE. */
  method ScanWindow(lineCounts: seq<nat>, start: nat, end: nat) returns (cut: nat)
    requires start <= end < |lineCounts|
    ensures cut == start + EarliestMin(lineCounts[start..end + 1])
  {
    var best: Option<nat> := None;
    cut := start;
    var y := start;
    while y <= end
      invariant start <= y <= end + 1
      invariant forall j :: start <= j < y ==> lineCounts[j] > 0
      invariant y == start <==> best == None
      invariant best != None ==> start <= cut < y && best.value == lineCounts[cut]
      invariant best != None ==> forall j :: start <= j < y ==> lineCounts[cut] <= lineCounts[j]
      invariant best != None ==> forall j :: start <= j < cut ==> lineCounts[cut] < lineCounts[j]
    {
      var count := lineCounts[y];
      if count == 0 {
        cut := y;
        WindowEarliestMin(lineCounts, start, end, cut);
        return;
      }
      if best == None || count < best.value {
        best := Some(count);
        cut := y;
      }
      y := y + 1;
    }
    WindowEarliestMin(lineCounts, start, end, cut);
  }

  /** Restates an earliest minimum over the window [start, end], given in line
      numbers, as the `EarliestMin` of that slice. */
  lemma WindowEarliestMin(lineCounts: seq<nat>, start: int, end: int, cut: int)
    requires 0 <= start <= cut <= end < |lineCounts|
    requires forall j :: start <= j <= end ==> lineCounts[cut] <= lineCounts[j]
    requires forall j :: start <= j < cut ==> lineCounts[cut] < lineCounts[j]
    ensures start + EarliestMin(lineCounts[start..end + 1]) == cut
  {
    var w := lineCounts[start..end + 1];
    assert forall j :: 0 <= j < |w| ==> w[j] == lineCounts[start + j];
    assert IsEarliestMin(w, cut - start);
    EarliestMinUnique(w, cut - start, EarliestMin(w));
  }

  // ---------------------------------------------------------------------------
  // Trimming a cell to its contours (lines 236-251)

  predicate Qualifies(r: Rect) {
    r.w >= MinContourSide && r.h >= MinContourSide
  }

  predicate Inside(inner: Rect, outer: Rect) {
    outer.x <= inner.x && inner.x + inner.w <= outer.x + outer.w &&
    outer.y <= inner.y && inner.y + inner.h <= outer.y + outer.h
  }

  function Union(a: Rect, b: Rect): Rect {
    var x1 := Min(a.x, b.x);
    var y1 := Min(a.y, b.y);
    var x2 := Max(a.x + a.w, b.x + b.w);
    var y2 := Max(a.y + a.h, b.y + b.h);
    Rect(x1, y1, x2 - x1, y2 - y1)
  }

  /** The union box of the qualifying boxes, folded in list order; None when
      no box qualifies. */
  function TightRect(boxes: seq<Rect>): (t: Option<Rect>)
    ensures t.None? <==> forall k :: 0 <= k < |boxes| ==> !Qualifies(boxes[k])
    ensures t.Some? ==> Qualifies(t.value)
  {
    if boxes == [] then None
    else
      var n := |boxes| - 1;
      var acc := TightRect(boxes[..n]);
      assert forall k :: 0 <= k < n ==> boxes[..n][k] == boxes[k];
      if !Qualifies(boxes[n]) then acc
      else match acc {
        case None => Some(boxes[n])
        case Some(t) => Some(Union(t, boxes[n]))
      }
  }

  /** The union box contains every qualifying box. */
  lemma {:induction false} TightRectContainsAll(boxes: seq<Rect>, k: nat)
    requires k < |boxes| && Qualifies(boxes[k])
    ensures TightRect(boxes).Some? && Inside(boxes[k], TightRect(boxes).value)
  {
    var n := |boxes| - 1;
    assert forall j :: 0 <= j < n ==> boxes[..n][j] == boxes[j];
    if k < n {
      TightRectContainsAll(boxes[..n], k);
    }
  }

  /** Each edge of the union box is the matching edge of some qualifying box,
      so no smaller rectangle contains them all. */
  lemma {:induction false} TightRectEdgesAttained(boxes: seq<Rect>)
    requires TightRect(boxes).Some?
    ensures var t := TightRect(boxes).value;
            (exists k :: 0 <= k < |boxes| && Qualifies(boxes[k]) && boxes[k].x == t.x) &&
            (exists k :: 0 <= k < |boxes| && Qualifies(boxes[k]) && boxes[k].y == t.y) &&
            (exists k :: 0 <= k < |boxes| && Qualifies(boxes[k]) && boxes[k].x + boxes[k].w == t.x + t.w) &&
            (exists k :: 0 <= k < |boxes| && Qualifies(boxes[k]) && boxes[k].y + boxes[k].h == t.y + t.h)
  {
    var n := |boxes| - 1;
    var prefix := boxes[..n];
    assert forall j :: 0 <= j < n ==> prefix[j] == boxes[j];
    if TightRect(prefix).Some? {
      TightRectEdgesAttained(prefix);
    }
  }

  /** The contour loop of lines 238-251, one box at a time. */
  method TightBox(boxes: seq<Rect>) returns (tight: Option<Rect>)
    ensures tight == TightRect(boxes)
  {
    tight := None;
    for k := 0 to |boxes|
      invariant tight == TightRect(boxes[..k])
    {
      assert boxes[..k + 1][..k] == boxes[..k];
      var rect := boxes[k];
      if !Qualifies(rect) {
        continue;
      }
      if tight == None {
        tight := Some(rect);
      } else {
        tight := Some(Union(tight.value, rect));
      }
    }
    assert boxes[..|boxes|] == boxes;
  }

  // ---------------------------------------------------------------------------
  // Fitting into the output canvas (lines 300-312)

  function MinReal(a: real, b: real): real { if a < b then a else b }

  /** Scale a w x h crop by min(availW / w, availH / h) and centre it. */
  function FitInto(targetW: int, targetH: int, padding: int, w: int, h: int): DrawRect
    requires w > 0 && h > 0
  {
    var availW := (targetW - 2 * padding) as real;
    var availH := (targetH - 2 * padding) as real;
    var scale := MinReal(availW / w as real, availH / h as real);
    var drawW := w as real * scale;
    var drawH := h as real * scale;
    DrawRect((targetW as real - drawW) / 2.0, (targetH as real - drawH) / 2.0, drawW, drawH)
  }

  /** The drawn rectangle keeps the crop's aspect ratio, is centred on the
      canvas, and when the padded area is not negative it fits inside it,
      touching it on at least one axis. */
  lemma FitIntoKeepsAspectAndCentres(targetW: int, targetH: int, padding: int, w: int, h: int)
    requires w > 0 && h > 0
    ensures var d := FitInto(targetW, targetH, padding, w, h);
            d.w * h as real == d.h * w as real &&
            2.0 * d.x + d.w == targetW as real && 2.0 * d.y + d.h == targetH as real
    ensures var d := FitInto(targetW, targetH, padding, w, h);
            var availW := (targetW - 2 * padding) as real;
            var availH := (targetH - 2 * padding) as real;
            availW >= 0.0 && availH >= 0.0 ==>
              0.0 <= d.w <= availW && 0.0 <= d.h <= availH && (d.w == availW || d.h == availH) &&
              padding as real <= d.x && padding as real <= d.y
  {
    var availW := (targetW - 2 * padding) as real;
    var availH := (targetH - 2 * padding) as real;
    var sw := availW / w as real;
    var sh := availH / h as real;
    assert sw * w as real == availW;
    assert sh * h as real == availH;
    if sw <= sh {
      assert sw * h as real <= sh * h as real;
    } else {
      assert sh * w as real < sw * w as real;
    }
  }

  // ---------------------------------------------------------------------------
  // The whole walk, as a specification

  /** The sticker a cell contributes: none when no contour box qualifies. */
  function CellStickers(sheet: Sheet, layout: Layout, r: nat, c: nat, cell: Rect): seq<Sticker> {
    match TightRect(sheet.contours(cell))
    case None => []
    case Some(t) =>
      [Sticker(r, c, cell, Rect(cell.x + t.x, cell.y + t.y, t.w, t.h),
               FitInto(layout.targetW, layout.targetH, Padding, t.w, t.h))]
  }

  /** The cut that ends span `i` of `parts` along an axis whose lines have
      the given foreground counts: searched for every span but the last, which
      runs to the far edge (lines 143-146, 190-193). */
  function NextCut(lineCounts: seq<nat>, parts: nat, i: nat, current: nat): (cut: nat)
    ensures i < parts - 1 ==> cut >= current
    ensures i >= parts - 1 ==> cut == |lineCounts|
  {
    if i < parts - 1 then Cut(lineCounts, current, MakeAxis(|lineCounts|, parts)) else |lineCounts|
  }

  /** `done` followed by whatever `rest` produces. */
  function Prepend(done: seq<Sticker>, rest: Result<seq<Sticker>, SliceError>): Result<seq<Sticker>, SliceError> {
    match rest
    case Success(s) => Success(done + s)
    case Failure(e) => Failure(e)
  }

  /** Columns c.. of row r, from cursor currentX. The row's band starts at
      line y0 and its region is rowH lines high; the cells are asked for
      cellH lines (the source asks for the row's height before clamping).
      colCounts is the column projection of the band. A column scan that
      starts past the row matrix, or a cell region that leaves it, makes
      OpenCV throw. */
  function SliceCells(sheet: Sheet, layout: Layout, colCounts: seq<nat>, r: nat, y0: nat, rowH: nat, cellH: nat,
                      c: nat, currentX: nat): Result<seq<Sticker>, SliceError>
    requires c <= layout.cols
    decreases layout.cols - c
  {
    if c == layout.cols then Success([])
    else
      var totalW := |colCounts|;
      var (matW, matH) := RoiSize(totalW, rowH);
      if ScanLeavesRow(colCounts, layout.cols, c, currentX, matW) then Failure(ColumnOutOfRow(r, c))
      else
        var cutX := NextCut(colCounts, layout.cols, c, currentX);
        var w := cutX - currentX;
        if w > MinSpan then
          var roi := CellRoi(totalW, cellH, currentX, w);
          if !RoiFits(matW, matH, roi) then Failure(CellRoiOutOfImage(r, c))
          else
            Prepend(CellStickers(sheet, layout, r, c, InBand(roi, y0)),
                    SliceCells(sheet, layout, colCounts, r, y0, rowH, cellH, c + 1, cutX))
        else SliceCells(sheet, layout, colCounts, r, y0, rowH, cellH, c + 1, cutX)
  }

  /** The cells of row r, whose band is lines y0 .. y0 + rowH - 1, each
      asked for cellH lines. */
  function RowCells(sheet: Sheet, layout: Layout, r: nat, y0: nat, rowH: nat, cellH: nat)
    : Result<seq<Sticker>, SliceError>
    requires sheet.Valid() && y0 + rowH <= |sheet.mask|
  {
    SliceCells(sheet, layout, ColCounts(sheet, y0, y0 + rowH), r, y0, rowH, cellH, 0, 0)
  }

  /** The height a row's cells are asked for: the row's height before
      clamping, as line 225 has it, or with clampCells the height of the
      clamped row region. */
  function CellHeight(clampCells: bool, h: nat, rowH: nat): nat {
    if clampCells then rowH else h
  }

  /** Rows r.. of the sheet, from cursor currentY; rowCounts is the row
      projection of the whole mask. A row taller than MinSpan lines goes
      through EmitRow; a row that fails there discards the rows below. */
  function SliceRows(sheet: Sheet, layout: Layout, rowCounts: seq<nat>, clampCells: bool, r: nat, currentY: nat)
    : Result<seq<Sticker>, SliceError>
    requires sheet.Valid() && |rowCounts| == |sheet.mask| && r <= layout.rows
    decreases layout.rows - r
  {
    if r == layout.rows then Success([])
    else
      var cutY := NextCut(rowCounts, layout.rows, r, currentY);
      var rest := SliceRows(sheet, layout, rowCounts, clampCells, r + 1, cutY);
      if cutY - currentY > MinSpan then EmitRow(sheet, layout, clampCells, r, currentY, cutY, rest)
      else rest
  }

  /** Row r between lines currentY and cutY, followed by the result rest of
      the rows below: no region when the row starts below the image (line
      185), otherwise the row clamped to the image and its cells (lines
      181-330). */
  function EmitRow(sheet: Sheet, layout: Layout, clampCells: bool, r: nat, currentY: nat, cutY: nat,
                   rest: Result<seq<Sticker>, SliceError>): Result<seq<Sticker>, SliceError>
    requires sheet.Valid() && cutY - currentY > MinSpan
  {
    var totalH := |sheet.mask|;
    if currentY > totalH then Failure(RowRoiOutOfImage(r))
    else
      var h := cutY - currentY;
      var rowH := if cutY > totalH then totalH - currentY else h;
      var cells := RowCells(sheet, layout, r, currentY, rowH, CellHeight(clampCells, h, rowH));
      if cells.Failure? then Failure(cells.error)
      else Prepend(cells.value, rest)
  }

  /** The stickers of a sheet cut into layout.rows x layout.cols cells, as
      the source computes them. */
  function Slice(sheet: Sheet, layout: Layout): Result<seq<Sticker>, SliceError>
    requires sheet.Valid()
  {
    SliceRows(sheet, layout, RowCounts(sheet.mask), false, 0, 0)
  }

  lemma PrependNothing(rest: Result<seq<Sticker>, SliceError>)
    ensures Prepend([], rest) == rest
  {
    if rest.Success? {
      assert [] + rest.value == rest.value;
    }
  }

  lemma PrependTwice(a: seq<Sticker>, b: seq<Sticker>, rest: Result<seq<Sticker>, SliceError>)
    ensures Prepend(a, Prepend(b, rest)) == Prepend(a + b, rest)
  {
    if rest.Success? {
      assert a + (b + rest.value) == (a + b) + rest.value;
    }
  }

  /** A column scan that starts past the row matrix throws (line 204). */
  lemma CellsScanFail(sheet: Sheet, layout: Layout, colCounts: seq<nat>, r: nat, y0: nat, rowH: nat, cellH: nat,
                      c: nat, currentX: nat)
    requires c < layout.cols && ScanLeavesRow(colCounts, layout.cols, c, currentX, RoiSize(|colCounts|, rowH).0)
    ensures SliceCells(sheet, layout, colCounts, r, y0, rowH, cellH, c, currentX) == Failure(ColumnOutOfRow(r, c))
  {
  }

  /** A column of at most 10 pixels emits nothing; the cursor moves to the cut (line 223). */
  lemma CellsSkip(sheet: Sheet, layout: Layout, colCounts: seq<nat>, r: nat, y0: nat, rowH: nat, cellH: nat,
                  c: nat, currentX: nat, cutX: nat)
    requires c < layout.cols && !ScanLeavesRow(colCounts, layout.cols, c, currentX, RoiSize(|colCounts|, rowH).0)
    requires cutX == NextCut(colCounts, layout.cols, c, currentX) && cutX - currentX <= MinSpan
    ensures SliceCells(sheet, layout, colCounts, r, y0, rowH, cellH, c, currentX)
            == SliceCells(sheet, layout, colCounts, r, y0, rowH, cellH, c + 1, cutX)
  {
  }

  /** A cell region that leaves the row matrix throws (line 229). */
  lemma CellsFail(sheet: Sheet, layout: Layout, colCounts: seq<nat>, r: nat, y0: nat, rowH: nat, cellH: nat,
                  c: nat, currentX: nat, cutX: nat)
    requires c < layout.cols && !ScanLeavesRow(colCounts, layout.cols, c, currentX, RoiSize(|colCounts|, rowH).0)
    requires cutX == NextCut(colCounts, layout.cols, c, currentX) && cutX - currentX > MinSpan
    requires var (matW, matH) := RoiSize(|colCounts|, rowH);
             !RoiFits(matW, matH, CellRoi(|colCounts|, cellH, currentX, cutX - currentX))
    ensures SliceCells(sheet, layout, colCounts, r, y0, rowH, cellH, c, currentX) == Failure(CellRoiOutOfImage(r, c))
  {
  }

  /** A cell of more than 10 pixels whose region fits contributes its
      sticker, then the cells to its right. */
  lemma CellsEmit(sheet: Sheet, layout: Layout, colCounts: seq<nat>, r: nat, y0: nat, rowH: nat, cellH: nat,
                  c: nat, currentX: nat, cutX: nat, roi: Rect)
    requires c < layout.cols && !ScanLeavesRow(colCounts, layout.cols, c, currentX, RoiSize(|colCounts|, rowH).0)
    requires cutX == NextCut(colCounts, layout.cols, c, currentX) && cutX - currentX > MinSpan
    requires roi == CellRoi(|colCounts|, cellH, currentX, cutX - currentX)
    requires var (matW, matH) := RoiSize(|colCounts|, rowH); RoiFits(matW, matH, roi)
    ensures SliceCells(sheet, layout, colCounts, r, y0, rowH, cellH, c, currentX)
            == Prepend(CellStickers(sheet, layout, r, c, InBand(roi, y0)),
                       SliceCells(sheet, layout, colCounts, r, y0, rowH, cellH, c + 1, cutX))
  {
  }

  /** A row of at most 10 lines emits nothing; the cursor moves to the cut (line 179). */
  lemma RowsSkip(sheet: Sheet, layout: Layout, rowCounts: seq<nat>, clampCells: bool, r: nat, currentY: nat, cutY: nat)
    requires sheet.Valid() && |rowCounts| == |sheet.mask| && r < layout.rows
    requires cutY == NextCut(rowCounts, layout.rows, r, currentY) && cutY - currentY <= MinSpan
    ensures SliceRows(sheet, layout, rowCounts, clampCells, r, currentY)
            == SliceRows(sheet, layout, rowCounts, clampCells, r + 1, cutY)
  {
  }

  /** A row that starts below the image has no region of interest (line 185). */
  lemma RowsFail(sheet: Sheet, layout: Layout, rowCounts: seq<nat>, clampCells: bool, r: nat, currentY: nat, cutY: nat)
    requires sheet.Valid() && |rowCounts| == |sheet.mask| && r < layout.rows
    requires cutY == NextCut(rowCounts, layout.rows, r, currentY) && cutY - currentY > MinSpan
    requires currentY > |rowCounts|
    ensures SliceRows(sheet, layout, rowCounts, clampCells, r, currentY) == Failure(RowRoiOutOfImage(r))
  {
  }

  /** A row of more than 10 lines contributes its cells, then the rows below it. */
  lemma RowsEmit(sheet: Sheet, layout: Layout, rowCounts: seq<nat>, clampCells: bool, r: nat, currentY: nat,
                 cutY: nat, rowH: nat, cells: Result<seq<Sticker>, SliceError>)
    requires sheet.Valid() && |rowCounts| == |sheet.mask| && r < layout.rows
    requires cutY == NextCut(rowCounts, layout.rows, r, currentY) && cutY - currentY > MinSpan
    requires currentY <= |rowCounts|
    requires rowH == if cutY > |rowCounts| then |rowCounts| - currentY else cutY - currentY
    requires cells == RowCells(sheet, layout, r, currentY, rowH, CellHeight(clampCells, cutY - currentY, rowH))
    ensures SliceRows(sheet, layout, rowCounts, clampCells, r, currentY)
            == if cells.Failure? then Failure(cells.error)
               else Prepend(cells.value, SliceRows(sheet, layout, rowCounts, clampCells, r + 1, cutY))
  {
    var rest := SliceRows(sheet, layout, rowCounts, clampCells, r + 1, cutY);
    assert SliceRows(sheet, layout, rowCounts, clampCells, r, currentY)
           == EmitRow(sheet, layout, clampCells, r, currentY, cutY, rest);
    EmitCells(sheet, layout, clampCells, r, currentY, cutY, rowH, cells, rest);
  }

  lemma EmitCells(sheet: Sheet, layout: Layout, clampCells: bool, r: nat, currentY: nat, cutY: nat, rowH: nat,
                  cells: Result<seq<Sticker>, SliceError>, rest: Result<seq<Sticker>, SliceError>)
    requires sheet.Valid() && cutY - currentY > MinSpan && currentY <= |sheet.mask|
    requires rowH == if cutY > |sheet.mask| then |sheet.mask| - currentY else cutY - currentY
    requires cells == RowCells(sheet, layout, r, currentY, rowH, CellHeight(clampCells, cutY - currentY, rowH))
    ensures EmitRow(sheet, layout, clampCells, r, currentY, cutY, rest)
            == if cells.Failure? then Failure(cells.error) else Prepend(cells.value, rest)
  {
  }

  // ---------------------------------------------------------------------------
  // Regions of interest (lines 181-185 and 224-229)

  /** cv.Mat.roi accepts only a rectangle lying inside the parent matrix and
      throws otherwise. */
  predicate RoiFits(parentW: int, parentH: int, roi: Rect) {
    0 <= roi.x && 0 <= roi.w && roi.x + roi.w <= parentW &&
    0 <= roi.y && 0 <= roi.h && roi.y + roi.h <= parentH
  }

  /** The row's region: the whole width, its height clamped to the image. */
  function RowRoi(totalW: int, totalH: int, currentY: int, h: int): Rect {
    Rect(0, currentY, totalW, if currentY + h > totalH then totalH - currentY else h)
  }

  /** A cell's region inside its row's region, h lines high, its width
      clamped to the image (line 225). */
  function CellRoi(totalW: int, h: int, currentX: int, w: int): (roi: Rect)
    ensures roi.x == currentX && roi.y == 0 && roi.h == h
  {
    Rect(currentX, 0, if currentX + w > totalW then totalW - currentX else w, h)
  }

  /** The width and height of the matrix cv.Mat.roi returns for a w x h
      region that fits: a region without rows or without columns becomes an
      empty 0 x 0 matrix. */
  function RoiSize(w: int, h: int): (size: (int, int))
    ensures size == (0, 0) || size == (w, h)
    ensures size.0 > 0 <==> w > 0 && h > 0
  {
    if w <= 0 || h <= 0 then (0, 0) else (w, h)
  }

  /** The scan for the cut after column span c reads rowMask.col(x) from the
      window's start on; it throws when that start is past the row matrix. */
  predicate ScanLeavesRow(colCounts: seq<nat>, parts: nat, c: nat, currentX: nat, matW: int) {
    c < parts - 1 &&
    var (start, end) := SearchWindow(currentX, MakeAxis(|colCounts|, parts), |colCounts|);
    start <= end && start >= matW
  }

  /** A region of a row's band, moved into sheet coordinates. */
  function InBand(roi: Rect, y0: int): Rect {
    Rect(roi.x, y0 + roi.y, roi.w, roi.h)
  }

  /** The row region the walk settles on fits the image exactly when the row
      does not start below it; otherwise the walk fails with RowRoiOutOfImage. */
  lemma RowRoiFits(totalW: nat, totalH: nat, currentY: nat, h: int)
    requires h > MinSpan
    ensures RoiFits(totalW, totalH, RowRoi(totalW, totalH, currentY, h)) <==> currentY <= totalH
    ensures currentY <= totalH ==> RowRoi(totalW, totalH, currentY, h).h == Min(h, totalH - currentY)
  {
  }

  /** In a row whose region has lines and columns, the region of a cell
      asked for cellH lines fits the row matrix exactly when the cell does
      not start right of the image and cellH is at most the row's height;
      otherwise the walk fails with CellRoiOutOfImage. */
  lemma CellRoiFits(totalW: nat, rowH: nat, cellH: nat, currentX: nat, w: int)
    requires w > MinSpan && totalW > 0 && rowH > 0
    ensures RoiSize(totalW, rowH) == (totalW, rowH)
    ensures RoiFits(totalW, rowH, CellRoi(totalW, cellH, currentX, w)) <==> currentX <= totalW && cellH <= rowH
    ensures currentX <= totalW ==> CellRoi(totalW, cellH, currentX, w).w == Min(w, totalW - currentX)
  {
  }

  lemma CellStickersOf(sheet: Sheet, layout: Layout, r: nat, c: nat, cell: Rect, tight: Option<Rect>)
    requires tight == TightRect(sheet.contours(cell))
    ensures tight.None? ==> CellStickers(sheet, layout, r, c, cell) == []
    ensures tight.Some? ==> tight.value.w > 0 && tight.value.h > 0
    ensures tight.Some? ==>
      CellStickers(sheet, layout, r, c, cell) ==
        [Sticker(r, c, cell, Rect(cell.x + tight.value.x, cell.y + tight.value.y, tight.value.w, tight.value.h),
                 FitInto(layout.targetW, layout.targetH, Padding, tight.value.w, tight.value.h))]
  {
  }

  // ---------------------------------------------------------------------------
  // The slicer itself

  /** Trim one cell to its contours and fit it into the canvas (lines 229-320). */
  method TrimAndFit(sheet: Sheet, layout: Layout, r: nat, c: nat, cell: Rect) returns (emitted: seq<Sticker>)
    ensures emitted == CellStickers(sheet, layout, r, c, cell)
  {
    var tight := TightBox(sheet.contours(cell));
    CellStickersOf(sheet, layout, r, c, cell, tight);
    emitted := [];
    if tight.Some? {
      var t := tight.value;
      emitted := [Sticker(r, c, cell, Rect(cell.x + t.x, cell.y + t.y, t.w, t.h),
                          FitInto(layout.targetW, layout.targetH, Padding, t.w, t.h))];
    }
  }

  /** The cut after `current` for span `i` of `parts` (lines 141-173, 188-217). */
  method FindNextCut(lineCounts: seq<nat>, parts: nat, i: nat, current: nat) returns (cut: nat)
    ensures cut == NextCut(lineCounts, parts, i, current)
  {
    cut := |lineCounts|;
    if i < parts - 1 {
      cut := FindCut(lineCounts, current, MakeAxis(|lineCounts|, parts));
    }
  }

  /** The column walk inside one settled row (lines 187-325), each cell
      asked for cellH lines. */
  method SliceRow(sheet: Sheet, layout: Layout, colCounts: seq<nat>, r: nat, y0: nat, rowH: nat, cellH: nat)
    returns (result: Result<seq<Sticker>, SliceError>)
    ensures result == SliceCells(sheet, layout, colCounts, r, y0, rowH, cellH, 0, 0)
  {
    var totalW := |colCounts|;
    var (matW, matH) := RoiSize(totalW, rowH);
    var rowOut: seq<Sticker> := [];
    var currentX: nat := 0;
    PrependNothing(SliceCells(sheet, layout, colCounts, r, y0, rowH, cellH, 0, 0));
    for c := 0 to layout.cols
      invariant SliceCells(sheet, layout, colCounts, r, y0, rowH, cellH, 0, 0)
                == Prepend(rowOut, SliceCells(sheet, layout, colCounts, r, y0, rowH, cellH, c, currentX))
    {
      if ScanLeavesRow(colCounts, layout.cols, c, currentX, matW) {
        CellsScanFail(sheet, layout, colCounts, r, y0, rowH, cellH, c, currentX);
        return Failure(ColumnOutOfRow(r, c));
      }
      var cutX := FindNextCut(colCounts, layout.cols, c, currentX);
      var w := cutX - currentX;
      if w <= MinSpan {
        CellsSkip(sheet, layout, colCounts, r, y0, rowH, cellH, c, currentX, cutX);
      } else {
        var roi := CellRoi(totalW, cellH, currentX, w);
        if !RoiFits(matW, matH, roi) {
          CellsFail(sheet, layout, colCounts, r, y0, rowH, cellH, c, currentX, cutX);
          return Failure(CellRoiOutOfImage(r, c));
        }
        CellsEmit(sheet, layout, colCounts, r, y0, rowH, cellH, c, currentX, cutX, roi);
        var emitted := TrimAndFit(sheet, layout, r, c, InBand(roi, y0));
        PrependTwice(rowOut, emitted, SliceCells(sheet, layout, colCounts, r, y0, rowH, cellH, c + 1, cutX));
        rowOut := rowOut + emitted;
      }
      currentX := cutX;
    }
    assert rowOut + [] == rowOut;
    return Success(rowOut);
  }

  /** One pass of the row loop (lines 170-330): find the row's cut and,
      when the row is taller than MinSpan lines, clamp its region to the
      image and slice its cells, asking each for the unclamped height h.
      Skipped rows yield no stickers. */
  method WalkRow(sheet: Sheet, layout: Layout, rowCounts: seq<nat>, r: nat, currentY: nat)
    returns (cells: Result<seq<Sticker>, SliceError>, cutY: nat)
    requires sheet.Valid() && |rowCounts| == |sheet.mask| && r < layout.rows
    ensures cutY == NextCut(rowCounts, layout.rows, r, currentY)
    ensures SliceRows(sheet, layout, rowCounts, false, r, currentY)
            == if cells.Failure? then Failure(cells.error)
               else Prepend(cells.value, SliceRows(sheet, layout, rowCounts, false, r + 1, cutY))
  {
    var totalH := |rowCounts|;
    cutY := FindNextCut(rowCounts, layout.rows, r, currentY);
    var h := cutY - currentY;
    if h <= MinSpan {
      RowsSkip(sheet, layout, rowCounts, false, r, currentY, cutY);
      PrependNothing(SliceRows(sheet, layout, rowCounts, false, r + 1, cutY));
      return Success([]), cutY;
    }
    if currentY > totalH {
      RowsFail(sheet, layout, rowCounts, false, r, currentY, cutY);
      return Failure(RowRoiOutOfImage(r)), cutY;
    }
    var rowH := if cutY > totalH then totalH - currentY else h;
    cells := SliceRow(sheet, layout, ColCounts(sheet, currentY, currentY + rowH), r, currentY, rowH, h);
    RowCellsAre(sheet, layout, r, currentY, rowH, h, cells);
    RowsEmit(sheet, layout, rowCounts, false, r, currentY, cutY, rowH, cells);
  }

  lemma RowCellsAre(sheet: Sheet, layout: Layout, r: nat, y0: nat, rowH: nat, h: nat,
                    cells: Result<seq<Sticker>, SliceError>)
    requires sheet.Valid() && y0 + rowH <= |sheet.mask|
    requires cells == SliceCells(sheet, layout, ColCounts(sheet, y0, y0 + rowH), r, y0, rowH, h, 0, 0)
    ensures cells == RowCells(sheet, layout, r, y0, rowH, CellHeight(false, h, rowH))
  {
  }

  /** processGreenScreenAndSlice from the cleaned mask on: the row walk with
      its cursor, emitting stickers in row-major order (lines 133-332). */
  method SliceGrid(sheet: Sheet, layout: Layout) returns (result: Result<seq<Sticker>, SliceError>)
    requires sheet.Valid()
    ensures result == Slice(sheet, layout)
  {
    var sliced: seq<Sticker> := [];
    var rowCounts := RowCounts(sheet.mask);
    var currentY: nat := 0;
    PrependNothing(SliceRows(sheet, layout, rowCounts, false, 0, currentY));
    for r := 0 to layout.rows
      invariant Slice(sheet, layout) == Prepend(sliced, SliceRows(sheet, layout, rowCounts, false, r, currentY))
    {
      var cells, cutY := WalkRow(sheet, layout, rowCounts, r, currentY);
      if cells.Failure? {
        return Failure(cells.error);
      }
      PrependTwice(sliced, cells.value, SliceRows(sheet, layout, rowCounts, false, r + 1, cutY));
      sliced := sliced + cells.value;
      currentY := cutY;
    }
    assert sliced + [] == sliced;
    return Success(sliced);
  }
}
