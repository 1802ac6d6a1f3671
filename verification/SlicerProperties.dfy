/** What the grid walk guarantees about the stickers it emits: row-major order,
    at most one sticker per cell, cells that stay inside the image and do not
    overlap, and crops that stay inside their cells. */
module SlicerProperties {
  import opened Wrappers
  import opened GridSlicer

  /** `s` comes before `t`: in an earlier row whose band ends above t's cell,
      or earlier in the same row with a cell ending left of t's cell. */
  predicate Precedes(s: Sticker, t: Sticker) {
    (s.row < t.row && s.cell.y + s.cell.h <= t.cell.y) ||
    (s.row == t.row && s.col < t.col && s.cell.x + s.cell.w <= t.cell.x)
  }

  predicate InGridOrder(s: seq<Sticker>) {
    forall i, j :: 0 <= i < j < |s| ==> Precedes(s[i], s[j])
  }

  /** The sticker's cell lies inside the width x height image. */
  predicate CellInImage(s: Sticker, width: int, height: int) {
    0 <= s.cell.x && 0 <= s.cell.w && s.cell.x + s.cell.w <= width &&
    0 <= s.cell.y && 0 <= s.cell.h && s.cell.y + s.cell.h <= height
  }

  /** The contour boxes reported for a cell are given relative to it and lie
      inside it, as findContours on the cell's region of interest does. */
  ghost predicate ContoursInCells(sheet: Sheet) {
    forall cell, b :: b in sheet.contours(cell) ==> Inside(b, Rect(0, 0, cell.w, cell.h))
  }

  lemma OrderAppend(a: seq<Sticker>, b: seq<Sticker>)
    requires InGridOrder(a) && InGridOrder(b)
    requires forall i, j :: 0 <= i < |a| && 0 <= j < |b| ==> Precedes(a[i], b[j])
    ensures InGridOrder(a + b)
  {
    var s := a + b;
    forall i, j | 0 <= i < j < |s|
      ensures Precedes(s[i], s[j])
    {
      if j < |a| {
        assert Precedes(a[i], a[j]);
      } else if i >= |a| {
        assert Precedes(b[i - |a|], b[j - |a|]);
      } else {
        assert Precedes(a[i], b[j - |a|]);
      }
    }
  }

  /** When every contour box lies inside a bound, so does their union box. */
  lemma TightRectWithin(boxes: seq<Rect>, bound: Rect)
    requires forall k :: 0 <= k < |boxes| && Qualifies(boxes[k]) ==> Inside(boxes[k], bound)
    requires TightRect(boxes).Some?
    ensures Inside(TightRect(boxes).value, bound)
  {
    TightRectEdgesAttained(boxes);
  }

  /** A cell yields at most one sticker, carrying the cell itself, and with
      contours inside the cell its crop lies inside the cell too. */
  lemma CellStickersShape(sheet: Sheet, layout: Layout, r: nat, c: nat, cell: Rect)
    ensures var out := CellStickers(sheet, layout, r, c, cell);
            |out| <= 1 &&
            (forall s :: s in out ==> s.row == r && s.col == c && s.cell == cell) &&
            (ContoursInCells(sheet) ==> forall s :: s in out ==> Inside(s.crop, cell))
  {
    var boxes := sheet.contours(cell);
    var tight := TightRect(boxes);
    CellStickersOf(sheet, layout, r, c, cell, tight);
    if tight.Some? && ContoursInCells(sheet) {
      assert forall k :: 0 <= k < |boxes| ==> boxes[k] in boxes;
      TightRectWithin(boxes, Rect(0, 0, cell.w, cell.h));
    }
  }

  /** The shape of a row's output from column c and cursor x on: every
      cell lies in the band of bandH lines from y0. */
  predicate CellsShaped(out: seq<Sticker>, layout: Layout, r: nat, c: nat, x: int, y0: int, bandH: int, width: int) {
    |out| <= layout.cols - c && InGridOrder(out) &&
    forall i :: 0 <= i < |out| ==>
      out[i].row == r && c <= out[i].col < layout.cols &&
      out[i].cell.y == y0 && 0 <= out[i].cell.h <= bandH &&
      x <= out[i].cell.x && 0 <= out[i].cell.w && out[i].cell.x + out[i].cell.w <= width
  }

  /** A cell's sticker followed by the row's later stickers keeps the shape. */
  lemma CellsShapedCons(head: seq<Sticker>, rest: seq<Sticker>, layout: Layout, r: nat, c: nat, x: int,
                        cutX: int, cell: Rect, y0: int, bandH: int, width: int)
    requires c < layout.cols && |head| <= 1 && forall s :: s in head ==> s.row == r && s.col == c && s.cell == cell
    requires cell.x == x && 0 <= cell.w && cell.x + cell.w <= width && cell.x + cell.w <= cutX
    requires cell.y == y0 && 0 <= cell.h <= bandH
    requires CellsShaped(rest, layout, r, c + 1, cutX, y0, bandH, width)
    ensures CellsShaped(head + rest, layout, r, c, x, y0, bandH, width)
  {
    assert forall i :: 0 <= i < |head| ==> head[i] in head;
    OrderAppend(head, rest);
    var out := head + rest;
    assert forall i :: |head| <= i < |out| ==> out[i] == rest[i - |head|];
  }

  /** A sticker whose crop lies inside its cell, for every sticker of head + rest. */
  lemma CropsInsideAppend(head: seq<Sticker>, rest: seq<Sticker>)
    requires forall s :: s in head ==> Inside(s.crop, s.cell)
    requires forall s :: s in rest ==> Inside(s.crop, s.cell)
    ensures forall s :: s in head + rest ==> Inside(s.crop, s.cell)
  {
  }

  /** A cell region that fits the row matrix lies in the band and ends at
      or before the cut. */
  lemma FittingCell(totalW: nat, rowH: nat, cellH: nat, x: nat, cutX: int, y0: nat)
    requires cutX - x > MinSpan
    requires var (matW, matH) := RoiSize(totalW, rowH);
             RoiFits(matW, matH, CellRoi(totalW, cellH, x, cutX - x))
    ensures var cell := InBand(CellRoi(totalW, cellH, x, cutX - x), y0);
            cell.x == x && 0 <= cell.w && cell.x + cell.w <= totalW && cell.x + cell.w <= cutX &&
            cell.y == y0 && 0 <= cell.h <= rowH
  {
  }

  /** Within a row, stickers come column by column, each cell starting at or
      after the cursor and ending before the next cell starts. */
  lemma {:induction false} CellsShape(sheet: Sheet, layout: Layout, colCounts: seq<nat>, r: nat, y0: nat,
                                      rowH: nat, cellH: nat, c: nat, x: nat)
    requires c <= layout.cols
    ensures var res := SliceCells(sheet, layout, colCounts, r, y0, rowH, cellH, c, x);
            res.Success? ==> CellsShaped(res.value, layout, r, c, x, y0, rowH, |colCounts|)
    ensures var res := SliceCells(sheet, layout, colCounts, r, y0, rowH, cellH, c, x);
            res.Success? && ContoursInCells(sheet) ==> forall s :: s in res.value ==> Inside(s.crop, s.cell)
    decreases layout.cols - c
  {
    if c == layout.cols {
      return;
    }
    var totalW := |colCounts|;
    var (matW, matH) := RoiSize(totalW, rowH);
    if ScanLeavesRow(colCounts, layout.cols, c, x, matW) {
      CellsScanFail(sheet, layout, colCounts, r, y0, rowH, cellH, c, x);
      return;
    }
    var cutX := NextCut(colCounts, layout.cols, c, x);
    var next := SliceCells(sheet, layout, colCounts, r, y0, rowH, cellH, c + 1, cutX);
    CellsShape(sheet, layout, colCounts, r, y0, rowH, cellH, c + 1, cutX);
    if c == layout.cols - 1 {
      assert next == Success([]);
    }
    if cutX - x <= MinSpan {
      CellsSkip(sheet, layout, colCounts, r, y0, rowH, cellH, c, x, cutX);
      return;
    }
    var roi := CellRoi(totalW, cellH, x, cutX - x);
    if !RoiFits(matW, matH, roi) {
      CellsFail(sheet, layout, colCounts, r, y0, rowH, cellH, c, x, cutX);
      return;
    }
    var cell := InBand(roi, y0);
    CellsEmit(sheet, layout, colCounts, r, y0, rowH, cellH, c, x, cutX, roi);
    FittingCell(totalW, rowH, cellH, x, cutX, y0);
    if next.Success? {
      var head := CellStickers(sheet, layout, r, c, cell);
      CellStickersShape(sheet, layout, r, c, cell);
      CellsShapedCons(head, next.value, layout, r, c, x, cutX, cell, y0, rowH, totalW);
      if ContoursInCells(sheet) {
        CropsInsideAppend(head, next.value);
      }
    }
  }

  /** The shape of the output from row r and cursor y on. */
  predicate RowsShaped(out: seq<Sticker>, layout: Layout, r: nat, y: int, width: int, height: int) {
    |out| <= (layout.rows - r) * layout.cols && InGridOrder(out) &&
    forall i :: 0 <= i < |out| ==>
      r <= out[i].row < layout.rows && out[i].col < layout.cols &&
      y <= out[i].cell.y && CellInImage(out[i], width, height)
  }

  /** A settled row's stickers followed by the later rows' keep the shape. */
  lemma RowsShapedAppend(cells: seq<Sticker>, rest: seq<Sticker>, layout: Layout, r: nat, y: nat,
                         rowH: nat, cutY: int, width: int, height: int)
    requires r < layout.rows && y + rowH <= height && y + rowH <= cutY
    requires CellsShaped(cells, layout, r, 0, 0, y, rowH, width)
    requires RowsShaped(rest, layout, r + 1, cutY, width, height)
    ensures RowsShaped(cells + rest, layout, r, y, width, height)
  {
    OrderAppend(cells, rest);
    var out := cells + rest;
    assert forall i :: |cells| <= i < |out| ==> out[i] == rest[i - |cells|];
    assert (layout.rows - r) * layout.cols == (layout.rows - (r + 1)) * layout.cols + layout.cols;
  }

  /** CellsShape for the whole of row r. */
  lemma RowCellsShape(sheet: Sheet, layout: Layout, r: nat, y: nat, rowH: nat, cellH: nat)
    requires sheet.Valid() && y + rowH <= |sheet.mask|
    ensures var res := RowCells(sheet, layout, r, y, rowH, cellH);
            res.Success? ==> CellsShaped(res.value, layout, r, 0, 0, y, rowH, sheet.width)
    ensures var res := RowCells(sheet, layout, r, y, rowH, cellH);
            res.Success? && ContoursInCells(sheet) ==> forall s :: s in res.value ==> Inside(s.crop, s.cell)
  {
    CellsShape(sheet, layout, ColCounts(sheet, y, y + rowH), r, y, rowH, cellH, 0, 0);
  }

  /** A row of more than MinSpan lines keeps the shape of the rows below it. */
  lemma EmitShape(sheet: Sheet, layout: Layout, rowCounts: seq<nat>, clampCells: bool, r: nat, y: nat, cutY: nat)
    requires sheet.Valid() && |rowCounts| == |sheet.mask| && r < layout.rows
    requires cutY == NextCut(rowCounts, layout.rows, r, y) && cutY - y > MinSpan && y <= |rowCounts|
    requires var next := SliceRows(sheet, layout, rowCounts, clampCells, r + 1, cutY);
             next.Success? ==> RowsShaped(next.value, layout, r + 1, cutY, sheet.width, |sheet.mask|)
    requires var next := SliceRows(sheet, layout, rowCounts, clampCells, r + 1, cutY);
             next.Success? && ContoursInCells(sheet) ==> forall s :: s in next.value ==> Inside(s.crop, s.cell)
    ensures var res := SliceRows(sheet, layout, rowCounts, clampCells, r, y);
            res.Success? ==> RowsShaped(res.value, layout, r, y, sheet.width, |sheet.mask|)
    ensures var res := SliceRows(sheet, layout, rowCounts, clampCells, r, y);
            res.Success? && ContoursInCells(sheet) ==> forall s :: s in res.value ==> Inside(s.crop, s.cell)
  {
    var next := SliceRows(sheet, layout, rowCounts, clampCells, r + 1, cutY);
    var rowH := if cutY > |rowCounts| then |rowCounts| - y else cutY - y;
    var cellH := CellHeight(clampCells, cutY - y, rowH);
    var cells := RowCells(sheet, layout, r, y, rowH, cellH);
    RowsEmit(sheet, layout, rowCounts, clampCells, r, y, cutY, rowH, cells);
    RowCellsShape(sheet, layout, r, y, rowH, cellH);
    if cells.Success? && next.Success? {
      RowsShapedAppend(cells.value, next.value, layout, r, y, rowH, cutY, sheet.width, |sheet.mask|);
      if ContoursInCells(sheet) {
        CropsInsideAppend(cells.value, next.value);
      }
    }
  }

  lemma {:induction false} RowsShape(sheet: Sheet, layout: Layout, rowCounts: seq<nat>, clampCells: bool,
                                     r: nat, y: nat)
    requires sheet.Valid() && |rowCounts| == |sheet.mask| && r <= layout.rows
    ensures var res := SliceRows(sheet, layout, rowCounts, clampCells, r, y);
            res.Success? ==> RowsShaped(res.value, layout, r, y, sheet.width, |sheet.mask|)
    ensures var res := SliceRows(sheet, layout, rowCounts, clampCells, r, y);
            res.Success? && ContoursInCells(sheet) ==> forall s :: s in res.value ==> Inside(s.crop, s.cell)
    decreases layout.rows - r
  {
    if r == layout.rows {
      return;
    }
    var cutY := NextCut(rowCounts, layout.rows, r, y);
    var next := SliceRows(sheet, layout, rowCounts, clampCells, r + 1, cutY);
    RowsShape(sheet, layout, rowCounts, clampCells, r + 1, cutY);
    if r == layout.rows - 1 {
      assert next == Success([]);
    }
    if cutY - y <= MinSpan {
      RowsSkip(sheet, layout, rowCounts, clampCells, r, y, cutY);
    } else if y <= |rowCounts| {
      EmitShape(sheet, layout, rowCounts, clampCells, r, y, cutY);
    } else {
      RowsFail(sheet, layout, rowCounts, clampCells, r, y, cutY);
    }
  }

  /** The shape a successful walk guarantees, with cells asked for the
      unclamped or the clamped row height: at most rows x cols stickers in
      row-major order, one per cell at most, from cells that lie inside the
      image and do not overlap; with contours reported inside their cells
      every crop lies inside its cell. */
  predicate SlicedShape(sheet: Sheet, layout: Layout, out: seq<Sticker>) {
    |out| <= layout.rows * layout.cols && InGridOrder(out) &&
    (forall s :: s in out ==>
       s.row < layout.rows && s.col < layout.cols && CellInImage(s, sheet.width, |sheet.mask|))
  }

  lemma WalkShape(sheet: Sheet, layout: Layout, clampCells: bool)
    requires sheet.Valid()
    ensures var res := SliceRows(sheet, layout, RowCounts(sheet.mask), clampCells, 0, 0);
            res.Success? ==>
              SlicedShape(sheet, layout, res.value) &&
              (ContoursInCells(sheet) ==> forall s :: s in res.value ==> Inside(s.crop, s.cell))
  {
    RowsShape(sheet, layout, RowCounts(sheet.mask), clampCells, 0, 0);
  }

  /** A successful slice emits at most rows x cols stickers in row-major
      order, one per cell at most, from cells that lie inside the image and do
      not overlap; with contours reported inside their cells every crop lies
      inside its cell. */
  lemma SliceShape(sheet: Sheet, layout: Layout)
    requires sheet.Valid()
    ensures var res := Slice(sheet, layout);
            res.Success? ==>
              SlicedShape(sheet, layout, res.value) &&
              (ContoursInCells(sheet) ==> forall s :: s in res.value ==> Inside(s.crop, s.cell))
  {
    WalkShape(sheet, layout, false);
  }
}
