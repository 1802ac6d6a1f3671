/** A row whose cut falls below the image. When the search window of a row
    is empty the cut is floor(currentY + avgH), which can lie past the last
    line once the cursor is near the bottom (seven rows or more). The row
    region is then clamped to the image (line 183), but the cell region is
    built with the unclamped row height (line 225) and so overruns the row
    region, which makes cv.Mat.roi throw and the whole slice fail.
    GridSlicer.Slice keeps that failure; CorrectedSlice asks every cell for
    the clamped height instead, which is what the clamp evidently intends. */
module SlicerFindings {
  import opened Wrappers
  import opened GridSlicer
  import opened SlicerProperties

  /** The walk with every cell as high as its row's clamped region. */
  function CorrectedSlice(sheet: Sheet, layout: Layout): Result<seq<Sticker>, SliceError>
    requires sheet.Valid()
  {
    SliceRows(sheet, layout, RowCounts(sheet.mask), true, 0, 0)
  }

  /** The corrected walk keeps every guarantee of the walk as written: row-major
      order, at most one sticker per cell, cells inside the image and crops
      inside their cells. */
  lemma CorrectedSliceShape(sheet: Sheet, layout: Layout)
    requires sheet.Valid()
    ensures var res := CorrectedSlice(sheet, layout);
            res.Success? ==>
              SlicedShape(sheet, layout, res.value) &&
              (ContoursInCells(sheet) ==> forall s :: s in res.value ==> Inside(s.crop, s.cell))
  {
    WalkShape(sheet, layout, true);
  }

  /** Where the walk as written succeeds, the corrected walk gives the same
      stickers: the two differ only on sheets the source rejects. */
  lemma AsWrittenSuccessIsCorrected(sheet: Sheet, layout: Layout)
    requires sheet.Valid() && Slice(sheet, layout).Success?
    ensures CorrectedSlice(sheet, layout) == Slice(sheet, layout)
  {
    RowsAgree(sheet, layout, RowCounts(sheet.mask), 0, 0);
  }

  lemma {:induction false} RowsAgree(sheet: Sheet, layout: Layout, rowCounts: seq<nat>, r: nat, y: nat)
    requires sheet.Valid() && |rowCounts| == |sheet.mask| && r <= layout.rows
    requires SliceRows(sheet, layout, rowCounts, false, r, y).Success?
    ensures SliceRows(sheet, layout, rowCounts, true, r, y) == SliceRows(sheet, layout, rowCounts, false, r, y)
    decreases layout.rows - r
  {
    if r == layout.rows {
      return;
    }
    var cutY := NextCut(rowCounts, layout.rows, r, y);
    if cutY - y <= MinSpan {
      RowsSkip(sheet, layout, rowCounts, false, r, y, cutY);
      RowsSkip(sheet, layout, rowCounts, true, r, y, cutY);
      RowsAgree(sheet, layout, rowCounts, r + 1, cutY);
    } else if y <= |rowCounts| {
      EmitAgree(sheet, layout, rowCounts, r, y, cutY);
      RowsAgree(sheet, layout, rowCounts, r + 1, cutY);
    }
  }

  /** A row of more than 10 lines that the walk as written gets through is
      sliced alike by both walks. */
  lemma EmitAgree(sheet: Sheet, layout: Layout, rowCounts: seq<nat>, r: nat, y: nat, cutY: nat)
    requires sheet.Valid() && |rowCounts| == |sheet.mask| && r < layout.rows
    requires cutY == NextCut(rowCounts, layout.rows, r, y) && cutY - y > MinSpan && y <= |rowCounts|
    requires SliceRows(sheet, layout, rowCounts, false, r, y).Success?
    ensures SliceRows(sheet, layout, rowCounts, false, r + 1, cutY).Success?
    ensures SliceRows(sheet, layout, rowCounts, true, r + 1, cutY) == SliceRows(sheet, layout, rowCounts, false, r + 1, cutY)
            ==> SliceRows(sheet, layout, rowCounts, true, r, y) == SliceRows(sheet, layout, rowCounts, false, r, y)
  {
    var h := cutY - y;
    var rowH := if cutY > |rowCounts| then |rowCounts| - y else h;
    var asWritten := RowCells(sheet, layout, r, y, rowH, h);
    var corrected := RowCells(sheet, layout, r, y, rowH, rowH);
    var restAsWritten := SliceRows(sheet, layout, rowCounts, false, r + 1, cutY);
    assert SliceRows(sheet, layout, rowCounts, false, r, y)
           == if asWritten.Failure? then Failure(asWritten.error) else Prepend(asWritten.value, restAsWritten) by {
      RowsEmit(sheet, layout, rowCounts, false, r, y, cutY, rowH, asWritten);
    }
    assert asWritten.Success? && restAsWritten.Success?;
    RowCellsAgree(sheet, layout, r, y, rowH, h);
    RowsEmit(sheet, layout, rowCounts, true, r, y, cutY, rowH, corrected);
  }

  /** A row whose cells succeed when asked for h lines gives the same cells
      when they are asked for the row's own height rowH <= h. */
  lemma RowCellsAgree(sheet: Sheet, layout: Layout, r: nat, y0: nat, rowH: nat, h: nat)
    requires sheet.Valid() && y0 + rowH <= |sheet.mask| && rowH <= h
    requires RowCells(sheet, layout, r, y0, rowH, h).Success?
    ensures RowCells(sheet, layout, r, y0, rowH, rowH) == RowCells(sheet, layout, r, y0, rowH, h)
  {
    CellsAgree(sheet, layout, ColCounts(sheet, y0, y0 + rowH), r, y0, rowH, h, 0, 0);
  }

  /** In a row, cells asked for at least the row's height succeed only when
      no cell region is built or the two heights are equal. */
  lemma {:induction false} CellsAgree(sheet: Sheet, layout: Layout, colCounts: seq<nat>, r: nat, y0: nat,
                                      rowH: nat, cellH: nat, c: nat, x: nat)
    requires c <= layout.cols && rowH <= cellH
    requires SliceCells(sheet, layout, colCounts, r, y0, rowH, cellH, c, x).Success?
    ensures SliceCells(sheet, layout, colCounts, r, y0, rowH, rowH, c, x)
            == SliceCells(sheet, layout, colCounts, r, y0, rowH, cellH, c, x)
    decreases layout.cols - c
  {
    if c == layout.cols || rowH == cellH {
      return;
    }
    var matW := RoiSize(|colCounts|, rowH).0;
    if ScanLeavesRow(colCounts, layout.cols, c, x, matW) {
      CellsScanFail(sheet, layout, colCounts, r, y0, rowH, cellH, c, x);
      return;
    }
    var cutX := NextCut(colCounts, layout.cols, c, x);
    if cutX - x <= MinSpan {
      CellsSkip(sheet, layout, colCounts, r, y0, rowH, cellH, c, x, cutX);
      CellsSkip(sheet, layout, colCounts, r, y0, rowH, rowH, c, x, cutX);
      CellsAgree(sheet, layout, colCounts, r, y0, rowH, cellH, c + 1, cutX);
    } else {
      CellsFail(sheet, layout, colCounts, r, y0, rowH, cellH, c, x, cutX);
    }
  }

  /** In a row cut below the image, the row region still fits the image but
      the cell region as written, asked for the unclamped height, overruns
      the row matrix, while the corrected cell region fits it whenever the
      cell starts inside the image. */
  lemma AsWrittenCellOverrunsClampedRow(totalW: nat, totalH: nat, currentY: nat, cutY: nat,
                                        currentX: nat, w: int)
    requires currentY < totalH < cutY && cutY - currentY > MinSpan && w > MinSpan && totalW > 0
    ensures var h := cutY - currentY;
            var row := RowRoi(totalW, totalH, currentY, h);
            var (matW, matH) := RoiSize(row.w, row.h);
            RoiFits(totalW, totalH, row) && matH < h &&
            !RoiFits(matW, matH, CellRoi(totalW, h, currentX, w)) &&
            (currentX <= totalW ==> RoiFits(matW, matH, CellRoi(totalW, row.h, currentX, w)))
  {
    var h := cutY - currentY;
    RowRoiFits(totalW, totalH, currentY, h);
    var row := RowRoi(totalW, totalH, currentY, h);
    assert row.h == totalH - currentY < h;
    CellRoiFits(totalW, row.h, h, currentX, w);
    CellRoiFits(totalW, row.h, row.h, currentX, w);
  }

  /** A line of identical pixels counts all or none of them. */
  lemma {:induction false} CountUniform(s: seq<bool>, b: bool)
    requires forall i :: 0 <= i < |s| ==> s[i] == b
    ensures CountTrue(s) == if b then |s| else 0
  {
    if s != [] {
      CountUniform(s[1..], b);
    }
  }

  /** An 84 x 11 mask whose lines 0, 15, 30, 45, 60 and 75 are background. */
  function StripedMask(): (mask: seq<seq<bool>>)
    ensures |mask| == 84 && forall y :: 0 <= y < 84 ==> |mask[y]| == 11
  {
    seq(84, y => seq(11, x => y % 15 != 0))
  }

  lemma StripedCounts()
    ensures var counts := RowCounts(StripedMask());
            forall y :: 0 <= y < 84 ==> counts[y] == if y % 15 == 0 then 0 else 11
  {
    var mask := StripedMask();
    forall y | 0 <= y < 84
      ensures CountTrue(mask[y]) == if y % 15 == 0 then 0 else 11
    {
      CountUniform(mask[y], y % 15 != 0);
    }
  }

  /** On the striped mask cut into 7 rows, the first five cuts fall on the
      background lines 15, 30, 45, 60 and 75; the sixth row's window is then
      empty, so its cut is 75 + 12 = 87, below the 84-line image. */
  lemma StripedSheetCutsBelowImage()
    ensures var counts := RowCounts(StripedMask());
            NextCut(counts, 7, 0, 0) == 15 && NextCut(counts, 7, 1, 15) == 30 &&
            NextCut(counts, 7, 2, 30) == 45 && NextCut(counts, 7, 3, 45) == 60 &&
            NextCut(counts, 7, 4, 60) == 75 && NextCut(counts, 7, 5, 75) == 87
  {
    var counts := RowCounts(StripedMask());
    StripedCounts();
    var axis := MakeAxis(84, 7);
    assert axis == Axis(9, 12, 15);
    GapCut(counts, 0, 15);
    GapCut(counts, 15, 30);
    GapCut(counts, 30, 45);
    GapCut(counts, 45, 60);
    GapCut(counts, 60, 75);
    CutBounds(counts, 75, axis);
  }

  /** With the striped counts, the window after `current` (a multiple of 15)
      is [current + 10, current + 15] and its only gap is current + 15. */
  lemma GapCut(counts: seq<nat>, current: nat, gap: nat)
    requires |counts| == 84 && forall y :: 0 <= y < 84 ==> counts[y] == if y % 15 == 0 then 0 else 11
    requires current % 15 == 0 && gap == current + 15 && gap <= 75
    ensures Cut(counts, current, MakeAxis(84, 7)) == gap
  {
    var axis := MakeAxis(84, 7);
    assert axis == Axis(9, 12, 15);
    assert SearchWindow(current, axis, 84) == (current + 10, current + 15);
    CutBounds(counts, current, axis);
    CutIsEarliestLeastLine(counts, current, axis);
    StripesBetweenGaps(counts, current);
    assert counts[gap] == 0;
  }

  /** Between two gaps of the striped counts every line holds foreground. */
  lemma StripesBetweenGaps(counts: seq<nat>, current: nat)
    requires |counts| == 84 && forall y :: 0 <= y < 84 ==> counts[y] == if y % 15 == 0 then 0 else 11
    requires current % 15 == 0
    ensures forall y :: current < y < current + 15 && y < 84 ==> counts[y] == 11
  {
    forall y | current < y < current + 15 && y < 84
      ensures counts[y] == 11
    {
      var k := current / 15;
      assert y == 15 * k + (y - current);
      assert y % 15 == y - current;
    }
  }

  function StripedSheet(): (sheet: Sheet)
    ensures sheet.Valid() && |sheet.mask| == 84 && sheet.width == 11
  {
    Sheet(StripedMask(), 11, _ => [])
  }

  const StripedLayout: Layout := Layout(7, 1, 370, 320)

  /** An 84-line sheet, 11 columns wide, on which no contour box is found. */
  ghost predicate BlankSheetShape(sheet: Sheet) {
    sheet.Valid() && |sheet.mask| == 84 && sheet.width == 11 && forall cell :: sheet.contours(cell) == []
  }

  /** The line counts of the striped mask. */
  predicate StripedLineCounts(counts: seq<nat>) {
    |counts| == 84 && forall y :: 0 <= y < 84 ==> counts[y] == if y % 15 == 0 then 0 else 11
  }

  /** The one cell of a row of such a sheet, in one column, spans the 11
      columns and has no contour box: it yields nothing when its region fits
      the row matrix and fails when the cell is taller than the row. */
  lemma StripedRowCells(sheet: Sheet, r: nat, y0: nat, rowH: nat, cellH: nat)
    requires BlankSheetShape(sheet) && 0 < rowH && y0 + rowH <= 84
    ensures cellH <= rowH ==> RowCells(sheet, StripedLayout, r, y0, rowH, cellH) == Success([])
    ensures cellH > rowH ==> RowCells(sheet, StripedLayout, r, y0, rowH, cellH) == Failure(CellRoiOutOfImage(r, 0))
  {
    var colCounts := ColCounts(sheet, y0, y0 + rowH);
    assert !ScanLeavesRow(colCounts, 1, 0, 0, 11);
    CellRoiFits(11, rowH, cellH, 0, 11);
    if cellH <= rowH {
      var roi := CellRoi(11, cellH, 0, 11);
      CellsEmit(sheet, StripedLayout, colCounts, r, y0, rowH, cellH, 0, 0, 11, roi);
      assert sheet.contours(InBand(roi, y0)) == [];
      PrependNothing(SliceCells(sheet, StripedLayout, colCounts, r, y0, rowH, cellH, 1, 11));
    } else {
      CellsFail(sheet, StripedLayout, colCounts, r, y0, rowH, cellH, 0, 0, 11);
    }
  }

  /** Each of the first five rows of the striped sheet is 15 lines high and
      yields nothing, whichever height its cell is asked for. */
  lemma StripedRowStep(sheet: Sheet, counts: seq<nat>, clampCells: bool, r: nat, y: nat)
    requires BlankSheetShape(sheet) && StripedLineCounts(counts)
    requires r < 5 && y == 15 * r
    ensures SliceRows(sheet, StripedLayout, counts, clampCells, r, y)
            == SliceRows(sheet, StripedLayout, counts, clampCells, r + 1, y + 15)
  {
    GapCut(counts, y, y + 15);
    StripedRowCells(sheet, r, y, 15, 15);
    RowsEmit(sheet, StripedLayout, counts, clampCells, r, y, y + 15, 15, Success([]));
    PrependNothing(SliceRows(sheet, StripedLayout, counts, clampCells, r + 1, y + 15));
  }

  /** From row k on, up to row 5, the striped sheet's rows yield nothing
      and the cursor reaches line 75. */
  lemma {:induction false} StripedRowsToFive(sheet: Sheet, counts: seq<nat>, clampCells: bool, k: nat, y: nat)
    requires BlankSheetShape(sheet) && StripedLineCounts(counts)
    requires k <= 5 && y == 15 * k
    ensures SliceRows(sheet, StripedLayout, counts, clampCells, k, y)
            == SliceRows(sheet, StripedLayout, counts, clampCells, 5, 75)
    decreases 5 - k
  {
    if k < 5 {
      StripedRowStep(sheet, counts, clampCells, k, y);
      StripedRowsToFive(sheet, counts, clampCells, k + 1, y + 15);
    }
  }

  /** The input that shows it: the striped sheet cut into 7 rows of 1 column.
      The sixth row starts at line 75 with the cut at 87, so its region is
      clamped to 9 lines while its cell is asked for 12 and cv.Mat.roi
      throws. */
  lemma StripedSheetAsWrittenFails()
    ensures Slice(StripedSheet(), StripedLayout) == Failure(CellRoiOutOfImage(5, 0))
  {
    var sheet := StripedSheet();
    var counts := RowCounts(StripedMask());
    StripedCounts();
    StripedSheetCutsBelowImage();
    StripedRowsToFive(sheet, counts, false, 0, 0);
    StripedRowCells(sheet, 5, 75, 9, 12);
    RowsEmit(sheet, StripedLayout, counts, false, 5, 75, 87, 9, Failure(CellRoiOutOfImage(5, 0)));
  }

  /** The corrected walk gets through the striped sheet and, there being no
      contours, emits nothing. */
  lemma StripedSheetCorrectedSucceeds()
    ensures CorrectedSlice(StripedSheet(), StripedLayout) == Success([])
  {
    var sheet := StripedSheet();
    var counts := RowCounts(StripedMask());
    StripedCounts();
    StripedSheetCutsBelowImage();
    StripedRowsToFive(sheet, counts, true, 0, 0);
    StripedRowCells(sheet, 5, 75, 9, 9);
    RowsEmit(sheet, StripedLayout, counts, true, 5, 75, 87, 9, Success([]));
    PrependNothing(SliceRows(sheet, StripedLayout, counts, true, 6, 87));
    RowsSkip(sheet, StripedLayout, counts, true, 6, 87, 84);
  }
}
