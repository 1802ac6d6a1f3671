# dreamsticker core in Dafny

This project models the computational core of dreamsticker, a tool that turns a generated
sticker sheet into individual LINE-style stickers, and proves properties of that model. It covers:

- **Background removal worker** (`services/utils.ts`, the functions inside `WORKER_SCRIPT`):
  - the RGB distance and `#RRGGBB` parsing of CSS Color Module Level 4, section 5.2;
  - the HSV green-screen rule;
  - the border-seeded flood fill that clears the alpha of reachable background pixels;
  - the alpha erosion;
  - the message handler's defaults.
- **Small helpers** (`services/utils.ts`): the `data:image/<subtype>;base64,` prefix of
  RFC 2397 section 3 (`stripMimeType`, `getMimeType`) and the font lookup `getFontFamily`.
- **Sequential dynamic grid slicer** (`services/opencvService.ts`, `processGreenScreenAndSlice`):
  - the row and column cut search;
  - span validity;
  - the contour-union trim;
  - the absolute crop;
  - the fit-and-centre arithmetic of each sticker.
- **Guards around the remote model** (`src/services/geminiService.ts`):
  - the local plan parser `parseStructuredStickerPlan`;
  - `validateResponse`;
  - the nearest-aspect-ratio choice;
  - the `callWithRetry` rule.
- **Sheet table and default list** (`types.ts`): `STICKER_SPECS`, `getStickerSpec`,
  `generateDefaultConfigs` and `DEFAULT_STICKER_CONFIGS`.

The flood fill, the erosion, the worker handler and the grid walk work by changing state step
by step, so they are methods over arrays or loops with invariants. Each one is proved equal to a
specification function, and the properties are lemmas about those functions. The classifiers,
the string helpers, the plan-line match, the guards and the tables are functions and lemmas.

Modules, one per file:

- `Wrappers`: Option and Result.
- `JsText`: the JavaScript string built-ins the source relies on:
  - the white-space set of ECMA-262 sections 12.2 and 12.3;
  - `trim`, `includes` and `split`;
  - ASCII lower-casing and decimal numerals.
- `ColorRules`, `ColorFindings`: pixel classifiers.
- `PixelGrid`: RGBA layout.
- `FloodFill`, `Erosion`, `Worker`: the worker.
- `DataUrl`: data URLs and fonts.
- `GridSlicer`, `SlicerProperties`, `SlicerFindings`: the slicer.
- `PlanParser`, `GeminiGuards`: `src/services/geminiService.ts`.
- `StickerTypes`: `types.ts`.

The model follows the code as it stands, including these behaviours:

- The row search window starts at `max(currentY + 10, floor(targetY - 0.25 avgH))`.
- A span of 10 pixels or less is skipped on either axis.
- When the window is empty, the cut is `floor(target)`. That can lie past the last line of the
  image, so the cuts are not always inside `[0, height)`.
- A row cut past the image has its region clamped to the image, but its cells are still asked
  for the unclamped height, and OpenCV then rejects the cell region (see Findings).
- A row region with no lines is an empty 0 x 0 matrix, so a column scan or a cell region in it
  is rejected by OpenCV.
- In the hue formula, the red and blue sector offsets are exchanged (see Findings). The flood
  fill and the worker classify with this hue as written.

## Model

| member | source | states |
|---|---|---|
| ColorRules.SqDistanceFacts | services/utils.ts:9-11 | The colour distance is symmetric and never negative. It is zero exactly on equal colours. |
| ColorRules.WithinDistanceMatchesSqrt | services/utils.ts:80-81 | For the true distance d, the test `d <= limit` agrees with the squared comparison the model uses. |
| ColorRules.HexToRgb | services/utils.ts:13-20 | A colour is returned exactly for an optional `#` followed by six hexadecimal digits of either case. Any other string gives none. |
| ColorRules.HexRoundTrip | services/utils.ts:13-20 | Every colour parses back from its lower-case `#rrggbb` spelling. |
| ColorRules.HexToRgbCanonical | services/utils.ts:13-20 | Parsing keeps everything but the `#` and the letter case: re-spelling the parsed colour gives `#` plus the lower-cased digits. |
| ColorRules.HueSectors | services/utils.ts:24-33 | The hue as written: a grey pixel gets 0, green as the largest channel gets [60, 180], red as the strict largest gets [180, 300], and blue as the strict largest gets a hue within 60 degrees of 0. |
| ColorRules.HsvRuleShape | services/utils.ts:41-49 | A pixel is background only if green beats red and blue by the purity multiplier `1.1 (1 - tol/200)`. Given that, a dominant green (`g > r+20`, `g > b+20`, `g > 60`) is always background. |
| ColorRules.GreyIsNeverBackground | services/utils.ts:44-49 | A grey pixel is never background under the HSV rule, at any tolerance. |
| ColorRules.HsvMonotoneInTolerance | services/utils.ts:38-65 | Raising the tolerance never turns an HSV-background pixel into foreground. |
| ColorRules.ClassifierChoice | services/utils.ts:71-83 | The HSV rule decides exactly when the target lower-cases to `#00ff00`. Otherwise a pixel is background iff its distance to the parsed target (black when unparsable) is at most `442 tol/100`. |
| ColorRules.ClassifierMonotoneInTolerance | services/utils.ts:71-83 | Under either rule, a higher tolerance never shrinks the background. |
| ColorFindings.IntendedHue | services/utils.ts:28-32 | The corrected hue of the hue finding, the standard conversion: it lies in [0, 360) and agrees with the hue as written whenever green is the largest channel. |
| ColorFindings.IntendedHueSectors | services/utils.ts:28-32 | The corrected hue gives each sector to the largest channel: red near 0/360, green in [60, 180], blue in [180, 300]. |
| ColorFindings.AsWrittenSwapsRedAndBlue | services/utils.ts:29-31 | As written, pure red gets hue 240 and pure blue gets hue 0. The standard hues are 0 and 240. |
| ColorFindings.AsWrittenKeysOutPink | services/utils.ts:28-65 | At tolerance 100, the pinkish (200, 150, 195) is keyed out by the rule as written but not by the corrected rule. |
| ColorFindings.AsWrittenKeepsYellowAtDefault | services/utils.ts:28-65 | At the worker's default tolerance 20, the yellow (200, 199, 0) is kept by the rule as written but would be keyed out by the corrected rule. |
| ColorFindings.AsWrittenAgreesUpToPurityOne | services/utils.ts:44-52 | Up to tolerance 200/11 the purity check forces green to be the largest channel, so the rule as written and the corrected rule agree. |
| PixelGrid.CoordsOfOffset | services/utils.ts:119-120 | `offset % w` and `floor(offset / w)` give the in-grid pixel whose offset is `offset`. |
| FloodFill.InitialStack | services/utils.ts:91-104 | The initial stack holds exactly the seeds: the four corners and every tenth pixel along each border. |
| FloodFill.NeighboursToPush | services/utils.ts:122-126 | Only 4-neighbours are pushed. Every 4-neighbour is either visited or pushed. |
| FloodFill.FloodedIsBackground | services/utils.ts:116-117 | Every cleared pixel is classified as background. |
| FloodFill.SeedFlooded | services/utils.ts:97-104 | Every background seed is cleared. |
| FloodFill.FloodSpreads | services/utils.ts:122-126 | A background 4-neighbour of a cleared pixel is cleared. |
| FloodFill.FloodedLeast | services/utils.ts:106-127 | The cleared set is the least set containing the background seeds and closed under background adjacency. So it is exactly the background pixels reachable from the border. |
| FloodFill.EnclosedKept | services/utils.ts:106-127 | Pixels of a region with no seed, fenced by foreground pixels, keep every byte. |
| FloodFill.SameColoursSameFlood | services/utils.ts:112-116 | The fill reads only colour bytes: two buffers that differ only in alpha clear the same pixels. |
| FloodFill.FloodIdempotent | services/utils.ts:106-127 | Running the fill on its own output changes nothing. |
| FloodFill.RemoveBgFloodFill | services/utils.ts:69-130 | The stack-and-visited loop on the RGBA array, classifying with the rule of lines 71-83 as written, leaves exactly the buffer the reachability specification describes. It terminates because each pixel is visited once. |
| Erosion.ErodeOnceOnlyClears | services/utils.ts:137-155 | A round changes only alpha bytes, and only to 0. |
| Erosion.ErodeOnlyClears | services/utils.ts:133-157 | Any number of rounds keeps the colour bytes and the border pixels. Alpha is never raised. |
| Erosion.NoStrengthNoErosion | services/utils.ts:134 | With strength 0 or less the image is returned unchanged. |
| Erosion.ErodeOnceExact | services/utils.ts:142-153 | In a round, an interior opaque pixel with a transparent 4-neighbour in the snapshot turns transparent. Every other pixel keeps its alpha. |
| Erosion.ErodeOnceKeeps | services/utils.ts:142-153 | An opaque pixel whose four neighbours are opaque survives a round, and so does every border pixel. |
| Erosion.ErodeOpaqueShrinks | services/utils.ts:138-155 | The opaque pixels after k+1 rounds are among those after k rounds. |
| Erosion.AlphaSnapshot | services/utils.ts:139-140 | The snapshot holds the alpha of every pixel at the start of the round. |
| Erosion.ErodeRound | services/utils.ts:139-154 | The nested loops over the array perform exactly one round, each decision read from the snapshot. |
| Erosion.ApplyErosion | services/utils.ts:133-157 | The method applies exactly `strength` rounds to the array, and none when strength is 0 or less. |
| Worker.OnMessage | services/utils.ts:160-177 | The handler always runs the flood fill with the defaulted colour and tolerance, then erodes only when the strength is positive. |
| Worker.ProcessedOnlyClears | services/utils.ts:160-177 | The handler never changes a colour byte and never raises an alpha. A pixel the fill does not reach changes only if it is interior. |
| Worker.DefaultsSelectGreenScreen | services/utils.ts:166-167 | Missing or falsy settings key out the green screen with the HSV rule at tolerance 20. So does `#00FF00`. |
| DataUrl.MatchSubtypeComplete | services/utils.ts:186-188 | Whenever the string starts with `data:image/`, a `\w+` subtype and `;base64,`, the match finds exactly that subtype. |
| DataUrl.NoMatchIffNoPrefix | services/utils.ts:186-188 | The match fails exactly when no subtype forms such a prefix. |
| DataUrl.StripMimeType | services/utils.ts:186 | With a match, the input is the prefix followed by the result. Without one, the input is returned unchanged. |
| DataUrl.GetMimeType | services/utils.ts:187-190 | The result is `image/` plus the matched subtype, or `image/png` without a match. |
| DataUrl.DataUrlRoundTrip | services/utils.ts:186-190 | A data URL built from a subtype and a payload yields that payload and that MIME type. |
| DataUrl.NonDataUrlUnchanged | services/utils.ts:186-190 | A string not starting with `data:image/` is kept, and its type is `image/png`. |
| DataUrl.GetFontFamily | services/utils.ts:289-301 | The custom font is returned exactly when the style contains "Custom" and the font is non-empty. Otherwise the family of the first listed name the style contains is returned, or Noto Sans TC when there is none. |
| GridSlicer.EarliestMinUnique | services/opencvService.ts:157-172 | The earliest position of the least count is unique. |
| GridSlicer.MakeAxisMatchesAverage | services/opencvService.ts:139-153 | The integer window offsets equal the source's `floor(current + avg -/+ 0.25 avg)` and `floor(current + avg)` in exact arithmetic. |
| GridSlicer.CutBounds | services/opencvService.ts:147-173 | A non-empty window yields a cut with `current + 10 <= cut <= total - 1`. An empty window yields `floor(current + avg)`. |
| GridSlicer.CutIsEarliestLeastLine | services/opencvService.ts:157-172 | The cut is the first empty line of the window if there is one. Otherwise it is the earliest line with the fewest foreground pixels. |
| GridSlicer.FindCut | services/opencvService.ts:146-173 | The window scan loop, with its early exit on an empty line, returns the specified cut. |
| GridSlicer.ScanWindow | services/opencvService.ts:157-172 | The scan of a non-empty window returns the earliest least-count line. |
| GridSlicer.TightRect | services/opencvService.ts:236-251 | There is no box exactly when no contour box is at least 5 by 5. Otherwise the box qualifies itself. |
| GridSlicer.TightRectContainsAll | services/opencvService.ts:238-251 | The union box contains every qualifying contour box. |
| GridSlicer.TightRectEdgesAttained | services/opencvService.ts:245-249 | Each edge of the union box is an edge of some qualifying box, so it is the smallest such box. |
| GridSlicer.TightBox | services/opencvService.ts:236-251 | The contour loop computes the union box. |
| GridSlicer.FitIntoKeepsAspectAndCentres | services/opencvService.ts:300-312 | The drawn rectangle keeps the crop's aspect ratio and is centred. When the padded area is not negative, it fits inside it and touches it on one axis. |
| GridSlicer.RowRoiFits | services/opencvService.ts:181-185 | The clamped row region lies in the image exactly when the row starts inside it. Its height is `min(h, totalH - currentY)`. |
| GridSlicer.CellRoiFits | services/opencvService.ts:225-229 | In a row whose region has lines and columns, the cell region, its width clamped, fits the row matrix exactly when the cell starts inside the image and the height it asks for is at most the row's. |
| GridSlicer.CellsScanFail | services/opencvService.ts:197-204 | A column scan whose window starts past the row matrix (an empty row region) rejects the slice. |
| GridSlicer.CellStickersOf | services/opencvService.ts:256-320 | A cell with no qualifying box emits nothing. Otherwise it emits one sticker whose crop is the union box shifted by the cell origin. |
| GridSlicer.TrimAndFit | services/opencvService.ts:229-320 | Trimming and fitting one cell emits the stickers the specification gives. |
| GridSlicer.NextCut | services/opencvService.ts:143-146 | The last row or column ends at the image edge without a search. Earlier ones end at a searched cut that is never before the cursor. |
| GridSlicer.SliceRow | services/opencvService.ts:187-325 | The column walk of one row, which skips narrow spans, rejects a column scan or cell region that leaves the row matrix, and advances the cursor to every cut, produces the row's specified stickers or error. |
| GridSlicer.WalkRow | services/opencvService.ts:142-331 | One step of the row walk, which skips short rows, clamps the row region and asks its cells for the unclamped height, matches the specification of the walk as written. |
| GridSlicer.SliceGrid | services/opencvService.ts:128-338 | The nested row and column loops return exactly the specified result of the whole walk. |
| SlicerProperties.SliceShape | services/opencvService.ts:142-331 | A successful slice emits at most rows times cols stickers in row-major order, at most one per cell. Its cells lie in the image and do not overlap. When contours are reported inside their cells, every crop lies in its cell. |
| SlicerProperties.WalkShape | services/opencvService.ts:142-331 | The guarantees of SliceShape hold whether cells are asked for the unclamped or the clamped row height. |
| SlicerProperties.TightRectWithin | services/opencvService.ts:238-251 | When every qualifying box lies within a bound, so does the union box. |
| SlicerFindings.AsWrittenCellOverrunsClampedRow | services/opencvService.ts:176-229 | In a row that starts inside the image and is cut below it, the cell region asked for the unclamped height overruns the clamped row matrix. The cell region asked for the clamped height fits. |
| SlicerFindings.StripedSheetCutsBelowImage | services/opencvService.ts:143-173 | On an 84-line striped sheet cut into 7 rows, the sixth row's cut is line 87, past the image. |
| SlicerFindings.StripedSheetAsWrittenFails | services/opencvService.ts:142-331 | On that sheet cut into 7 rows of 1 column, the walk as written is rejected at the sixth row's cell. |
| SlicerFindings.StripedSheetCorrectedSucceeds | services/opencvService.ts:142-331 | The corrected walk gets through the same sheet. |
| SlicerFindings.CorrectedSliceShape | services/opencvService.ts:142-331 | The corrected walk keeps every guarantee of SliceShape. |
| SlicerFindings.AsWrittenSuccessIsCorrected | services/opencvService.ts:176-229 | Wherever the walk as written succeeds, the corrected walk returns the same stickers. |
| PlanParser.MatchPlanLine | src/services/geminiService.ts:773 | A match is a valid split of the line into head, text, CN group and EN group, and no valid split is tried before it. There is no match exactly when no split is valid. |
| PlanParser.ParsePlanLine | src/services/geminiService.ts:776-784 | A line yields an idea exactly when its trimmed form matches the pattern to the end of the line. The three fields are trimmed. |
| PlanParser.FilterMapFaithful | src/services/geminiService.ts:775-784 | The loop's output has at most one value per line. Every value comes from a line, and every accepted line contributes its value. |
| PlanParser.BlankLinesChangeNothing | src/services/geminiService.ts:768-784 | Dropping blank lines first does not change the result, because blank lines never match. |
| PlanParser.ParsedPlanFromLines | src/services/geminiService.ts:767-786 | There are no more ideas than non-blank lines. Every idea comes from a line, and every matching line contributes its idea. |
| PlanParser.CollectIdeas | src/services/geminiService.ts:775-784 | The loop pushes, in line order, the idea of every line the match accepts. |
| PlanParser.ParseStructuredStickerPlan | src/services/geminiService.ts:767-786 | The function returns the ideas of the matching non-blank lines in line order. |
| PlanParser.ParseExample | src/services/geminiService.ts:773-783 | `1. Hi (a) (b)` parses to the idea ("Hi", "a", "b"). |
| GeminiGuards.CallWithRetry | src/services/geminiService.ts:40-48 | The outcome is that of the last call made, and there are at most `retries` waits. Every earlier call failed with status 429 or 503 or an "overloaded" message. The first wait is the delay and each later wait is twice the previous one. The calls stop early only on a success or on an error not worth retrying. |
| GeminiGuards.DefaultRetryBudget | src/services/geminiService.ts:40 | With the defaults there are at most three calls, with waits of 2000 and then 4000 ms. |
| GeminiGuards.NonRetryableNotRetried | src/services/geminiService.ts:43-46 | An error not worth retrying is passed on at once. |
| GeminiGuards.ValidateResponse | src/services/geminiService.ts:50-59 | The guard fails exactly when there is no first candidate, and separately exactly when that candidate finished for SAFETY. Otherwise it returns `candidates[0]`. |
| GeminiGuards.GridShape | src/services/geminiService.ts:547-548 | A non-zero count of a present layout is kept. A missing layout, or a zero column or row count, falls back to 4 columns or 2 rows. |
| GeminiGuards.BestRatioIndex | src/services/geminiService.ts:551-555 | The chosen ratio is as close to cols/rows as any supported ratio, and strictly closer than every earlier one, so ties go to the earlier entry. |
| GeminiGuards.TargetRatio | src/services/geminiService.ts:556 | The target ratio is never 0. |
| GeminiGuards.BestAspectRatioTarget | src/services/geminiService.ts:555-556 | The target ratio is the chosen ratio's own value. |
| GeminiGuards.DefaultGridIsWide | src/services/geminiService.ts:547-555 | The default 4 by 2 grid is sent as 16:9. |
| GeminiGuards.FortyStickerGridIsTall | src/services/geminiService.ts:551-555 | The 5 by 8 grid is sent as 9:16. |
| StickerTypes.StickerSpecsWellShaped | types.ts:81-87 | Every entry has cols times rows equal to its key, width 370 per column and height 320 per row. |
| StickerTypes.GetStickerSpecShape | types.ts:81-91 | The returned sheet is always well shaped. It holds exactly the requested count iff that count is listed, and the 8-sticker sheet otherwise. |
| StickerTypes.DefaultConfigsContent | types.ts:115-145 | The list has the requested length. The ids are the decimals 1 to n in order. Entry i takes its texts from base i mod 16, and only the first 16 show their text. |
| StickerTypes.DefaultConfigIdsDistinct | types.ts:135-138 | No two configurations share an id. |
| StickerTypes.DefaultStickerConfigsShape | types.ts:147 | The default list has eight entries, with ids "1" to "8", all showing their text. |
| JsText.Trim | src/services/geminiService.ts:768 | Trimming removes the white-space runs at both ends and nothing else. |
| JsText.TrimEmptyIffWhite | src/services/geminiService.ts:768 | A line trims to empty exactly when it is all white space. |
| JsText.Includes | services/utils.ts:290 | `includes` holds exactly when the substring occurs at some position. |
| JsText.JoinSplit | src/services/geminiService.ts:768 | Joining the pieces of a split with the separator gives back the text. |
| JsText.NatToStringRoundTrip | types.ts:138 | The decimal numeral of n reads back as n. |

## Left out

- OpenCV internals are not modelled:
  - reading the image, the colour conversions and corner sampling, `inRange`, `bitwise_not` and the morphological opening that build the mask (services/opencvService.ts:64-126);
  - `findContours` (232-234).
- The slicer instead takes the cleaned mask and, per cell, the contour boxes as inputs.
- The Gaussian alpha smoothing, `imshow`, canvas `drawImage` and the PNG data URL are not modelled (270-315). A sticker is described by its cell, its crop and the rectangle it is drawn into.
- Worker, Blob and `postMessage` plumbing are not modelled. `OnMessage` works on the RGBA buffer in place.
- `removalMode` is not modelled, because the condition that reads it is always true.
- The network calls are not modelled. The remote call inside `callWithRetry` is a scripted outcome per attempt, and the awaited waits are recorded as a list of delays.
- The prompt texts of `src/services/geminiService.ts` are not modelled.
- Numbers are modelled as unbounded integers and exact reals, not IEEE doubles:
  - distances are compared squared instead of taking `Math.sqrt`;
  - NaN tolerances are not modelled.
- Lower-casing covers ASCII letters only. `#00ff00` and hex digits are ASCII.
- `erodeStrength` and the sticker quantity are integers. Non-integer values (which `Array.from` truncates) are not modelled.
- GeminiGuards.ValidateResponse: a candidate list with a `null` first entry is not modelled. It would also be rejected as "no candidates".
- GeminiGuards.CallWithRetry: an error that is not an object is not modelled. Its status and message are read as missing.
- StickerTypes.GetStickerSpec: only integer counts are modelled. Other keys of the lookup fall back the same way.
- The UI (React components, `App.tsx`), `resizeImage`, `applyColorFilter`, `extractDominantColors` and `generateFrameZip` are not part of this model.

## Findings

The model keeps both behaviours below as written. Each corrected definition is proved beside it,
together with a lemma on the inputs where the two part.

| source | as written | input that shows it | evidently intended | confidence | as-written member | corrected member |
|---|---|---|---|---|---|---|
| services/opencvService.ts:225 | The cell region uses the row height `h` before the clamp of line 183. When a row's cut lies past the image, `rowMask.roi` throws and the whole slice is rejected. | An 84 x 11 mask with empty lines 0, 15, 30, 45, 60, 75, cut into 7 rows of 1 column. The sixth row runs from line 75 to cut 87, so the row region is clamped to 9 lines while the cell region asks for 12. | The cell region uses the clamped row height. | not executed | GridSlicer.SliceGrid, SlicerFindings.StripedSheetAsWrittenFails | SlicerFindings.CorrectedSlice, SlicerFindings.CorrectedSliceShape |
| services/utils.ts:29-31 | The red sector adds 4 and the blue sector adds nothing, so red hues land near 240 and blue hues near 0. | (200, 150, 195) at tolerance 100: the rule as written keys this pink out as green screen. (200, 199, 0) at the worker's default tolerance 20: the rule as written keeps this yellow. | The standard hue: red sector `(g-b)/delta mod 6`, blue sector `(r-g)/delta + 4`. | not executed | ColorRules.Hue, ColorFindings.AsWrittenKeysOutPink | ColorFindings.IntendedHue, ColorFindings.IntendedHueSectors |
