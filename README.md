# A grid of crosses, modelled in Dafny

`script.js` shows a canvas with a 7 by 7 grid of cells. Each cell is 70 pixels square and holds a cross ("plus" shape) with two parameters: an arm length (half the length of each bar) and a pen width (the stroke thickness). The user changes one cell at a time with the mouse:

- a left click widens the pen by one, up to 15;
- a right click narrows it by one, down to 0, where the cross disappears;
- the wheel lengthens the arms by one when scrolling up and shortens them otherwise, keeping them within 3 to 30.

Four sliders recompute every cell at once from a row gradient and a column gradient. After every change the page clears the canvas and redraws it.

The model has one module per component of the script:

- `Grid` holds the constants (`ROWS`, `COLS`, `CELL_SIZE`, `ARM_MIN`, `ARM_MAX`, `PEN_MIN`, `PEN_MAX`, the initial cell), the `Cell` value and the notion of a cell being in range.
- `Hit` maps a pixel to a cell (`getCell`) and holds the bounds filter the handlers apply.
- `Adjust` holds the clamped per-cell update each mouse handler applies, plus lemmas about repeated events.
- `Render` models `drawGrid` as a pure display list: the crosses, with their line widths and segments, that the 2D context receives after it is cleared.
- `Distribution` holds the slider arithmetic of `applyAllDistributions`.
- `Canvas` holds the mutable page state: class `CrossGrid` owns an `array2<Cell>`. Its event-handler methods change that array in place and return the frame they redraw (`None` when the event falls outside the grid and nothing is redrawn). `DrawGrid` and `ApplyAllDistributions` are the script's nested row and column loops, proved against the functions of `Render` and `Distribution`.

Two consequences of the code are worth stating:

- A right click floors the width at the literal 0, not at `PEN_MIN` (1). A cross can therefore become invisible, and a redraw then skips it.
- With all four sliders at 50, every cell gets arm length 3 + 27/4 = 9.75 and width 1 + 14/4 = 4.5. Each blend is 1/2, so their product is 1/4: the grid is uniform, a quarter of the way into each range, not at its middle. `Distribution.NeutralSlidersAreUniform` proves both facts.

Pixel coordinates and the wheel delta are real numbers (a browser reports fractional client coordinates), and `getCell` uses `Floor`. Cell values are exact reals, so they stand in for JavaScript doubles.

## Model

| member | source | states |
|---|---|---|
| `Hit.GetCell` | script.js:34-39 | the returned row and column are those of the cell square containing the point: `row * 70 <= y < (row + 1) * 70`, and likewise for the column with x |
| `Hit.OnGrid` | script.js:45 | no contract; defined as `0 <= row < 7 && 0 <= col < 7`; characterised on pixels by `Hit.OnGridIff` |
| `Hit.GetCellUnique` | script.js:34-39 | any cell whose square contains the point is the one GetCell returns |
| `Hit.OnGridIff` | script.js:34-45 | the handlers' bounds check accepts a point exactly when `0 <= x < 490` and `0 <= y < 490` |
| `Hit.GetCellExample` | script.js:34-39 | (40, 40) maps to row 0, column 0, which is on the grid |
| `Adjust.ClickedPen` | script.js:46 | a left click never exceeds PEN_MAX; it adds exactly 1 when the result fits (a start of 14 or less) and gives PEN_MAX otherwise |
| `Adjust.RightClickedPen` | script.js:57 | a right click never goes below 0; it takes exactly 1 when the result stays at 0 or above and gives 0 otherwise |
| `Adjust.ScrolledArm` | script.js:69-70 | the new arm length is always within [3, 30]; it is the stepped value when that fits, and otherwise the bound it crossed |
| `Adjust.WheelRule` | script.js:69-70 | on an in-range arm length, a negative deltaY gives `min(arm + 1, 30)` and any other deltaY, zero included, gives `max(3, arm - 1)` |
| `Adjust.ScrollExample` | script.js:69-70 | from 15, scrolling up gives 16 and scrolling down gives 14 |
| `Adjust.AdjustKeepsCellInRange` | script.js:46-70 | each of the three updates keeps a cell with width in [0, 15] and arm length in [3, 30] in that range |
| `Adjust.ClickedTimesIsCapped` | script.js:46 | n left clicks from a width at most 15 give `min(width + n, 15)` |
| `Adjust.RightClickedTimesIsFloored` | script.js:57 | n right clicks from a width of at least 0 give `max(width - n, 0)` |
| `Adjust.ScrolledManyInRange` | script.js:69-70 | any sequence of wheel events keeps an in-range arm length in [3, 30] |
| `Adjust.ScrolledUpIsCapped` | script.js:69-70 | k scroll-up events give `min(arm + k, 30)` |
| `Adjust.ScrolledDownIsFloored` | script.js:69-70 | k scroll-down (or zero-delta) events give `max(arm - k, 3)` |
| `Render.Center` | script.js:20-21 | no contract; defined as `(c * 70 + 70 / 2, r * 70 + 70 / 2)`; characterised by `Render.CenterHitsCell` |
| `Render.Visible` | script.js:19 | no contract; defined as the negation of `penWidth <= 0`; used by `Render.InvisibleCellNotDrawn` and `Render.DisplayListIsVisibleCells` |
| `Render.CrossAt` | script.js:20-28 | no contract; defined as the cross with line width penWidth and the two bars `moveTo`/`lineTo` strokes, armLength either side of the centre; characterised by `Render.CrossGeometry` |
| `Render.DisplayList` | script.js:14-31 | no contract; defined as the row-by-row concatenation of the crosses of the visible cells; characterised by `Render.DisplayListIsVisibleCells`, and `Canvas.CrossGrid.DrawGrid` is proved to compute it |
| `Render.CrossGeometry` | script.js:20-28 | a cross is stroked at the cell's pen width; its horizontal and vertical bars pass through the cell centre, each centred on it and 2 * armLength long |
| `Render.CenterHitsCell` | script.js:20-21 | the centre of cell (r, c) is (c * 70 + 35, r * 70 + 35), and GetCell maps it back to (r, c) |
| `Render.VisibleInRow` | script.js:17-19 | the visible positions of a row prefix are exactly the columns before c whose width is positive, in increasing column order |
| `Render.VisibleRows` | script.js:16-19 | the visible positions of the first r rows are exactly the cells there with positive width, in row-major order |
| `Render.DrawnInRowIsVisibleInRow` | script.js:17-29 | the inner loop draws one cross per visible cell of the row, in column order, and nothing else |
| `Render.DrawnRowsIsVisibleRows` | script.js:16-31 | the outer loop draws one cross per visible cell of the rows so far, in row-major order |
| `Render.DisplayListIsVisibleCells` | script.js:14-31 | a full redraw lists exactly the cells with positive width, each once, in row-major order; the j-th cross is the j-th such cell's cross |
| `Render.InvisibleCellNotDrawn` | script.js:19 | a cell whose width is 0 or less has no cross in the redraw |
| `Distribution.RowFactor` | script.js:81-82 | no contract; defined as `(100 - v) / 100`; characterised by `Distribution.FactorsInUnit` |
| `Distribution.ColFactor` | script.js:83-84 | no contract; defined as `v / 100`; characterised by `Distribution.FactorsInUnit` |
| `Distribution.RowInterp` | script.js:87-88 | no contract; defined as `f * (1 - r / 6) + (1 - f) * (r / 6)`; characterised by `Distribution.InterpsInUnit` and `Distribution.InterpEndpoints` |
| `Distribution.ColInterp` | script.js:90-91 | no contract; defined as `g * (c / 6) + (1 - g) * (1 - c / 6)`; characterised by `Distribution.InterpsInUnit` and `Distribution.InterpEndpoints` |
| `Distribution.Mix` | script.js:93-94 | no contract; defined as the product of the row blend and the column blend; characterised by `Distribution.MixInUnit` |
| `Distribution.Lerp` | script.js:96-97 | no contract; defined as `lo + t * (hi - lo)`; characterised by `Distribution.LerpInRange` |
| `Distribution.DistributedCell` | script.js:81-97 | no contract; defined as the cell whose arm length and width are the two Lerps of the arm and pen mixes; characterised by `Distribution.DistributedCellInRange`, `Distribution.NeutralSlidersAreUniform` and `Distribution.RangeBoundsAttained` |
| `Distribution.FactorsInUnit` | script.js:81-84 | a slider value in [0, 100] gives row and column factors in [0, 1] |
| `Distribution.MulNonNegative` | script.js:87-94 | proof step toward `BlendInUnit` and `ProductInUnit`: a product of two non-negative reals is non-negative |
| `Distribution.BlendInUnit` | script.js:87-91 | proof step toward `InterpsInUnit` and `MixInUnit`: a blend of f and 1 - f with a weight in [0, 1] lies in [0, 1] |
| `Distribution.InterpsInUnit` | script.js:87-91 | the row and column interpolants lie in [0, 1] on every row and column of the grid |
| `Distribution.ProductInUnit` | script.js:93-94 | proof step toward `MixInUnit`: the product of two interpolants in [0, 1] lies in [0, 1] |
| `Distribution.MixInUnit` | script.js:86-94 | every cell's arm and pen mix lies in [0, 1] for sliders in [0, 100] |
| `Distribution.LerpInRange` | script.js:96-97 | proof step toward `DistributedCellInRange`: a mix in [0, 1] places the value between the minimum and the maximum of its range |
| `Distribution.DistributedCellInRange` | script.js:80-98 | for sliders in [0, 100], every cell gets an arm length in [3, 30] and a width in [1, 15] |
| `Distribution.InterpEndpoints` | script.js:87-91 | the row blend is f at row 0 and 1 - f at row 6; the column blend is 1 - g at column 0 and g at column 6 |
| `Distribution.NeutralSlidersAreUniform` | script.js:80-98 | with all sliders at 50, every cell gets arm length 9.75 and width 4.5, which is not the middle of either range |
| `Distribution.RangeBoundsAttained` | script.js:80-98 | both bounds are reached: sliders (0, 0, 100, 100) give (30, 15) at row 0, column 6; sliders all at 100 give (3, 1) at row 0, column 0 |
| `Canvas.CrossGrid.constructor` | script.js:9-12 | a fresh 7 by 7 array whose every cell is (15, 2); every cell is in range |
| `Canvas.CrossGrid.DrawGrid` | script.js:14-32 | the nested loops build exactly the display list of the current table, and change nothing |
| `Canvas.CrossGrid.Click` | script.js:41-49 | on the grid: only the pen width of the cell under the pointer changes, to ClickedPen of its old value, and the frame is the new display list; off the grid: nothing changes and there is no redraw; the range invariant is kept |
| `Canvas.CrossGrid.ContextMenu` | script.js:51-60 | the same, with RightClickedPen |
| `Canvas.CrossGrid.Wheel` | script.js:62-73 | the same for the arm length, with ScrolledArm of the old value and deltaY |
| `Canvas.CrossGrid.ApplyAllDistributions` | script.js:80-102 | every cell is overwritten with the slider-derived cell for its row and column; for sliders in [0, 100] every cell is then in range, with width at least 1; the frame is the new display list |
| `Canvas.Load` | script.js:109 | page load builds the (15, 2) table and applies the sliders once, so the table is the slider-derived one and the frame is its display list |
| `Canvas.RedrawIsIdempotent` | script.js:14-32 | two redraws with no change in between produce identical display lists |
| `Canvas.ClickAfterLoad` | script.js:41-49 | after the page loads (line 109) with all sliders at 50, a left click at (40, 40) takes the top-left cell from (9.75, 4.5) to (9.75, 5.5) and redraws |

## Left out

- The canvas calls (`clearRect`, `beginPath`, `moveTo`, `lineTo`, `stroke`) are drawing I/O. The model produces the list of crosses they would receive. Each cross carries its line width; `strokeStyle` is always "black" and is not recorded.
- DOM and event plumbing are not modelled: `getElementById`, `addEventListener` (lines 41, 51, 62, 104-107), `preventDefault`, `getBoundingClientRect` and the `clientX - rect.left` offset. Handlers take canvas-relative `x`, `y` and `deltaY` directly, and `ApplyAllDistributions` takes the already-parsed slider values.
- `parseInt` of the slider strings is not modelled, and neither is the slider range, which lives in HTML that is not part of this model. The range lemmas assume integer values in [0, 100].
- IEEE-754 rounding is not modelled: all cell arithmetic is exact real arithmetic. NaN and infinite coordinates or deltas, which JavaScript would allow, do not exist in the model.
- Synchronous redraw after each event is modelled as the frame each handler returns. There is no concurrency to model.

