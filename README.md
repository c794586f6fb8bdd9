# Hama bead pattern editor, modelled in Dafny

The editor is a single page that keeps a grid of fuse beads. Painting and image conversion store an empty cell or one of 24 fixed Hama colours; a loaded blueprint can hold any colour string. The page supports these actions:

- painting cells with the pointer;
- clearing the grid or rebuilding it at a new size;
- converting an uploaded picture into beads (alpha threshold, per-channel colour quantisation, nearest palette colour);
- sharing the whole state as a blueprint that `applyState` loads back.

This project models the page's logic and proves what each part promises:

- `js_numbers.dfy` (module `JsNumbers`) covers the JavaScript number operations the page relies on: `Number.parseInt(s, 16)` (`%parseInt%`, whose steps are in section 19.2.5 of ECMA-262), with the digits' value kept as an exact integer, the ToInt32 conversion of section 7.1.6 that the shift operators apply, and `Math.round`.
- `colors.dfy` (module `Colors`) covers the palette, `hexToRgb`, `nearestPaletteColor` and `quantize`.
  - `nearestPaletteColor` is a loop with a running best, proved against `NearestIndex`, a recursive reference scan. The scan is proved to pick the earliest least squared distance.
- `beads.dfy` (module `Beads`) covers the board as a list of rows and JavaScript element assignment. That assignment lengthens a row when written past its end.
  - It also has the bounds check of `paintCell`, the row-major RGBA offset and what a single pixel of an imported picture turns into.
- `editor.dfy` (module `Editor`) holds the page's global variables as the fields of class `Editor`.
  - Its methods are the event handlers and functions that reassign those fields: `initBeads`, clear, `rebuildGrid`, colour selection, the grid checkbox, `paintCell`, the pointer `drawing` state machine and `applyState`.
  - It also has the nested loop of `convertImageToPattern`, proved cell by cell against the per-pixel function.
- `canvas.dfy` (module `Canvas`) covers `resizeCanvas`: the cell size is the largest that fits the grid into 900 by 900 pixels.
- `wrappers.dfy` holds `Option`.

Some behaviour is kept exactly as `app.js` has it, rather than as a stricter editor would:

- `applyState` installs its `data` without comparing it with `w` and `h`.
- `paintCell` on a row that does not exist throws a TypeError, which the model records as the outcome `MissingRow`.
- The conversion loop stops with a TypeError at the first grid row the board lacks, which the model records as `completed == false`.

## Model

| member | source | states |
|---|---|---|
| Beads.Filled | app.js:29-31 | the matrix `initBeads` builds has `gridH` rows of `gridW` cells, every one equal to the fill value |
| Editor.Editor.InitBeads | app.js:29-31 | after `initBeads(fill)` the board is exactly `gridH` rows of `gridW` cells, all equal to `fill` |
| Editor.Editor.Clear | app.js:312-315 | after the clear button every cell of the `gridW` by `gridH` board is empty |
| Editor.Editor.RebuildGrid | app.js:286-295 | `rebuildGrid` adopts width, height, bead size and grid flag and leaves an empty board of the new size |
| Editor.Editor.constructor | app.js:21-27 | at start-up the first palette colour is active, nothing is being drawn, and the board is the empty grid `rebuildGrid` makes |
| Editor.Editor.SelectColor | app.js:42-46 | clicking palette button `i` makes palette colour `i` the active colour and changes nothing else |
| Editor.Editor.SetShowGrid | app.js:329-332 | the grid checkbox sets `showGrid` to its checked state |
| Beads.Store | app.js:172 | `row[x] = c` puts `c` at `x` and keeps every other element; written past the end it lengthens the row to `x + 1` with empty holes |
| Beads.PaintOnRectBoard | app.js:169-174 | on a board of the grid's shape, `paintCell` paints exactly when `0 <= x < gridW` and `0 <= y < gridH`, writes the active colour at `(x, y)`, changes no other cell, keeps the shape, and leaves the board unchanged outside the grid |
| Beads.PaintStatus | app.js:171-172 | no contract of its own: out of bounds when the bounds check of `paintCell` fails, missing row when `beads[y]` does not exist, painted otherwise; `PaintOnRectBoard` proves it never reports a missing row on a grid-shaped board |
| Beads.AfterPaint | app.js:172 | no contract of its own: the board with the colour stored at `(x, y)` only when painted; `PaintOnRectBoard` proves the single-cell write and the unchanged rest |
| Editor.Editor.PaintCell | app.js:169-174 | the outcome is out of bounds, missing row or painted, and the new board is the old one with the active colour stored at `(x, y)` only when painted; the number of rows never changes |
| Editor.Editor.PointerDown | app.js:297-300 | `pointerdown` sets `drawing` and paints the cell under the pointer |
| Editor.Editor.PointerMove | app.js:302-305 | `pointermove` paints only while `drawing`; otherwise the board is unchanged |
| Editor.Editor.PointerUp | app.js:307-309 | `pointerup` clears `drawing` |
| Editor.Editor.MoveAfterRelease | app.js:297-309 | a move after `pointerup` leaves the board unchanged |
| JsNumbers.ParseIntHex | app.js:193 | no contract of its own: `Number.parseInt(s, 16)` as an exact integer (white space, sign, `0x` prefix, longest digit run, NaN without digits); `ParseIntHexOfDigits` gives its value on a digit string |
| JsNumbers.ParseIntHexOfDigits | app.js:193 | `Number.parseInt(d, 16)` of a non-empty string of hexadecimal digits is the number those digits denote |
| JsNumbers.ToInt32 | app.js:194 | the left operand of `>>` is NaN mapped to 0 and otherwise wrapped modulo 2^32 into the signed 32-bit range, unchanged when already in range |
| Colors.HexToRgb | app.js:192-195 | every component `hexToRgb` returns, for any string, is a byte in 0..255 |
| Colors.HexToRgbOfHexColor | app.js:192-195 | for a well-formed `#rrggbb`, `hexToRgb` returns exactly the bytes written as `rr`, `gg` and `bb` |
| Colors.DistanceAt | app.js:181-182 | the distance list holds, for entry `i`, the squared RGB distance to palette colour `i` |
| Colors.ArgMinFromIsEarliestMinimum | app.js:180-187 | a scan that replaces its best only on a strictly smaller distance ends on the first index of the least distance |
| Colors.NearestIndexIsEarliestMinimum | app.js:176-190 | the chosen palette index has a distance no entry beats, and every earlier entry is strictly farther |
| Colors.NearestIsClosest | app.js:176-190 | in terms of colours, no palette entry is strictly closer to `(r, g, b)` than the returned one, and on ties the earliest entry wins |
| Colors.NearestIndexIsUnique | app.js:176-190 | the earliest least index is unique, so `IsEarliestMinimum` determines the choice: any such index is the one the scan picks |
| Colors.NearestPaletteColor | app.js:176-190 | the loop over the palette returns the palette entry at the earliest least distance, so always a member of the palette |
| JsNumbers.MathRound | app.js:200 | `Math.round(x)` is the whole number `n` with `n - 0.5 <= x < n + 0.5` |
| Colors.Quantize | app.js:197-201 | no contract of its own: `quantize` over exact reals; `QuantizeIsNearestStep` pins down its value |
| Colors.QuantizeIsNearestStep | app.js:197-201 | with `levels <= 1` the value passes through; otherwise the result is a whole multiple of `255 / (levels - 1)` within half a step of the value |
| Colors.QuantizeStaysInChannelRange | app.js:197-201 | a channel value in 0..255 stays in 0..255 after quantisation |
| Colors.QuantizeIsIdempotent | app.js:197-201 | quantising a quantised value with the same level count changes nothing |
| Colors.QuantizeTwoLevels | app.js:197-201 | with two levels, 0..127 become 0 and 128..255 become 255 |
| Beads.ImageSizeIsProduct | app.js:220 | the RGBA buffer of a `w` by `h` image has `4 * w * h` bytes |
| Beads.PixelIndexIsRowMajor | app.js:225 | the offset of pixel `(x, y)` is `(y * gridW + x) * 4` |
| Beads.PixelIndexInRange | app.js:225-234 | all four bytes of a pixel inside the image lie inside its buffer |
| Beads.PixelCell | app.js:225-235 | no contract of its own: the cell the loop body writes for pixel `(x, y)`; `PixelCellMeaning` states what it is |
| Beads.PixelCellMeaning | app.js:226-235 | a pixel's cell is empty exactly when its alpha byte is below 30; otherwise it is the palette colour at the earliest least distance from the quantised R, G and B |
| Beads.PixelCellIsPaletteCell | app.js:226-235 | every converted cell is empty or a palette colour |
| Beads.RowCellAt | app.js:224-236 | column `x` of the converted row is the cell of pixel `(x, y)` |
| Beads.ConvertRowMeaning | app.js:224-236 | after the inner loop over `n` columns, columns `0..n-1` hold the converted cells and every later column is as before |
| Beads.ConvertWholeRow | app.js:224-236 | after a full row, its first `gridW` cells are the cells of their pixels, each empty or a palette colour, and a longer row keeps its tail |
| Beads.ConvertRectBoard | app.js:223-237 | on a board of the grid's shape, the converted board keeps the shape and every cell is the cell of its pixel |
| Editor.ConvertPixel | app.js:225-235 | the loop body for one pixel computes that pixel's cell |
| Editor.Editor.ConvertImageRow | app.js:224-236 | the inner loop replaces row `y` with its converted row, or throws on the first write and changes nothing when row `y` is missing |
| Editor.Editor.ConvertImageToPattern | app.js:223-237 | the nested loop converts rows `0..gridH-1` in order, stops at the first missing row, and leaves later rows untouched; on a board of the grid's shape it completes and every cell is the cell of its pixel |
| Editor.Editor.ApplyState | app.js:269-284 | a falsy state, or one with falsy `data`, `w` or `h`, changes nothing; otherwise width, height, bead size (default 5), `Boolean(grid)` and the data are adopted as they are |
| Editor.AcceptsDataOfAnotherShape | app.js:270-282 | `applyState` accepts a 2 by 2 blueprint with no rows, after which painting cell `(0, 0)` reaches a missing row |
| Editor.Payload | app.js:253-260 | no contract of its own: the record `{version: 1, w, h, bead, grid, data}` `encodeState` serialises; `PayloadRoundTrip` states what reading it back gives |
| Editor.PayloadRoundTrip | app.js:252-260 | the payload `encodeState` builds is accepted exactly when its width and height are non-zero, and it gives back every value it holds, except that a bead size of 0 reads back as 5 |
| Editor.Editor.OpenSharedLink | app.js:338-348 | opening the link of another editor reproduces its size, grid flag, board and non-zero bead size, and changes nothing when that editor's width or height is 0 |
| JsNumbers.FloorOfQuotient | app.js:53 | `Math.floor(n / d)` of whole numbers with a positive divisor is integer division |
| Canvas.CellSize | app.js:53 | the cell size is the smaller of `900 / gridW` and `900 / gridH` in integer division |
| Canvas.CellSizeIsLargestFit | app.js:51-56 | the cell size is the largest with which both grid dimensions fit into 900 pixels, and it is at least 1 for grids up to 900 cells each way |
| Canvas.CanvasSize | app.js:54-55 | the canvas width and height are `cellSize * gridW` and `cellSize * gridH`, each between 0 and 900 |

## Left out

- Drawing is not modelled: `drawBasePegboard`, `drawGridLines`, `drawBead` and `drawBoard` (app.js:58-156) are Canvas 2D calls with floating-point geometry and produce no state.
- `pointerToCell` (app.js:158-167) reads `getBoundingClientRect` and scales floating-point coordinates, so the pointer methods take integer cell coordinates.
- `createPalette`, the input elements and the listener wiring (app.js:33-49, 311-336) are DOM glue.
  - A palette click is `SelectColor` with the button's index.
  - The values the size inputs and the grid checkbox hold become parameters of the constructor and of `RebuildGrid`.
- `Canvas.CanvasSize` is not connected to the editor's fields, because the canvas element's size is not part of the model. `applyState` and `rebuildGrid` call `resizeCanvas` only to resize that element.
- `Canvas.CellSize` requires positive grid dimensions. For zero or negative dimensions `resizeCanvas` divides by zero or a negative number, and that floating-point case is not modelled.
- The first part of `convertImageToPattern` is not modelled: the missing-file check, `FileReader`, `Image` decoding and resampling with `drawImage`/`getImageData` (app.js:203-222, 239-243).
  - The decoded image arrives as a byte buffer of the image's size, `pixels`, and `Number(colorSteps.value)` arrives as `levels`.
  - The asynchronous `onload` callbacks are not modelled.
- `encodeState` and `decodeState` (app.js:252-267) wrap `JSON.stringify`/`JSON.parse`, `encodeURIComponent` and base64 (section 4 of RFC 4648). Only the payload record they carry is modelled, as `Payload`.
  - The blueprint's fields are typed as `encodeState` writes them.
  - Hand-written JSON with values of other types is not modelled. Neither is the coercion `Number(...)`/`Boolean(...)` applies to such values.
  - The reading of `location.hash` and the `try`/`catch` around decoding are not modelled.
- `exportBlueprint` (PNG download) and the clipboard access of the share button (app.js:245-250, 320-327) are I/O and are not modelled.
- `Colors.HexToRgb`: strings are sequences of Unicode code points, while JavaScript strings are UTF-16 code units, so `slice(1)` and the digit scan can differ. For a string opening with U+1F600 followed by `ff0000`, the page's `slice(1)` leaves a lone low surrogate in front of the digits, `parseInt` gives NaN and `hexToRgb` gives `[0, 0, 0]`, while the model's `Tail` drops the whole character and gives `Rgb(255, 0, 0)`. Strings holding lone surrogates are not representable. The page only passes the palette literals, which are plain ASCII.
- `JsNumbers.ParseIntHexOfDigits`: the parsed value is the exact integer of the digits. ECMA-262 rounds it to a double, so 14 or more significant hexadecimal digits (2^53 and above) can round, and about 256 or more digits give Infinity, which ToInt32 maps to 0. For example, `hexToRgb("#20000000000001")` gives `[0, 0, 0]` in the page but `Rgb(0, 0, 1)` in the model. The page only passes the six-digit palette literals, where the two agree.
- `Editor.Editor.ApplyState`: the board installed is a copy of the value. The aliasing between `beads` and the parsed `state.data` object is not modelled.
- `Editor.Editor.RebuildGrid`: grid dimensions and bead size are whole numbers and exact reals. A size input holding text, a fraction or NaN is not modelled.
- `Beads.Store`: JavaScript leaves holes when a row is lengthened. They read as `undefined`, and the model writes them as empty cells, which is how `drawBoard` shows them. Array indices stop at 2^32 - 2: an assignment at `x >= 2^32 - 1` sets an ordinary property and leaves `length` unchanged, while `Store` lengthens the row to `x + 1`; `pointerToCell` never produces such an `x`.
- `Colors.QuantizeIsNearestStep`: quantisation and the squared distances are computed over exact rationals. The page computes them in IEEE doubles, whose rounding can, in rare ties, pick a different palette colour than the exact computation.
- `Colors.NearestPaletteColor`: the palette is a parameter, and the editor passes its `palette` field. The page reads the global `hamaPalette` directly.
