# grayfilter, modelled in Dafny

This project models the `grayfilter` speckle remover of libpillowfight
(`src/pypillowfight/_grayfilter.c`), an algorithm partly rewritten from
unpaper. The filter first copies an RGBA input bitmap into the output bitmap.
It then moves a 50×50 window across the output in strides of 20: left to
right within a row, then row by row. A window is cleared to white in place
when two things hold. First, it holds no pixel whose lightness is at most
`BLACK_MAX`. Second, `WHITE` minus its average lightness is below
`THRESHOLD_ABS`. Every test reads the output buffer, so a window cleared
earlier changes what later, overlapping windows see. The model keeps that order.

Files and modules:

- `bitmap.dfy`, module `Bitmap`: pixels, the bitmap primitives that live in
  `util.h`, and value snapshots (`Image`) of a buffer (`array2<Pixel>`,
  indexed `[x, y]`).
- `lightness.dfy`, module `Lightness`: `lightness_rect` with the source's
  arithmetic, and lemmas about the value it returns.
- `scan.dfy`, module `Scan`: the scan cursor, which windows are visited and
  in what order, and why every pixel is covered.
- `filter.dfy`, module `FilterSpec`: one iteration (`Step`), a whole scan
  (`ScanWindows`, `Filter`), and what a scan guarantees pixel by pixel.
- `grayfilter.dfy`, module `Grayfilter`: `grayfilter_main` as an imperative
  method over the output buffer, proved equal to `Filter` of the input.

`util.h` is not part of this model. Its primitives are modelled with stated
contracts and without guessing their formulas:

- `WHITE` and `GET_PIXEL_LIGHTNESS` are a `Shading` record passed to every
  operation. The record holds the value `white` and a total `lightness` function.
  `Shading.Valid()` requires that every lightness lies in `[0, white]` and
  that the all-`0xFF` pixel has lightness `white`.
- A pixel outside the image reads as lightness `WHITE`. This is an assumption:
  windows run past the right and bottom edges, and `lightness_rect` does not
  clamp its coordinates. unpaper's pixel accessor does the same.
- `count_pixels_rect` counts the inclusive rectangle `[left..right] × [top..bottom]`.
  `clear_rect` whitens the same rectangle, clamped to the buffer.
- `count_pixels_rect` judges a pixel dark by the same lightness measure that
  `GET_PIXEL_LIGHTNESS` gives `lightness_rect`: one `Shading.lightness` serves
  both. Two results rest on this. First, a dark input pixel is never whitened
  (`FilterSpec.ScanWindowsKeepsDark`). Second, once `WHITE` is at least 7 (an
  8-bit `WHITE` of 255 included), a window with no dark pixel always passes the
  average test (`FilterSpec.NoDarkFires`): its 2401 summed cells are each above
  0.67·`WHITE`, so even over the divisor of 2500 the average stays above
  `WHITE`/2. The test at lines 77-78 then never decides anything on its own.
- The `double` constants `BLACK_MAX = WHITE*(1-0.33)` and
  `THRESHOLD_ABS = WHITE*0.5` are exact Dafny `real`s. The comparisons with
  them are done in `real`.

`lightness_rect` is kept exactly as written. It sums over the half-open ranges
`x1..x2-1` and `y1..y2-1`, but divides by `(x2-x1+1)*(y2-y1+1)`, which counts
one more column and one more row. The division truncates toward zero, as C's
`/` does (`Lightness.CDiv`). `Lightness.UniformAverage` shows the effect: a
uniformly lit 50×50 window of lightness `l` reports `l*2401/2500`, which is
below `l` whenever `l > 0`.

Consequences of the scan code that are easy to miss:

- In a row, `left` takes 0, 20, … up to and including the first value that is
  at least the width, so the last window of a row starts wholly past the right
  edge. For a 100-pixel-wide image `left` takes 0 to 100: six columns. The last
  row is the first one whose bottom reaches the height. `Scan.HundredSquare`
  works out the 100×100 case.
- Every test reads the output buffer as earlier iterations left it, not the
  untouched input. Clearing only makes pixels lighter, so a window whose test
  fires on the input still fires when the scan reaches it
  (`FilterSpec.FiresMono`). Hence an image on which every window fires is
  whitened completely (`FilterSpec.FullClear`). Conversely, a dark input pixel
  is never cleared. So for `WHITE` ≥ 7 every window is in effect judged on the
  input (`FilterSpec.JudgedOnInput`), and filtering twice gives the same image
  as filtering once (`FilterSpec.Idempotent`). The code itself asserts neither
  property.

## Model

| member | source | states |
|---|---|---|
| `Bitmap.LightnessAt` | src/pypillowfight/_grayfilter.c:52 | the lightness of a pixel lies in [0, WHITE], and a pixel outside the image reads as WHITE |
| `Bitmap.CountPixelsRect` | src/pypillowfight/_grayfilter.c:75 | the dark count of the inclusive window is zero exactly when every pixel in it is lighter than the ceiling |
| `Bitmap.ClearedImage` | src/pypillowfight/_grayfilter.c:79 | clearing keeps the image's size, whitens every in-image pixel of the inclusive rectangle and leaves every other pixel unchanged |
| `Bitmap.ClearRect` | src/pypillowfight/_grayfilter.c:79 | the in-place clear turns a buffer holding an image into one holding exactly that image's cleared version |
| `Bitmap.CopyPixels` | src/pypillowfight/_grayfilter.c:67 | after the copy, the output buffer holds exactly the input image, pixel for pixel |
| `Bitmap.SnapshotHolds` | src/pypillowfight/_grayfilter.c:75-77 | a buffer holds exactly one image: its snapshot, which the counting and averaging primitives read |
| `Lightness.CDiv` | src/pypillowfight/_grayfilter.c:55 | C's integer division: the remainder a - b·q is smaller than b in magnitude and is zero or has the sign of a, for either sign of either operand; for a non-negative dividend and positive divisor it is Dafny's `/` |
| `Lightness.LightnessRect` | src/pypillowfight/_grayfilter.c:44-56 | the nested loops return the sum over [x1,x2)×[y1,y2) divided, truncating, by (x2-x1+1)*(y2-y1+1) |
| `Lightness.RectSumBounds` | src/pypillowfight/_grayfilter.c:47-54 | the accumulated total lies between 0 and WHITE times the number of summed cells |
| `Lightness.AverageLightnessBounds` | src/pypillowfight/_grayfilter.c:47-55 | for x1 ≤ x2 and y1 ≤ y2 the returned average lies in [0, WHITE] |
| `Lightness.AverageLightnessMono` | src/pypillowfight/_grayfilter.c:47-55 | on an image that is everywhere at least as light, the returned average is at least as large |
| `Lightness.RectSumAtLeast` | src/pypillowfight/_grayfilter.c:47-54 | when every summed cell has lightness at least m, the total is at least m times the number of summed cells |
| `Lightness.UniformAverage` | src/pypillowfight/_grayfilter.c:48-55 | on a uniform rectangle of lightness l the result is l·(summed cells)/(divisor cells), strictly below l when l > 0, because the divisor counts an extra row and column |
| `Scan.Cols` | src/pypillowfight/_grayfilter.c:82-85 | a row has windows at left = 0, 20, … up to and including the first value ≥ width |
| `Scan.Rows` | src/pypillowfight/_grayfilter.c:86-92 | rows continue up to and including the first row whose bottom is ≥ height |
| `Scan.ScanOrder` | src/pypillowfight/_grayfilter.c:69-93 | the cursor visits Rows·Cols windows, the first at (0, 0) and the last at the last column of the last row |
| `Scan.RowsUpToShape` | src/pypillowfight/_grayfilter.c:82-93 | a run of full rows has rows·cols windows and runs from the origin to the last grid position |
| `Scan.ScanOrderMembership` | src/pypillowfight/_grayfilter.c:69-93 | the visited windows are exactly those with left and top non-negative multiples of SCAN_STEP within the column and row counts |
| `Scan.ScanOrderRowMajor` | src/pypillowfight/_grayfilter.c:74-93 | windows are visited row by row, left to right within a row, each exactly once |
| `Scan.Coverage` | src/pypillowfight/_grayfilter.c:33-34 | every in-image pixel lies in some visited window, because SCAN_STEP < SCAN_SIZE |
| `Scan.VisitedBeforeRows` | src/pypillowfight/_grayfilter.c:82-93 | with the cursor at column i of row j, the windows visited so far are every window of the earlier rows followed by the first i windows of row j |
| `Scan.ScanOrderVisited` | src/pypillowfight/_grayfilter.c:86-87 | when the cursor leaves the last column of the last row, it has visited exactly the scan order |
| `Scan.HundredSquare` | src/pypillowfight/_grayfilter.c:82-92 | a 100×100 image is scanned in 4 rows of 6 windows, from (0,0) to (100,60) |
| `FilterSpec.Step` | src/pypillowfight/_grayfilter.c:75-80 | an iteration keeps the image's size, and leaves the image unchanged unless the dark count is 0 and WHITE minus the average is below THRESHOLD_ABS |
| `FilterSpec.StepOutcome` | src/pypillowfight/_grayfilter.c:75-80 | an iteration whose test fires whitens exactly the window's in-image pixels, and otherwise no pixel changes |
| `FilterSpec.FiresMono` | src/pypillowfight/_grayfilter.c:75-78 | a window whose test fires on an image also fires on every image that is everywhere at least as light |
| `FilterSpec.ScanWindows` | src/pypillowfight/_grayfilter.c:74-94 | a scan over any sequence of windows keeps the image's width and height |
| `FilterSpec.ClearedWindowsVisited` | src/pypillowfight/_grayfilter.c:79 | only windows the scan visited are ever cleared |
| `FilterSpec.ScanWindowsOutcome` | src/pypillowfight/_grayfilter.c:67-94 | after a scan, a pixel is white if a window cleared during the scan contains it, and equals the input pixel otherwise |
| `FilterSpec.ScanWindowsKeepsDark` | src/pypillowfight/_grayfilter.c:75-79 | a pixel whose input lightness is ≤ BLACK_MAX is never whitened, because the count and the clear use the same rectangle and the same lightness |
| `FilterSpec.Filter` | src/pypillowfight/_grayfilter.c:58-95 | the filtered image has the input's width and height |
| `FilterSpec.ScanLighter` | src/pypillowfight/_grayfilter.c:79 | every image the scan passes through is everywhere at least as light as its input |
| `FilterSpec.AllFireAllCleared` | src/pypillowfight/_grayfilter.c:74-94 | when every window of a scan fires on the input, the scan clears every one of them, in order |
| `FilterSpec.FullClear` | src/pypillowfight/_grayfilter.c:58-95 | when every window of the scan order fires on the input, every pixel of the output is white |
| `FilterSpec.NoDarkFires` | src/pypillowfight/_grayfilter.c:75-78 | for WHITE ≥ 7, a window whose dark count is 0 always passes the average test as well |
| `FilterSpec.JudgedOnInput` | src/pypillowfight/_grayfilter.c:74-94 | for WHITE ≥ 7, after any part of the scan, a window fires on the partly filtered image exactly when it fires on the input |
| `FilterSpec.ClearedAreFiring` | src/pypillowfight/_grayfilter.c:74-94 | for WHITE ≥ 7, the windows a scan clears are exactly the windows that fire on its input, in scan order |
| `FilterSpec.Idempotent` | src/pypillowfight/_grayfilter.c:58-95 | for WHITE ≥ 7, filtering the filtered image returns it unchanged |
| `FilterSpec.FilterOutcome` | src/pypillowfight/_grayfilter.c:58-95 | the filtered image has the input's size; each pixel is white under a cleared window and the input pixel elsewhere; dark pixels survive |
| `FilterSpec.AllDarkUnchanged` | src/pypillowfight/_grayfilter.c:75-76 | an image made only of dark pixels is returned unchanged |
| `Grayfilter.ScanOneWindow` | src/pypillowfight/_grayfilter.c:75-81 | one loop body turns a buffer holding an image into one holding Step of that image for the cursor's window |
| `Grayfilter.VisitWindow` | src/pypillowfight/_grayfilter.c:74-81 | a buffer holding the scan over the windows visited so far comes to hold the scan one window further |
| `Grayfilter.ScanOutput` | src/pypillowfight/_grayfilter.c:69-94 | the cursor loop terminates, and a buffer holding an image comes to hold the filter of that image: every window of the scan order, in order, each tested on the buffer as it stands |
| `Grayfilter.FilteredPixels` | src/pypillowfight/_grayfilter.c:67-79 | a buffer holding the filtered input is white under cleared windows and the input pixel elsewhere, so each pixel is the input's or white, and dark input pixels survive |
| `Grayfilter.GrayfilterMain` | src/pypillowfight/_grayfilter.c:58-95 | for equal-size distinct buffers the output becomes the scan of the input over every window in order; each output pixel is white under a cleared window and the input pixel elsewhere; dark input pixels survive |

## Left out

- The Python binding layer (`grayfilter`, the method table, module init) is
  left out. It consists of foreign runtime calls. Its assertions that both buffers
  hold width×height×4 bytes become the `GrayfilterMain` requirement that the
  two `array2<Pixel>` buffers have equal dimensions. The requirement that they
  are distinct comes from `memcpy`.
- The `memset` of the output before the call is left out. The copy at the start
  of `grayfilter_main` overwrites all of it.
- The lightness formula, the value of `WHITE` and the bodies of `count_pixels_rect`
  and `clear_rect` are left out, because util.h is not part of this model. They
  are parameters or primitives with stated contracts (see above).
- The buffer's byte layout is left out. A pixel is a four-byte record, and the
  buffer is an `array2` rather than a row-major byte array.
- `Bitmap.CountPixelsRect`, `Lightness.LightnessRect` and `Grayfilter.ScanOneWindow`
  read a value snapshot of the output buffer instead of the buffer itself.
  Both primitives only read, so what they return is the same.
- IEEE rounding of the `double` threshold constants is not modelled (`0.67` is exact here).
- C `int` overflow is not modelled. `total` cannot overflow for a 49×49 sum. The
  cursor would only overflow for images close to `INT_MAX` pixels wide or high.
- `FilterSpec.JudgedOnInput`, `FilterSpec.ClearedAreFiring` and `FilterSpec.Idempotent`
  are stated only for `WHITE` ≥ 7, the bound under which a window with no dark
  pixel is sure to pass the average test. For a smaller `WHITE` the rounding of
  the average can let an earlier clear change a later window's verdict. The
  value of `WHITE` is fixed in util.h, which is not part of this model.
