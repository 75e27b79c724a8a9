# Fractal engine model

A Dafny model of the Mandelbrot zoom engine in `fractals.cpp`. The engine
renders into a 4-bit-per-pixel panel buffer, two pixels to a byte. The even
column of a pair goes in the high nibble, the odd column in the low one.

`drawFractal` starts with inverse zoom 2, centred on the origin, and runs
three zoom steps. Each step:

1. halves the inverse zoom;
2. draws a low-depth probe (`drawLowRes`, 50 iterations, colours 0/1);
3. scans the probe for a black pixel with a non-black 4-neighbour
   (`findInterestingPixel`);
4. moves the centre onto that pixel.

It then draws the final picture (`drawHiRes`, 100 iterations, colours 0..7)
at the last viewport.

The model has five modules:

- `Packing` covers the nibble buffer. It defines `getPixel`, the nibble
  store both renderers make, and the layout of rows in the buffer. It proves
  that a write reads back, what the write does to the sibling nibble, that
  every index is in bounds, and that a row drawn left to right is its colours
  packed two to a byte.
- `Escape` covers the recurrence z ← z² + c (`zx`, `zy`) and the bounded
  escape loop. The loop's count is proved to be exactly the first iteration
  whose iterate leaves the circle of radius 2, or the sentinel when there is
  none.
- `Render` covers the pixel-to-plane mapping, the two palettes and the
  shared pixel loop. It works in place on an `array<bv8>`. Both passes are
  proved to leave the buffer holding the packed picture of the pass, with
  every pixel reading back as its colour.
- `Selector` covers the interior scan into a capacity-`10*w` array, with
  its early return when the array is full, and the random draw. The method is
  proved to return exactly the specified selection. That selection is always
  a candidate, or the centre when the probe has no candidate. The collected
  candidates are proved to be the scan-order prefix of all candidates.
- `Zoom` covers the zoom loop. The final inverse zoom is proved to be 0.25.
  Each coordinate of the centre is an accumulated sum of per-step shifts,
  the real part scaled by the width and the imaginary part by the height,
  and each coordinate stays within `1 - 2^-n` of the origin after `n`
  steps. Horizontally that keeps the centre inside the starting window;
  vertically, on a panel wider than tall, it can leave the starting window,
  whose rows span only `±h/w`. The final picture is
  proved to be drawn at the viewport that the recorded picks determine.
  Each step draws its random index with its own chooser, because the
  generator's state moves on between steps.

Facts of the code the model keeps as they are:

- The final pass has seven colour bands (`COLOR_COUNT = 7`, colours 1..7),
  although the comment at `fractals.cpp:120` speaks of six.
- The inverse zoom starts at 2 and is halved before each of the three
  probes, so the final pass uses 0.25.
- Writing an even column clears the low nibble of its byte, so its odd
  sibling reads 0 until it is written next.
- A candidate is a black pixel with a non-black neighbour, whatever that
  neighbour's colour.

The re-centring moves the imaginary part by the row's fraction of the panel
height. The probe, though, maps rows by their fraction of the panel width.
`Zoom.RecenterOnPixelY` states exactly when the new centre lands on the
sampled point.

## Model

| member | source | states |
|---|---|---|
| Packing.GetPixel | fractals.cpp:19-23 | a pixel read is a 4-bit value |
| Packing.GetPixelNibble | fractals.cpp:19-23 | an odd column reads the low nibble, an even column the high nibble, of byte `(total_rows+col)/2` |
| Packing.WriteNibble | fractals.cpp:64-75 | an odd store keeps the high nibble and sets the low one to the colour; an even store puts the colour in the high nibble and clears the low one |
| Packing.PackPairNibbles | fractals.cpp:68-75 | a byte written even-then-odd holds both colours in their nibbles |
| Packing.OddWriteNoCarry | fractals.cpp:70 | adding a 4-bit colour to the masked byte never carries past 8 bits |
| Packing.WriteThenRead | fractals.cpp:65-75 | reading a pixel right after storing it gives the stored colour |
| Packing.OddWriteKeepsSibling | fractals.cpp:68-71 | an odd store leaves the even pixel of its byte unchanged |
| Packing.EvenWriteClearsSibling | fractals.cpp:72-75 | an even store makes the odd pixel of its byte read 0 |
| Packing.RowStartIsProduct | fractals.cpp:36 | the model's row start, defined by repeated addition to keep the index proofs linear, equals the product `w * row` the source computes |
| Packing.RowOffset | fractals.cpp:36 | computes `px_rows` for a row, equal to its row start |
| Packing.BufferSizeIsProduct | fractal_display.cpp:75 | the image occupies `h * (w/2)` bytes |
| Packing.PixelByte | fractals.cpp:65 | for an even width, byte `(px_rows+col)/2` is byte `col/2` of row `row` and lies inside the image |
| Packing.RowInBounds | fractals.cpp:65 | the `w/2` bytes of every row lie inside the image |
| Packing.NeighboursInBounds | fractals.cpp:168-171 | the four neighbour reads of an interior pixel index bytes of the image |
| Packing.SlotInjective | fractals.cpp:65 | for an even width, distinct pixels use distinct (byte, nibble) slots |
| Packing.ParityMatchesLinearIndex | fractals.cpp:65-68 | for an even width, the column's parity is the parity of the linear index |
| Packing.OddWidthCollision | fractals.cpp:65-68 | for width 3, storing a colour for pixel (1, 0) makes pixel (0, 2) read that colour: two pixels share one nibble, which is why the model requires an even width |
| Packing.PackRow | fractals.cpp:64-75 | byte `j` of a packed row holds colours `2j` and `2j+1` |
| Packing.RowStep | fractals.cpp:64-75 | storing the next column of a row extends the written prefix by one colour and leaves every other byte as it was |
| Packing.RowDone | fractals.cpp:38-76 | a row written to its end is the packed row spliced into the old buffer at the row's start |
| Packing.Splice | fractals.cpp:65 | a buffer that agrees with the old one outside a range and holds given bytes inside it is the old buffer with that range replaced |
| Packing.AppendPackedRow | fractals.cpp:30-77 | after the next row is written, the packed picture covers one more row and the rest of the buffer is untouched |
| Packing.PackRowsIndex | fractals.cpp:30-77 | the packed picture holds byte `j` of row `r` at `r*(w/2) + j` |
| Packing.PackedPicture | fractals.cpp:30-77 | a buffer whose image bytes are the packed picture reads back, pixel by pixel, as that picture |
| Packing.PackedPixel | fractals.cpp:19-23 | a pixel read from a packed picture returns the picture's colour |
| Escape.Zx | fractals.cpp:9-12 | the real part of the next iterate |
| Escape.Zy | fractals.cpp:14-17 | the imaginary part of the next iterate |
| Escape.StepIsSquarePlusC | fractals.cpp:9-17 | `zx`/`zy` compute the complex square plus the sampled point |
| Escape.EscapeFromSpec | fractals.cpp:49-59 | the search from iteration `i` finds the least escaping iteration below the depth, or none |
| Escape.FirstEscapeSpec | fractals.cpp:49-59 | the first escape is `n` iff `n` escapes and no earlier iteration does; it is none iff no iteration escapes |
| Escape.EscapeCountSpec | fractals.cpp:48-59 | the count is the sentinel iff nothing escapes below the depth, and otherwise the first escaping iteration |
| Escape.ImmediateEscape | fractals.cpp:49-58 | from 0 the count is 0 iff the sampled point itself has modulus above 2 |
| Escape.EscapeTime | fractals.cpp:44-59 | the loop with its early break returns the specified escape count |
| Render.ScaleY | fractals.cpp:7 | the vertical shift `h / (2w)` that centres the rows |
| Render.Sample | fractals.cpp:41-47 | the complex point sampled for pixel (row, col) |
| Render.SampleCentre | fractals.cpp:46-47 | for even dimensions the middle pixel samples the viewport's centre |
| Render.Palette | fractals.cpp:121-123 | a final colour is at most 7 and a probe colour at most 1 |
| Render.PixelColor | fractals.cpp:121-123 | a pixel's colour is at most 7 |
| Render.ProbeColorSpec | fractals.cpp:48-62 | a probe pixel is 1 iff some iteration below 50 escapes, and 0 otherwise |
| Render.FinalColorSpec | fractals.cpp:106-123 | a final pixel is 0 iff nothing escapes below 100; otherwise it is `shade(n) % 7 + 1`, in 1..7, for the first escaping iteration `n` |
| Render.Picture | fractals.cpp:30-76 | the picture of a pass has `h` rows of `w` colours, each the pass's colour for that pixel |
| Render.RenderedPaletteBounds | fractals.cpp:62 | a drawn probe buffer holds only 0 and 1, a drawn final buffer only 0..7 |
| Render.ComputePixel | fractals.cpp:41-62 | the sampling, escape loop and palette give the pass's colour for the pixel |
| Render.StorePixel | fractals.cpp:64-75 | the store changes only byte `(px_rows+col)/2`, to the nibble-updated value |
| Render.RenderPixel | fractals.cpp:40-75 | one column step moves the row's written prefix forward by one pixel |
| Render.RenderRow | fractals.cpp:38-76 | the column loop replaces the row's `w/2` bytes by the packed row and changes nothing else |
| Render.Render | fractals.cpp:30-77 | the row loop leaves the packed picture followed by the untouched bytes past the image |
| Render.Draw | fractals.cpp:30-77 | the buffer holds the packed picture of the pass and every pixel reads back as its colour |
| Render.DrawLowRes | fractals.cpp:27-78 | the probe pass draws the 0/1 escape picture of the viewport |
| Render.DrawHiRes | fractals.cpp:85-139 | the final pass draws the banded picture of the viewport |
| Selector.IsCandidateSpec | fractals.cpp:162-171 | a candidate is an interior black pixel with a non-black pixel above, below, left or right |
| Selector.CandidateInterior | fractals.cpp:155-160 | candidates lie strictly inside the outer ring |
| Selector.RowScanOutside | fractals.cpp:155 | the first and last rows contribute nothing |
| Selector.RowScanShape | fractals.cpp:160 | a row's candidates are listed left to right |
| Selector.RowScanSound | fractals.cpp:160-175 | every pixel a row scan lists is a candidate |
| Selector.RowScanComplete | fractals.cpp:160-175 | every candidate left of the scan position is listed |
| Selector.ScanShape | fractals.cpp:155-185 | the scan lists pixels in strictly increasing row-major order |
| Selector.ScanSound | fractals.cpp:155-185 | every scanned pixel is a candidate |
| Selector.ScanComplete | fractals.cpp:155-185 | every candidate of the scanned rows is listed |
| Selector.RowScanPrefix | fractals.cpp:160-184 | a row scan stopped earlier is a prefix of one that goes further |
| Selector.ScanPrefix | fractals.cpp:155-185 | a scan stopped earlier is a prefix of one that goes further |
| Selector.PartialScanPrefix | fractals.cpp:155-185 | the state in the middle of a row is a prefix of the whole scan |
| Selector.RowScanLast | fractals.cpp:160 | skipping the last column loses no candidate |
| Selector.FullScanCollected | fractals.cpp:177-182 | when the array fills mid-scan it holds exactly the collected candidates |
| Selector.CollectedSpec | fractals.cpp:154-185 | the collected list is at most the capacity, interior candidates only, in scan order, and all candidates whenever the array is not full |
| Selector.SelectionSpec | fractals.cpp:186-188 | the selector returns an in-panel candidate, or the centre exactly when the probe has no candidate |
| Selector.ConsiderPixel | fractals.cpp:162-183 | a candidate is appended in the next slot, and `full` is reported iff the array has reached capacity |
| Selector.ScanStep | fractals.cpp:160-183 | one column keeps the array equal to the scan so far, or stops with the collected candidates |
| Selector.ScanRow | fractals.cpp:158-184 | a row appends its candidates, or stops early holding what the whole scan collects |
| Selector.FindInterestingPixel | fractals.cpp:151-189 | the scan with its early return yields exactly the specified selection |
| Selector.DrawAsWritten | fractals.cpp:179-188 | the slot an inclusive draw over `0 .. pixnum` reads, or none past the end of the array |
| Selector.SlotsAfterScan | fractals.cpp:150-174 | after a first scan the array starts with exactly the collected candidates, the rest zero |
| Selector.AsWrittenDrawCounterexample | fractals.cpp:179-188 | over the slots the first scan of a run fills, drawing `pixnum` gives the unfilled slot (0, 0), which is never a candidate, while the array is not full, and reads past the end once it is full |
| Selector.RowScanNone | fractals.cpp:160-175 | with no candidate anywhere, a row scan finds nothing |
| Selector.ScanNone | fractals.cpp:155-185 | with no candidate anywhere, the scan finds nothing |
| Selector.BlackProbeDrawsUnfilledSlot | fractals.cpp:186-188 | an all-black probe has no candidate, so the only draw returns slot 0, which on the first call of a run no scan has filled (later calls return a stale pick) |
| Zoom.ZoomAt | fractals.cpp:196-208 | the inverse zoom stays positive |
| Zoom.Pow2 | fractals.cpp:208 | a power of two is at least 1 |
| Zoom.ZoomAtClosedForm | fractals.cpp:196-208 | after `n` halvings the inverse zoom is `2 / 2^n` |
| Zoom.ZoomScale | fractals.cpp:205-208 | the inverse zoom after `n` steps does not depend on the picked pixels |
| Zoom.FinalZoom | fractals.cpp:192-208 | after the three steps the inverse zoom is 0.25 |
| Zoom.Recenter | fractals.cpp:217-218 | the centre moves by the pixel's fraction of the width and of the height, less a half, times the inverse zoom |
| Zoom.OffsetXAccumulates | fractals.cpp:217 | the real part of the centre is the sum of each step's shift, each at that step's inverse zoom |
| Zoom.OffsetYAccumulates | fractals.cpp:218 | the imaginary part of the centre is the sum of each step's row shift, the row divided by the height, each at that step's inverse zoom |
| Zoom.FractionNearMiddle | fractals.cpp:217-218 | an in-panel pixel is at most half a panel from the middle |
| Zoom.StepStaysInWindow | fractals.cpp:217-218 | one shift of at most half the halved window keeps the centre inside the window bound |
| Zoom.RecenterStaysInWindow | fractals.cpp:217-218 | one zoom step keeps both centre coordinates inside the window bound |
| Zoom.CentreStaysInWindow | fractals.cpp:205-222 | after `n` steps both coordinates of the centre lie within `1 - 2^-n` of the origin |
| Zoom.ExtendPicks | fractals.cpp:205-222 | one more step re-centres the halved last viewport and leaves the earlier probe viewports unchanged |
| Zoom.RecenterOnPixelX | fractals.cpp:217 | the new real part of the centre is the real part the probe sampled at the picked pixel |
| Zoom.SampleRowShift | fractals.cpp:47 | the probe samples row `y` at `(y - h/2)/w` windows from the centre |
| Zoom.RecenterRowShift | fractals.cpp:218 | re-centring on row `y` moves the centre by `(y - h/2)/h` windows |
| Zoom.SameQuotient | fractals.cpp:218 | a quantity divided by two positive reals gives the same quotient iff it is 0 or the divisors agree |
| Zoom.RecenterOnPixelY | fractals.cpp:218 | the new imaginary part is the one the probe sampled at the pixel iff the panel is square, the pixel is on the middle row, or the window is empty |
| Zoom.ZoomStep | fractals.cpp:207-218 | one step draws the probe at the halved window, selects from it, and moves the centre by the selected pixel's offset |
| Zoom.TraceExtend | fractals.cpp:205-222 | a further probe and selection at the halved last viewport, with the next step's chooser, extends the recorded trace |
| Zoom.DrawFractal | fractals.cpp:193-228 | three recorded probe/select steps, step `i` drawing with its own chooser; the final picture is drawn at the resulting viewport, of inverse zoom 0.25; bytes past the image are untouched |

## Left out

- Floating point: `long double` arithmetic, including `scaleY` and the
  sampling, is modelled with exact reals. The test `sqrt(x) > 2` becomes
  `x > 4`, which is the same test over the reals.
- The colour term: `pow` with `COLOR_REPETITIONS` and `COLOR_SKEW` is the
  parameter `shade`, an arbitrary function from the escape count to the
  truncated byte. Only its use modulo 7 is modelled.
- The random device and `mt19937` are a sequence `draws` of choosers, one
  per zoom step, so two steps may draw different indices from equal counts.
  Each is required to pick an index below the number of candidates. The
  model does not capture uniformity.
- Panel size: the width and height come from `fractals.h`, which is not part
  of this model. They are parameters `w` and `h`, and the width must be even
  (see `Packing.OddWidthCollision`).
- Integer widths: the `uint16_t` pixel coordinates and counter, and the
  `unsigned int` row offset, are unbounded naturals. For an 800-wide panel,
  capacity 8000 and every row offset fit, so no wrap-around arises.
- Selector.FindInterestingPixel: it allocates a fresh candidate array on
  each call. The source keeps one static array across calls, whose stale
  contents only the as-written draw can observe.
- Selector.FindInterestingPixel: it follows the corrected draw (see
  Findings), an index below the count, with the centre as the fallback when
  there is no candidate. The as-written draw is modelled separately by
  `Selector.DrawAsWritten`.
- The `printf` progress and offset messages are output only and are not
  modelled.
- The display driver and `DEV_Config` are not part of this model.

## Findings

| source | as written | input that shows it | evidently intended | confidence | as-written member | corrected member |
|---|---|---|---|---|---|---|
| fractals.cpp:179-188 | the index is drawn from `uniform_int_distribution(0, pixnum)`, which includes `pixnum`, one past the last filled slot | fewer candidates than slots on the first call of a run: the draw may give `pixnum`, an unfilled slot holding (0, 0), which is never a candidate (on later calls it holds a stale pixel of an earlier probe); a full array: the draw may give `pixelPositionsMax`, past the array's end; an all-black probe: no candidate, and slot 0 is returned, unfilled on the first call and stale afterwards | an index in `0 .. pixnum-1`, and a defined fallback (the centre pixel) when there is no candidate | high (not executed) | Selector.AsWrittenDrawCounterexample | Selector.FindInterestingPixel |
