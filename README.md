# Seam finding on a canvas, in Dafny

This project models the seam-carving pass of `src/pages/index.tsx` (`convolve`
and `manipulatePixels`) and proves properties of it. The pass does four things
to the RGBA bytes of a canvas `w` pixels wide and `h` pixels high:

1. **Energy fill.** A Sobel gradient is taken at the red byte of every pixel.
   Taps are read with JavaScript's `Array.prototype.at`. Each pixel's gradient
   magnitude goes into a flat energy buffer of `w * h` cells.
2. **Bottom-up DP.** The DP runs in place, from the last cell of the
   second-to-last row down to cell 0. Each cell gains the least of its three
   lower neighbours. A side outside the row is replaced by the cell directly
   below. A running `min`/`max` of the added values is kept.
3. **Backtrace.** The backtrace walks down from the first least cell of the top
   row. At each step it goes to the first least of left / centre / right below,
   where a side outside the row counts as +infinity. It marks cells with
   -infinity.
4. **Render.** Every pixel is rewritten: opaque red for a -infinity cell,
   otherwise an opaque grey at the cell's value normalised between `min` and
   `max`.

Modules, in pipeline order:

- `Extended`: extended numbers `NegInf | Fin(v) | PosInf`, and `Math.min` and
  `indexOf` over them.
- `Grid`: flat-index arithmetic.
- `Convolution`: the kernels and `convolve`.
- `EnergyMap`: the fill loop.
- `Accumulation`: the DP loop, and the DP values as a recursive reference
  definition.
- `SeamTrace`: the backtrace exactly as written.
- `SeamCells`: where the as-written marks land.
- `CorrectedTrace`: the backtrace with line 105 fixed, and its optimality.
- `Render`: the render loop.
- `SeamCarving`: `manipulatePixels` end to end, as written (`ManipulatePixels`)
  and with line 105 corrected (`ManipulatePixelsCorrected`).

Where the code and its documentation disagree, the model follows the code:

- A tap left of or above the image does not always read 0. A negative index
  `k >= -len` wraps to the end of the buffer (`at`). Below `-len` it reads 0.
  That happens only for the above-left tap of pixel 0 when `h == 1`. A tap past
  the end reads 0 (undefined, then `or 0`). The left tap of column 0 reads the
  previous row's last pixel.
- There is no fallback colour when `max == min`. The model follows the IEEE
  arithmetic the code performs. A cell at `min` gives 0/0, which is NaN and
  stores 0. A cell above `min` gives x/0 with x > 0, which is +infinity and
  stores 255. A cell below `min` gives -infinity, which stores 0.
- `min` and `max` follow the added neighbour minima (`value`), not the
  accumulated cells.
- The backtrace's mark lands in row `2i` for step `i`; see Findings.

## Model

| member | source | states |
|---|---|---|
| `Convolution.At` | src/pages/index.tsx:46-54 | a tap `pixels.at(k)`, undefined read as 0, is `pixels[k]` in range, `pixels[len + k]` for `-len <= k < 0`, and 0 beyond either end |
| `Convolution.Convolve` | src/pages/index.tsx:38-56 | `convolve(i, pixels, kernel)`: the nine taps at `i ± 4w ± 4`, each read through `at` and weighted by its kernel entry, summed; it is 0 on an empty buffer or an empty kernel, where every tap reads 0 |
| `Convolution.ConvolveIsStencilSum` | src/pages/index.tsx:38-56 | `convolve` equals the kernel-weighted sum of the nine taps at offsets `±r ±c` in row-major kernel order, with `r = 4w`, `c = 4` |
| `Convolution.TapOffsets` | src/pages/index.tsx:42-54 | tap j reads at offset `4 * ((j / 3 - 1) * w + (j % 3 - 1))`, the nine offsets written out |
| `Convolution.GradientX` | src/pages/index.tsx:7 | with `kernelX` filled in, the gradient is (right column) − (left column) with weights 1, 2, 1 |
| `Convolution.GradientY` | src/pages/index.tsx:8 | with `kernelY` filled in, the gradient is (row above) − (row below) with weights 1, 2, 1 |
| `Convolution.ConvolveBounded` | src/pages/index.tsx:7-8 | on byte-valued pixels both gradients lie in `[-1020, 1020]` |
| `Convolution.ConvolveReadsRedOnly` | src/pages/index.tsx:70-72 | for a pixel-aligned `i`, two buffers that agree on every red byte (index ≡ 0 mod 4) give the same gradient: only red is read, wrapped taps included |
| `Convolution.StencilSumReadsRedOnly` | src/pages/index.tsx:42-54 | every prefix of the tap sum reads only indices ≡ 0 mod 4 |
| `Convolution.AtRedOnly` | src/pages/index.tsx:46-54 | a tap at an index ≡ 0 mod 4 reads a red byte, also when it wraps round |
| `EnergyMap.ISqrt` | src/pages/index.tsx:73 | the square root rounded down: `r*r <= n < (r+1)*(r+1)` |
| `EnergyMap.EnergyAt` | src/pages/index.tsx:71-73 | the energy at byte `i` is the rounded-down magnitude of the two gradients, never negative |
| `EnergyMap.EnergyBounded` | src/pages/index.tsx:71-73 | on byte-valued pixels every energy lies in `[0, 1443)` |
| `EnergyMap.EnergyReadsRedOnly` | src/pages/index.tsx:70-73 | a pixel's energy depends on the red bytes only |
| `EnergyMap.EnergyGridAt` | src/pages/index.tsx:70-74 | cell p of the energy grid is the energy at byte `4p` |
| `EnergyMap.BuildEnergy` | src/pages/index.tsx:68-75 | the loop over `i = 0, 4, 8, …` leaves a fresh buffer whose every cell `p < w*h` holds the energy of pixel p (`energy[i/4]`) |
| `Grid.LeftInRow` | src/pages/index.tsx:84-88 | `floor((c-1)/w) == floor(c/w)` iff `c mod w > 0`; never for `w == 1` |
| `Grid.RightInRow` | src/pages/index.tsx:84-89 | `floor((c+1)/w) == floor(c/w)` iff `c mod w < w-1`; never for `w == 1` |
| `Accumulation.Min3` | src/pages/index.tsx:91-95 | `Math.min` of three: at most each argument and equal to one of them |
| `Accumulation.AccGridKeepsLastRow` | src/pages/index.tsx:79 | the DP never changes the last row (indices `>= len - w`); a one-row grid is unchanged |
| `Accumulation.ReadsBelow` | src/pages/index.tsx:80-95 | once every later cell is final, the row tests select exactly the in-row neighbours, and the least of the three reads is what the DP definition adds at `i` |
| `Accumulation.ReadsInRange` | src/pages/index.tsx:80-94 | every read of a DP step is inside the buffer |
| `Accumulation.LeastBelow` | src/pages/index.tsx:80-95 | the reads of one DP step: three indices below `i`, and the `Math.min` of the selected cells |
| `Accumulation.SweepStep` | src/pages/index.tsx:79-99 | one turn on a half-done buffer finishes cell `i` with its DP value, and the added value is the DP step there |
| `Accumulation.AccLowerBound` | src/pages/index.tsx:79-100 | no path from a cell to the last row (one row down and at most one column per step) costs less than the DP value of that cell |
| `Accumulation.BestBelow` | src/pages/index.tsx:91-95 | among the in-row cells below, one within one column holds the least DP value, which is what the DP adds above |
| `Accumulation.AccIsPathCost` | src/pages/index.tsx:79-100 | the DP value of every cell is the cost of a path from it to the last row; with `AccLowerBound`, it is the least such cost |
| `Accumulation.BestPathIsSeam` | src/pages/index.tsx:79-100 | the path that always steps to a least cell below is a path in the grid |
| `Accumulation.StepRange` | src/pages/index.tsx:97-98 | with two or more rows, `min` and `max` are finite, every added value lies in `[min, max]`, and both bounds are reached |
| `Accumulation.RunningMinIsLeast` | src/pages/index.tsx:97 | the running `min` is +inf before any value and otherwise the least value seen, reached by one of them |
| `Accumulation.RunningMaxIsGreatest` | src/pages/index.tsx:98 | the running `max` is -inf before any value and otherwise the greatest value seen, reached by one of them |
| `Accumulation.RunningStep` | src/pages/index.tsx:97-98 | the two strict comparisons advance the running `min` and `max` by one value |
| `Accumulation.Relax` | src/pages/index.tsx:80-99 | one turn of the loop moves the buffer one index further through the DP and `min`/`max` one value further |
| `Accumulation.Accumulate` | src/pages/index.tsx:77-100 | the in-place loop leaves the DP grid in the buffer, leaves a one-row grid unchanged, and returns the `min`/`max` of the added values (+inf/-inf when there are none) |
| `Extended.MinOf` | src/pages/index.tsx:103 | `Math.min(...s)`: no greater than any element, one of them, +inf for none |
| `Extended.IndexOf` | src/pages/index.tsx:103 | `indexOf`: the first position holding the value, -1 when it is absent |
| `Extended.FirstMinIsIndexOfMin` | src/pages/index.tsx:124 | the left-to-right first-minimum scan equals `s.indexOf(Math.min(...s))` |
| `Extended.FirstMinIsFirstLeast` | src/pages/index.tsx:103 | that position holds a least element and every earlier one is strictly greater (ties go left) |
| `SeamTrace.TopRow` | src/pages/index.tsx:102 | `energy.slice(0, w)`: the first `w` cells, fewer for a shorter buffer |
| `SeamTrace.NextCol` | src/pages/index.tsx:107-125 | a step moves to a column inside the grid and at most one column over |
| `SeamTrace.NextColIsLeftmostLeast` | src/pages/index.tsx:118-124 | the column a step picks holds the least in-row cell below, and every in-row column left of it holds a strictly greater one |
| `SeamTrace.RowTests` | src/pages/index.tsx:107-116 | from flat index `row*w + col`, the source's row tests keep a side exactly when it is inside the row |
| `SeamTrace.ReadsCandidates` | src/pages/index.tsx:107-122 | the source's reads are exactly the three candidates, with +inf for an out-of-row side, and all lie inside the buffer |
| `SeamTrace.MarkAllAt` | src/pages/index.tsx:105 | a cell turns -inf exactly when it is one of the written indices; a write past the end changes nothing |
| `SeamTrace.StepOffset` | src/pages/index.tsx:107-124 | the row tests, the three reads and `indexOf(Math.min(...)) - 1` give an offset in -1..1 that moves to `NextCol`'s column, which `NextColIsLeftmostLeast` shows is the leftmost least in-row cell below |
| `SeamTrace.MarkAsWritten` | src/pages/index.tsx:105 | step `row` adds the as-written mark `row*w + removalIndex` to the buffer's marks; a write past the end is dropped |
| `SeamTrace.TraceStep` | src/pages/index.tsx:104-125 | one turn of the loop as written: the buffer gains the turn's mark, and before the last row the next column and flat index are the next step of the as-written descent |
| `SeamTrace.Backtrace` | src/pages/index.tsx:102-126 | the loop as written leaves -inf exactly at index `i*w + removalIndex` of each step i (row 2i) of the columns it follows, reading its own earlier marks; writes past the end are dropped |
| `SeamCells.AsWrittenMarksAt` | src/pages/index.tsx:105 | a cell is -inf after the as-written backtrace exactly when its row is `2k` for a step `k` taken and the seam was in its column at step k |
| `SeamCells.AsWrittenColsConnected` | src/pages/index.tsx:124-125 | the as-written columns move at most one column per step |
| `SeamCells.AsWrittenSkipsRowOne` | src/pages/index.tsx:105 | on any grid of two or more rows no cell of row 1 is marked |
| `CorrectedTrace.GreedyFirst` | src/pages/index.tsx:102-103 | the corrected descent starts at the first least cell of the top row |
| `CorrectedTrace.GreedyStep` | src/pages/index.tsx:107-125 | each further column is the step the source takes from the column above |
| `CorrectedTrace.GreedyIsSeam` | src/pages/index.tsx:104-126 | the descent is a path: one column per row, each inside the grid, adjacent rows at most one column apart |
| `CorrectedTrace.SeamMarksAt` | src/pages/index.tsx:105 | marking a seam turns exactly its cells -inf |
| `CorrectedTrace.CorrectedMarksEveryRow` | src/pages/index.tsx:105 | with the fix, each row has exactly one -inf cell, in the descent's column, and every other cell keeps its value |
| `CorrectedTrace.CandidatesUnmarked` | src/pages/index.tsx:105-122 | the marks so far never lie below the current row, so every step reads the grid as the DP left it |
| `CorrectedTrace.MarkSeamCell` | src/pages/index.tsx:105 | with line 105 corrected, step `row` writes -inf at `removalIndex`, adding the seam's cell in row `row` to the marks |
| `CorrectedTrace.TraceStepCorrected` | src/pages/index.tsx:104-125 | one turn of the corrected loop: the buffer gains the seam cell of this row, and before the last row the next column and flat index are the descent's next step |
| `CorrectedTrace.BacktraceCorrected` | src/pages/index.tsx:102-126 | the loop with `energy[removalIndex]` marks exactly the descent's cells, one per row |
| `CorrectedTrace.NextColFollowsStep` | src/pages/index.tsx:107-125 | on the DP grid, a step moves to a column whose DP value is what the DP added above it |
| `CorrectedTrace.GreedyDescent` | src/pages/index.tsx:79-126 | along the descent, the remaining seam costs exactly the DP value of its current cell |
| `CorrectedTrace.GreedyTopIsLeast` | src/pages/index.tsx:102-103 | the descent starts in a top-row column of least DP value |
| `CorrectedTrace.GreedySeamIsOptimal` | src/pages/index.tsx:77-126 | the marked seam costs the least top-row DP value, and no seam costs less |
| `Render.ClampByte` | src/pages/index.tsx:131-135 | a store into a Uint8ClampedArray clamps to 0..255 |
| `Render.GreyLevel` | src/pages/index.tsx:129-130 | the byte stored for `Math.floor((e - min) / (max - min) * 255)`: 0 when `min` or `max` is infinite; for `max == min`, 255 above `min` and 0 at or below it; over a proper range, 0 at or below `min` and 255 at or above `max` |
| `Render.PixelFor` | src/pages/index.tsx:131-135 | the four bytes `pixels.set` writes for one cell: `[255, 0, 0, 255]` for -inf, otherwise `[g, g, g, 255]` with `g` the grey level |
| `Render.PixelForRedIffMarked` | src/pages/index.tsx:131-135 | a pixel is red exactly for a -inf cell; other cells give R = G = B; alpha is always 255 |
| `Render.GreyLevelMonotone` | src/pages/index.tsx:129-130 | the grey level keeps the order of energies; over a proper range, `min` maps to 0 and `max` to 255 |
| `Render.RenderedAt` | src/pages/index.tsx:128-136 | byte j of the rendering is channel `j % 4` of the pixel for cell `j / 4` |
| `Render.RenderedPixel` | src/pages/index.tsx:128-136 | the four bytes of pixel p are the pixel for cell p, red exactly when the cell is -inf |
| `Render.RenderPixels` | src/pages/index.tsx:128-137 | the loop rewrites exactly the buffer's bytes, four per cell, as the rendering of the energy buffer |
| `SeamCarving.ManipulatePixels` | src/pages/index.tsx:58-152 | the four passes as written leave the rendering of the DP grid, marked by the as-written backtrace, in the pixel buffer; a zero-width canvas is unchanged |
| `SeamCarving.AsWrittenDpCell` | src/pages/index.tsx:77-126 | the cell the render loop reads is -inf exactly when its row is even and the backtrace was in its column at step row / 2, and is the DP value elsewhere |
| `SeamCarving.ProcessedAsWritten` | src/pages/index.tsx:58-152 | in the source's output, pixel (row, col) is red exactly when row is even and the backtrace was in column col at step row / 2; every other pixel is grey at its DP value normalised by the DP's `min`/`max` |
| `SeamCarving.ProcessedRowOneNotRed` | src/pages/index.tsx:58-152 | in the source's output on a canvas of two or more rows, no pixel of row 1 is red |
| `SeamCarving.ManipulatePixelsCorrected` | src/pages/index.tsx:58-152 | with line 105 corrected, the four passes leave the rendering of the DP grid, marked on the seam, in the pixel buffer; a zero-width canvas is unchanged |
| `SeamCarving.MarkedDpCell` | src/pages/index.tsx:77-126 | with line 105 corrected, the cell the render loop reads is -inf exactly on the seam and the DP value elsewhere |
| `SeamCarving.ProcessedMarksSeam` | src/pages/index.tsx:58-152 | with line 105 corrected, pixel (row, col) of the output is red exactly on the seam; every other pixel is grey at its DP value normalised by the DP's `min`/`max` |
| `SeamCarving.ProcessedSeamIsOptimal` | src/pages/index.tsx:58-152 | with line 105 corrected, the red seam is a least-energy seam of the energy grid |

## Left out

- Image loading, the effect hook, canvas sizing, `devicePixelRatio` and
  `drawImage` (lines 13-36): browser I/O.
- `getImageData`/`putImageData`, `console.time` and the null-canvas early
  returns (lines 39-40, 59-66, 150-151): DOM plumbing. The pixel buffer is a
  method parameter, and `canvas.width`/`canvas.height` are the parameters `w`
  and `h`.
- The commented-out resize code (lines 139-148): it never runs.
- The JSX markup: it is rendered, but it is page markup and takes no part in
  the computation.
- EnergyMap.EnergyAt: floating point is not modelled. `Math.sqrt` is rounded
  down to an integer (`ISqrt`), and the Float32Array's rounding is not
  modelled. The DP, backtrace and render lemmas hold for any finite integer
  grid. The end-to-end output of `SeamCarving`, however, is that of the
  rounded-down energy grid. It can pick a different seam and grey levels than
  the program does. For example, two cells whose squared gradients are 8 and 8
  cost 2 + 2 = 4 here and about 5.66 in the program, while cells with 16 and 1
  cost 5 in both.
- Render.GreyLevel: `(e - min) / (max - min) * 255` is computed exactly, then
  floored. Double rounding of that quotient is not modelled. The results for
  infinite bounds and for `max == min` follow IEEE arithmetic.
- SeamTrace.Backtrace: on the last step the source reads past the buffer
  (`undefined`) and computes an offset that is never used. The model skips
  those reads. Everything the loop writes is modelled.
- Accumulation.Accumulate: requires `w > 0`, as do `SeamTrace.Backtrace` and
  `CorrectedTrace.BacktraceCorrected`. The reason is that for `w == 0` the DP
  loop would start at index -1 and never run. The backtrace's top row would be
  empty, so `Math.min()` is +infinity and `indexOf` gives `removalIndex = -1`.
  Line 105 then writes index -1. Each later step reads only undefined cells, so
  `Math.min` is NaN, `indexOf` gives -1 and the offset is -2. The later writes
  go to -3, -5 and so on. Every write is at a negative index
  and is dropped. `SeamCarving.ManipulatePixels`
  and `SeamCarving.ManipulatePixelsCorrected` handle `w == 0` themselves:
  nothing happens to the pixels.

## Findings

| source | as written | input that shows it | evidently intended | confidence | as-written member | corrected member |
|---|---|---|---|---|---|---|
| src/pages/index.tsx:105 | `energy[i * canvas.width + removalIndex] = -Infinity`, although after line 125 `removalIndex` is already the flat index `i*w + col`. So step i marks row 2i, rows past `h/2` are written out of range (dropped), odd rows are never marked, and a mark in row `2i` can be read back by step `2i-1` | any canvas of at least two rows, e.g. 1×2: row 1 never gets a red pixel | `energy[removalIndex] = -Infinity`: one red cell per row, on the seam | not executed | `SeamCells.AsWrittenSkipsRowOne` | `CorrectedTrace.CorrectedMarksEveryRow` |

`SeamTrace.Backtrace` and `SeamCells.AsWrittenMarksAt` model the line as written,
and `SeamCarving.ManipulatePixels`, `ProcessedAsWritten` and
`ProcessedRowOneNotRed` carry it to the rendered output.
`CorrectedTrace.BacktraceCorrected` is the corrected loop, and
`SeamCarving.ManipulatePixelsCorrected` is the pipeline that uses it.
