# aithreshold: adaptive thresholding with a summed-area table

This project models the core of `aithreshold`, a command-line tool that
binarises an image.

- **Grayscale reduction and table build.** One raster pass in `main` reduces
  each decoded RGBA pixel to an 8-bit intensity: the truncated mean of the
  file's first `channels` components. The same pass builds the summed-area
  table (integral image) of those intensities, from the three table cells
  already written.
- **Thresholding.** `aithreshold` visits every pixel in raster order. It reads
  the sum of a window around the pixel from the table by a four-corner query,
  derives a threshold from the window's mean, and optionally replaces the
  pixel's value by an edge-enhanced one. It then overwrites the pixel in place
  with 0 or 255.

The Dafny modules follow that structure:

| module | file | contents |
|---|---|---|
| `Image` | `image.dfy` | the `byte` type and the row-major addressing `y * w + x`, with its arithmetic facts |
| `Integral` | `integral.dfy` | the summed-area table as a specification (`Prefix`, `SumTo`, `IsIntegral`); independent reference sums (`Span`, `RectSum`); inclusion–exclusion; the raster recurrence; monotonicity |
| `Reduce` | `reduce.dfy` | the grayscale-and-table loop of `main`, as methods over arrays proved against `GrayImage` and `IsIntegral` |
| `Geometry` | `geometry.dfy` | window half-sizes, clamping of a window to the image, cell counts, corner addresses |
| `Threshold` | `threshold.dfy` | `aithreshold`: the per-pixel decision as a function, the in-place loop as methods over arrays, and the query proved equal to a direct window sum |
| `Pipeline` | `pipeline.dfy` | the processing part of `main`: reduce, build the table, threshold |

The model follows the code in these points:

- **Intensity.** Intensity is `floor(sum / channels)` over the first
  `channels` components of the RGBA pixel. For a 4-channel file the alpha
  component is part of the mean.
- **Table.** Table cell (x, y) holds the sum over columns 0..x and rows 0..y.
  All table values are non-negative: the table is an `array<nat>`, and every
  write to it is proved to respect that type. So the unsigned `size_t`
  accumulation of lines 188-200 never goes below zero.
- **Window query.** A window has corners (x1, y1) and (x2, y2), and its query
  `dataint[k22] + dataint[k11] - dataint[k12] - dataint[k21]` covers the cells
  x1 < x' ≤ x2, y1 < y' ≤ y2. Row y1 and column x1 are not part of it, and
  `count = (x2 - x1) * (y2 - y1)` is exactly the number of cells it covers. As
  a consequence, row 0 and column 0 never contribute to any window, and a
  pixel need not lie in its own window. `Threshold.TwoByTwo` shows this on a
  2-by-2 image.
- **Floating point.** The floating-point parts of `aithreshold` are not
  modelled as arithmetic; `Threshold.Params` carries them as functions.
  - `thres(sum, count)` stands for lines 57-58 (the mean, `tscale` and
    `delta`).
  - `edgeDiv(pix, sumw, countw)` stands for lines 70-90 (EdgePlus and
    BlurDiv, up to the rounding `(int)(retval + 0.5f)`).
  - `edgeOn` is the test `ked > 0.0f`.

  Everything around them is modelled exactly: windows, counts, queries, the
  trim to [0, 255] at line 92, and the decision at line 95.
- **In place.** `aithreshold` overwrites `data[k]` after reading it. The next
  pixels read `data` only at their own address, and all other intensities
  come from the table. The final buffer is therefore the decision taken on the
  original intensities everywhere (`Threshold.OnlyOwnPixelRead`,
  `Threshold.AiThreshold`).

## Model

| member | source | states |
|---|---|---|
| `Reduce.ChannelSum` | src/aithreshold.c:182-186 | the sum of d 8-bit components lies in [0, 255 * d] |
| `Reduce.QuotientOfSum` | src/aithreshold.c:187 | dividing a sum of c bytes by c gives a byte q with q * c ≤ s < (q + 1) * c |
| `Reduce.Gray` | src/aithreshold.c:181-187 | the intensity g is a byte and is the floor of the channel mean: g * channels ≤ sum < (g + 1) * channels |
| `Reduce.GrayImage` | src/aithreshold.c:178-201 | the intensity buffer `data` has one entry per pixel, each the floor of that pixel's channel mean |
| `Reduce.MeanOfChannels` | src/aithreshold.c:181-187 | the channel loop returns exactly `Gray` of the pixel |
| `Reduce.TableCell` | src/aithreshold.c:188-199 | in raster order the left, upper and diagonal neighbours are already correct table cells, their addresses are in range, and own value + left + up − diagonal is the table value of the cell |
| `Reduce.IntegrateCell` | src/aithreshold.c:181-204 | one pixel step writes the intensity to `data[kd]` and the table value to `dataint[kd]` and changes no other cell |
| `Reduce.ReduceRow` | src/aithreshold.c:180-205 | after a row, every cell up to the row's end holds its intensity and its table value, and every later cell of both buffers keeps its old value |
| `Reduce.ReduceAndIntegrate` | src/aithreshold.c:175-206 | on exit `data` is the intensity image and `dataint` its summed-area table |
| `Integral.RowSum` | src/aithreshold.c:188-199 | a row prefix of x intensities sums to between 0 and 255 * x |
| `Integral.Prefix` | src/aithreshold.c:188-199 | prefix sums (the table content) are non-negative |
| `Integral.Span` | src/aithreshold.c:51-55 | a direct row segment sum lies in [0, 255 * length] |
| `Integral.RectSum` | src/aithreshold.c:51-55 | a direct rectangle sum lies in [0, 255 * width * height of the rectangle] |
| `Integral.SumTo` | src/aithreshold.c:188-200 | the table value of any cell is non-negative, so the unsigned accumulation never goes below zero |
| `Integral.IsIntegral` | src/aithreshold.c:188-200 | a summed-area table, the content of `dataint`, holds only non-negative values |
| `Integral.TableAt` | src/aithreshold.c:51-55 | the table read at cell (x, y) is the prefix sum up to and including (x, y), at an address inside the buffer |
| `Integral.SumToCell` | src/aithreshold.c:188-200 | the table value at address y * w + x is the inclusive prefix sum of cell (x, y) |
| `Integral.PrefixFirstColumn` | src/aithreshold.c:188-189 | an empty column range sums to 0, which is why a missing left neighbour counts 0 |
| `Integral.SpanIsRowDifference` | src/aithreshold.c:51-55 | a row segment sum is the difference of two row prefix sums |
| `Integral.InclusionExclusion` | src/aithreshold.c:51-55 | a rectangle sum equals far corner − left strip − upper strip + doubly removed corner of the prefix sums |
| `Integral.PrefixMonotone` | src/aithreshold.c:188-199 | prefix sums do not decrease by one more column or one more row |
| `Integral.PrefixRowsMonotone` | src/aithreshold.c:55 | prefix sums do not decrease with the number of rows |
| `Integral.IntegralStep` | src/aithreshold.c:188-199 | the raster recurrence: table(k) = p[k] + table(k − 1) + table(k − w) − table(k − w − 1), missing neighbours counting 0 |
| `Integral.LeftCell` | src/aithreshold.c:188-191 | the left neighbour of cell (x, y), x > 0, is address k − 1 and holds the prefix sum of columns below x |
| `Integral.UpperCell` | src/aithreshold.c:192-195 | the upper neighbour of cell (x, y), y > 0, is address k − w and holds the prefix sum of rows below y |
| `Integral.DiagonalCell` | src/aithreshold.c:196-199 | the diagonal neighbour, x > 0 and y > 0, is address k − w − 1 and holds the prefix sum of both |
| `Integral.PrefixStep` | src/aithreshold.c:188-199 | inclusive prefix of (x, y) = own value + prefix left + prefix above − their overlap |
| `Integral.RightNeighbour` | src/aithreshold.c:188-199 | a table cell is not greater than its right neighbour in the same row |
| `Integral.LowerNeighbour` | src/aithreshold.c:188-199 | a table cell is not greater than the cell below it |
| `Integral.IntegralMonotone` | src/aithreshold.c:188-199 | the summed-area table is non-decreasing to the right and downwards |
| `Integral.SpanUniform` | src/aithreshold.c:50-55 | on an image of one intensity v, a row segment sums to v times its length |
| `Integral.RectUniform` | src/aithreshold.c:50-55 | on an image of one intensity v, a rectangle sums to v times its number of cells |
| `Geometry.Window.Area` | src/aithreshold.c:50 | the cell count `count` (and `countw`, line 64) is 0 exactly when the window is degenerate along one axis |
| `Geometry.HalvedQuotient` | src/aithreshold.c:34-37 | for n > 2d, half of n / d times 2d is at most n and n is below the next multiple of 2d |
| `Geometry.Radius` | src/aithreshold.c:34-37 | the half-size is at least 1; it is 1 when n ≤ 2 * npart, and otherwise the window 2r spans n / npart, 2r * npart ≤ n < (2r + 2) * npart |
| `Geometry.ClampLo` | src/aithreshold.c:42-48 | the lower edge is at most c and at most r below it, exactly r when not stopped at 0 |
| `Geometry.ClampHi` | src/aithreshold.c:43-49 | the upper edge is in [c, n − 1] and at most r above c, exactly r when not stopped at n − 1 |
| `Geometry.ClampWindow` | src/aithreshold.c:42-49 | the clamped window lies inside the image and its corner range contains the pixel |
| `Geometry.MeanWindowAt` | src/aithreshold.c:42-49 | the local-mean window of pixel k lies inside the image |
| `Geometry.EdgeWindowAt` | src/aithreshold.c:62-63 | the edge window of pixel k lies inside the image |
| `Geometry.ClampedWidthPositive` | src/aithreshold.c:48-50 | along one axis a clamped window of half-size ≥ 1 has positive extent iff the axis has at least 2 pixels |
| `Geometry.ClampedAreaPositive` | src/aithreshold.c:50 | a clamped window with half-sizes ≥ 1 covers a cell iff the image is at least 2 by 2 |
| `Geometry.MeanAreaPositive` | src/aithreshold.c:50-57 | `count` is non-zero iff the image is at least 2 by 2, so the mean's divisor is never 0 there |
| `Geometry.EdgeAreaPositive` | src/aithreshold.c:64-70 | for wed ≥ 1, `countw` is non-zero iff the image is at least 2 by 2 |
| `Geometry.CornersInBounds` | src/aithreshold.c:51-54 | the four corner addresses of a window inside the image are inside the buffer |
| `Threshold.Clamp255` | src/aithreshold.c:92 | the trim keeps values in [0, 255] unchanged and otherwise gives the nearest byte |
| `Threshold.Compared` | src/aithreshold.c:56-93 | with edge enhancement off the compared value is the pixel itself; with it on, the trimmed EdgeDiv value, in [0, 255] |
| `Threshold.Decide` | src/aithreshold.c:95 | the output is 0 or 255, and 0 exactly when the value is below the threshold |
| `Threshold.Query` | src/aithreshold.c:51-55 | on any table, the four-corner query (also `sumw`, line 69) of a window degenerate along one axis is 0 |
| `Threshold.WindowSum` | src/aithreshold.c:51-55 | the intensities a window query covers sum to between 0 and 255 per covered cell |
| `Threshold.QueryIsWindowSum` | src/aithreshold.c:51-55 | on a summed-area table the four-corner query equals the direct window sum and lies in [0, 255 * count] |
| `Threshold.QueryNoWrap` | src/aithreshold.c:55 | every left-to-right partial result of the unsigned query is non-negative, so it never wraps |
| `Threshold.ThresholdPixel` | src/aithreshold.c:48-95 | the table-based decision for one pixel is 0 or 255 |
| `Threshold.Thresholded` | src/aithreshold.c:39-97 | the output image has one decision per pixel, the k-th being `ThresholdPixel` of pixel k |
| `Threshold.ReferencePixel` | src/aithreshold.c:48-95 | the table-free decision for one pixel is 0 or 255 |
| `Threshold.PixelMatchesReference` | src/aithreshold.c:48-95 | with the table of the original intensities, the table-based decision equals the one taken directly on the intensities |
| `Threshold.OnlyOwnPixelRead` | src/aithreshold.c:56-95 | a pixel's decision depends on `data` only through that pixel, so earlier overwrites do not affect it |
| `Threshold.WindowSumUniform` | src/aithreshold.c:50-55 | on an image of one intensity v, a window sums to v * count |
| `Threshold.UniformImage` | src/aithreshold.c:50-58 | on an image of one intensity with edge enhancement off, each pixel is compared with the threshold of sum v * count over count |
| `Threshold.EdgeOffReference` | src/aithreshold.c:59 | with `ked` ≤ 0 the edge window plays no part and the pixel itself is compared with the mean threshold |
| `Threshold.TwoByTwoWindow` | src/aithreshold.c:34-55 | on a 2-by-2 image with npart = 1 every window has corners (0, 0) and (1, 1) and covers only cell (1, 1) |
| `Threshold.TwoByTwo` | src/aithreshold.c:34-95 | on [[0, 0], [0, 255]] every pixel, (0, 0) included, is compared with the threshold for sum 255 over one cell |
| `Threshold.CornerQuery` | src/aithreshold.c:51-55 | the four reads and the sum compute the four-corner query |
| `Threshold.MeanThreshold` | src/aithreshold.c:48-58 | the computed threshold is `thres` of the query and the cell count of the pixel's local-mean window |
| `Threshold.EdgeValue` | src/aithreshold.c:62-92 | the computed value is the trimmed EdgeDiv of the pixel over the query and the count of its edge window |
| `Threshold.PixelValue` | src/aithreshold.c:48-94 | the inner-loop body computes exactly `ThresholdPixel` of the current buffer |
| `Threshold.HalfSize` | src/aithreshold.c:34-37 | the computed half-size is `Radius` |
| `Threshold.ThresholdRow` | src/aithreshold.c:42-97 | after a row, the row's pixels hold their decision and later pixels still hold their intensity |
| `Threshold.AiThreshold` | src/aithreshold.c:27-99 | the table is unchanged and the buffer becomes `Thresholded` of the original buffer and the table |
| `Pipeline.Binarise` | src/aithreshold.c:165-215 | every output pixel is 0 or 255 and equals the table-free decision on the intensity image |

## Left out

- Floating-point arithmetic (lines 57-58 and 70-90) is not modelled. The
  mean threshold and the EdgeDiv value are parameters of the model (`thres`,
  `edgeDiv`), so the result of particular `tscale`, `delta` and `ked` values,
  and float rounding, is not captured.
- Images one pixel wide or high: there `count` (or `countw`) is 0, and the C
  code divides a float by 0 and casts the result to `int`. The model passes
  the 0 count to the abstract `thres` and `edgeDiv` and says nothing about
  what the C code then produces (`Geometry.MeanAreaPositive` shows exactly
  when this happens).
- `Threshold.AiThreshold`: requires `npart > 0`. At 0 the C code divides by
  zero (lines 34-35). A negative value is not checked by the option parser
  (line 127), and the C code then mixes it with unsigned variables; that
  behaviour is not modelled.
- `wed` is a natural number in the model. The option parser raises it to at
  least 2 (line 134), so negative values cannot reach `aithreshold`.
- Machine integer widths are not modelled: `unsigned int` for the
  coordinates and `count`, `int` for the intensity sum, `size_t` for the
  table and for `sum`. The model uses unbounded integers, so it assumes
  `255 * width * height` fits in `size_t` and `width * height` in
  `unsigned int`. That no unsigned subtraction wraps below zero is proved
  for the table the pass of `main` builds (`Threshold.QueryNoWrap`, which
  requires a summed-area table, and the `nat` type of the table).
- `Threshold.AiThreshold`: its contract holds for any `dataint`, including
  one that is not a summed-area table. For such a table the C `size_t`
  query at line 55 can wrap around, while the model hands the negative
  difference to `thres`; that wrap-around is not modelled.
- Decoding and encoding (`stbi_load`, `stbi_write_png`), the conversion of
  the file's pixels to RGBA done by the decoder, option parsing (`getopt`),
  the usage text, the log lines, `malloc` failures and freeing are not part
  of this model. `Pipeline.Binarise` starts from the decoded RGBA buffer and
  the file's channel count (1 to 4), and ends with the binary buffer.
