# xorblednam in Dafny

xorblednam draws two fractal images into a flat RGB8 raster and saves each as a PNG file.

- **Escape-time Mandelbrot.** Each pixel of a grid over the viewport `[-2, 1) x [-1.5, 1.5)` is a point `c`. The renderer iterates `z = z*z + c` from `z = c` and stops at the first iterate whose squared modulus exceeds 4. A pixel that escapes at iteration `k` gets colour `k mod 16` of a fixed 16-colour table. A pixel that never escapes within the cap stays black.
- **Buddhabrot.** The same grid is sampled, but every escaping sample records its orbit. The orbit is replayed from the last point to the first. Each orbit point that maps back into the raster raises that pixel's counter in a heat map. A second pass gives every pixel with a positive count the palette colour of its count.
- **PNG saving.** The saver copies the raster into a reused row buffer, one image row at a time, and hands each row to the PNG writer.

The model is organised as follows:

- Pure code becomes functions and lemmas: the palette, the complex helpers, the pixel/plane mapping and the escape test.
- Code that works step by step becomes methods with loops over arrays: the raster scans, the orbit buffer, the heat map, the colorize pass and the row copy.
- Each method is proved against a reference function of its inputs.
  - `Escape.Classify` says what an escape loop reports. The source has two such loops, one in `mandelbrot` (lines 186-194) and one in `buddhabrot` (lines 229-240). The model has two as well: `Escape.EscapeTime` and the loop of `Buddhabrot.AccumulateSample`. Each carries its own invariants and is proved against `Escape.Classify`.
  - `Mandelbrot.PixelColor` says what the Mandelbrot scan writes.
  - `Heatmap.Accumulated` and `Buddhabrot.Heat` say what the counters are.
  - `PngRows.Rows` says what the PNG writer receives.
- Lemmas then state what the system promises about those functions.
- The Mandelbrot scan classifies the point first and then writes the pixel. This is equivalent to the source's write followed by `break`.

The modules, one file each:

| module | file | content |
|---|---|---|
| `Palette` | palette.dfy | `colors`, `NUMCOLORS`, the cyclic lookup |
| `ComplexArith` | complex.dfy | `complex_mult`, `complex_add`, `complex_unsqrt_magnitude` |
| `Escape` | escape.dfy | the recurrence, the escape test, the classifier, and the `iter` loop of `mandelbrot` |
| `Coords` | coords.dfy | viewport, `STEPX`/`STEPY`, the sample grid, `complex_to_coord` |
| `Raster` | raster.dfy | row-major cell numbers and RGB8 pixel access |
| `Heatmap` | heatmap.dfy | the counters as a function of the recorded points |
| `Mandelbrot` | mandelbrot.dfy | `mandelbrot` |
| `Buddhabrot` | buddhabrot.dfy | `buddhabrot` |
| `PngRows` | png_rows.dfy | the row-copy loop of `save_buffer_as_png` |

`WIDTH`, `HEIGHT` and `MAX_ITERATIONS` are parameters (`width`, `height`, `maxIterations`). The viewport constants are fixed as in the source.

Two facts about the code shape the model:

- **Truncation in `complex_to_coord`.** The function stores a `long double` into an `int`, and that conversion truncates toward zero (section 6.3.1.4 of ISO C11). `Coords.AxisIndex` truncates the same way. So points in `(FROMX - STEPX, FROMX)` also land in column 0, and points in `(FROMY - STEPY, FROMY)` in row 0.
- **The heat-map total.** `buddhabrot` range-checks every orbit point before it raises a counter. The counters therefore total the recorded points that land inside the raster, not every recorded point. `Buddhabrot.HeatTotal` proves that total, and proves that it is at most `width*height*maxIterations`.

## Model

| member | source | states |
|---|---|---|
| Palette.NumColors | xorblednam.c:25-44 | `NUMCOLORS = sizeof(colors)/3` is 16 |
| Palette.ColorsSize | xorblednam.c:25-44 | `sizeof(colors)` is 48 bytes, three per colour |
| Palette.FlatOfAt | xorblednam.c:27-44 | byte `i` of rows laid out channel by channel, as `colors` is written, is channel `i % 3` of row `i / 3` |
| Palette.ColorByteIsColors | xorblednam.c:189-191 | the read `colors[i]` through the rows of the table is byte `i` of the flat 48-byte array |
| Palette.PaletteIndex | xorblednam.c:189-191 | the index `(n % NUMCOLORS)*3 + k`, for `k < 3`, lies inside the 48-byte table, in row `n mod 16` and column `k` |
| Palette.ColorFor | xorblednam.c:27-44 | the three bytes read for count `n` form row `n mod 16` of the colour table |
| Palette.ColorForCyclic | xorblednam.c:189-191 | counts differing by a multiple of 16 get the same colour |
| Palette.ColorForSame | xorblednam.c:27-44 | two counts get the same colour exactly when they agree modulo 16 (the 16 rows are pairwise distinct) |
| Palette.ColorNeverBlack | xorblednam.c:27-44 | no palette colour is the black background |
| Palette.ColorForZero | xorblednam.c:28 | count 0 gets the first row, (66, 30, 15) |
| ComplexArith.Mult | xorblednam.c:73-82 | `complex_mult` agrees with real multiplication on the real axis, has 1 as its neutral element, and squares the imaginary unit to -1 |
| ComplexArith.Add | xorblednam.c:84-93 | subtracting `b` from `complex_add(a, b)` gives back `a`; on the real axis it is real addition |
| ComplexArith.UnsqrtMagnitude | xorblednam.c:95-104 | the squared modulus is never negative |
| ComplexArith.MultCommutes | xorblednam.c:73-82 | `complex_mult` is commutative |
| ComplexArith.MultZero | xorblednam.c:73-82 | the origin absorbs `complex_mult` on both sides |
| ComplexArith.MagnitudeOfProduct | xorblednam.c:73-104 | the squared modulus of a product is the product of the squared moduli |
| ComplexArith.AddCommutes | xorblednam.c:84-93 | `complex_add` is commutative, and 0 is its neutral element |
| Coords.StepX | xorblednam.c:23 | `STEPX` is positive, and `WIDTH` steps span `TOX - FROMX` |
| Coords.StepY | xorblednam.c:24 | `STEPY` is positive, and `HEIGHT` steps span `TOY - FROMY` |
| Coords.TruncateToInt | xorblednam.c:109-110 | the conversion to `int` drops the fraction toward zero, for both signs |
| Coords.PixelToPlane | xorblednam.c:178-183 | the sample point `FROMX + px*STEPX + (FROMY + py*STEPY)*I` of every pixel of the raster lies in the viewport `[FROMX, TOX) x [FROMY, TOY)` |
| Coords.AxisIndex | xorblednam.c:109-110 | the scaled, truncated axis position is a valid index exactly when `lo - step < v < hi` |
| Coords.ComplexToCoord | xorblednam.c:106-111 | the column is in range exactly when `FROMX - STEPX < re < TOX`, and the row exactly when `FROMY - STEPY < im < TOY` |
| Coords.TruncateInRange | xorblednam.c:109-110 | truncating `t` gives an index in `[0, n)` exactly when `-1 < t < n` |
| Coords.AxisOfGridPoint | xorblednam.c:109-110 | the grid point `lo + p*step` maps back to index `p` |
| Coords.PixelRoundTrip | xorblednam.c:106-111 | mapping the sample point of pixel `(px, py)` back gives `(px, py)` exactly |
| Coords.CoordNearPixel | xorblednam.c:106-111 | each plane point lies within one step of the sample point of the pixel it maps to, on both axes, and on or after it inside the viewport |
| Escape.Step | xorblednam.c:187 | `z*z + c` minus `c` has squared modulus `|z|^4`; on the real axis the step is `x*x + c` |
| Escape.Escapes | xorblednam.c:188 | a point more than 2 from the origin along either axis passes the test `> 4`; a point passing it lies more than `sqrt 2` from the origin along some axis |
| Escape.ClassifyFrom | xorblednam.c:186-194 | from iteration `k` on, the result is the first escaping iteration below the cap, or bounded when none escapes |
| Escape.Classify | xorblednam.c:186-194 | `Escaped(k)` exactly when the test at iteration `k` (the `(k+1)`-th iterate) is the first to succeed below the cap; otherwise `Bounded` |
| Escape.EscapeTime | xorblednam.c:186-194 | the step-then-test loop with early exit returns `Classify` |
| Escape.EscapeTimeUnique | xorblednam.c:186-194 | the characterisation admits only one result |
| Escape.ClassifyEscapedIff | xorblednam.c:186-194 | both directions of the escape characterisation |
| Escape.ClassifyCapMonotone | xorblednam.c:186 | raising the cap keeps a found escape, and a point bounded under the larger cap is bounded under the smaller one |
| Escape.FixedPointOrbit | xorblednam.c:187 | if the first step lands on a fixed point of the step, every later iterate is that point |
| Escape.NeverEscapingIsBounded | xorblednam.c:186-194 | a point none of whose tests succeeds is bounded under every cap |
| Escape.FixedPointBounded | xorblednam.c:186-194 | reaching a fixed point of squared modulus at most 4 in one step means bounded under every cap |
| Escape.RealFixedPointBounded | xorblednam.c:186-194 | the same fact for real `c`, stated on real numbers |
| Escape.OriginBounded | xorblednam.c:183-188 | `c = 0` is bounded under every cap |
| Escape.MinusTwoBounded | xorblednam.c:188 | `c = -2` is bounded under every cap: its iterates are all 2, and the strict test `> 4` fails |
| Escape.TwoEscapesAtOnce | xorblednam.c:183-188 | `c = 2` escapes at iteration 0 when the cap is positive |
| Escape.ThreeEscapesAtOnce | xorblednam.c:183-188 | `c = 3` escapes at iteration 0 when the cap is positive |
| Escape.CornerEscapesAtOnce | xorblednam.c:183-188 | the corner `c = -2 - 1.5i` escapes at iteration 0 under every positive cap: its first iterate is `-0.25 + 4.5i` |
| Escape.ZeroCapBounded | xorblednam.c:186 | with a zero cap the loop body never runs, so every point is bounded |
| Raster.CellIndex | xorblednam.c:236 | for a column inside the row, remainder and quotient of `by*WIDTH + bx` by `WIDTH` give back `bx` and `by` |
| Raster.CellIndexBounds | xorblednam.c:236 | a cell `(x, y)` of the raster has number `y*WIDTH + x < WIDTH*HEIGHT`, and remainder and quotient by `WIDTH` recover `x` and `y` |
| Raster.CellOfIndex | xorblednam.c:244-246 | every number below `WIDTH*HEIGHT` is the number of a raster cell |
| Raster.RowBounds | xorblednam.c:146-153 | row `y < HEIGHT` of the raster ends where row `y + 1` starts, inside the `WIDTH*HEIGHT` cells |
| Raster.WriteRgbEffect | xorblednam.c:189-191 | writing pixel `i` sets its three bytes to the colour and changes no other byte or pixel |
| Raster.PutPixel | xorblednam.c:189-191 | the three byte stores at `p[0..2]` produce exactly that write |
| Heatmap.CellOf | xorblednam.c:234-236 | a point gets a counter exactly when it lies in `(FROMX - STEPX, TOX) x (FROMY - STEPY, TOY)`; that counter is `by*WIDTH + bx` for the `(bx, by)` that `complex_to_coord` returns |
| Heatmap.Hits | xorblednam.c:233-237 | a cell counts at most as many points as were recorded |
| Heatmap.InRangeCount | xorblednam.c:235 | the points landing in the raster are at most all the points |
| Heatmap.Accumulated | xorblednam.c:233-237 | recording points never lowers a counter and raises each by at most the number of points |
| Heatmap.Record | xorblednam.c:236 | `++heatmap[by*WIDTH+bx]` raises exactly the named counter by one; every other counter keeps its value |
| Heatmap.RecordAccumulated | xorblednam.c:234-236 | recording one more point is one guarded `++heatmap[by*WIDTH+bx]` |
| Heatmap.AccumulatedConcat | xorblednam.c:224-242 | recording one sequence of points and then another equals recording their concatenation |
| Heatmap.AccumulatedReverse | xorblednam.c:233 | replaying the orbit backwards (`while (iter-- > 0)`) gives the same counters as forwards |
| Heatmap.HitsZeroIff | xorblednam.c:246 | a cell stays at 0 exactly when no recorded point maps to it |
| Heatmap.HitsAtMostInRange | xorblednam.c:235-236 | no counter rises by more than the number of points landing in the raster |
| Heatmap.SomeCellHit | xorblednam.c:235-236 | when some point lands in the raster, some counter of the raster rises |
| Heatmap.SumRecord | xorblednam.c:236 | one increment raises the total of the counters by one |
| Heatmap.AccumulatedSum | xorblednam.c:233-237 | recording points raises the total by exactly the number of them that land in the raster |
| Mandelbrot.PixelColor | xorblednam.c:186-194 | the colour left in a pixel is row `k mod 16` of the table when its sample point escapes at iteration `k`, black when it is bounded |
| Mandelbrot.Render | xorblednam.c:176-196 | every pixel ends as `PixelColor`: the palette colour of its escape iteration, or the zero bytes of the fresh buffer when bounded |
| Mandelbrot.RenderRow | xorblednam.c:182-195 | one row of the scan sets its pixels to `PixelColor` and leaves the later bytes zero |
| Mandelbrot.CellColor | xorblednam.c:182-191 | pixel `(px, py)` is cell `py*WIDTH + px`, and its colour is decided by the classification of its own sample point |
| Mandelbrot.PixelBlackIff | xorblednam.c:186-194 | a pixel is black exactly when its sample point is bounded under the cap |
| Mandelbrot.MinusTwoPixelBlack | xorblednam.c:178-194 | with an even number of rows, the first pixel of row `HEIGHT/2` samples `c = -2` and is black |
| Mandelbrot.CornerPixelColor | xorblednam.c:178-191 | under a positive cap the first pixel, sampling `-2 - 1.5i`, gets the first table colour (66, 30, 15) |
| Buddhabrot.SampleOrbit | xorblednam.c:229-240 | a bounded sample records nothing; a sample escaping at `k` records exactly `k + 1` points, the iterates tested at iterations `0..k` |
| Buddhabrot.AccumulateSample | xorblednam.c:227-240 | iterating, storing into `orbit[]` and replaying on escape leaves the counters equal to `Accumulated` of the sample's orbit |
| Buddhabrot.Replay | xorblednam.c:233-237 | the backward replay of the first `top` stored points records each of them with the range check |
| Buddhabrot.SampleTotal | xorblednam.c:229-239 | a bounded sample leaves the heat map unchanged; a sample escaping at `k` raises the total by at most `k + 1` |
| Buddhabrot.SamplePass | xorblednam.c:224-242 | after the sampling scan the counters are the start values plus every sampled orbit |
| Buddhabrot.SampleRow | xorblednam.c:225-241 | one row of the scan adds that row's orbits, in column order |
| Buddhabrot.SampleStep | xorblednam.c:226-240 | sampling pixel `(x, y)` adds exactly the orbit of pixel number `y*WIDTH + x` |
| Buddhabrot.PixelOrbits | xorblednam.c:224-226 | there is one orbit for every grid pixel |
| Buddhabrot.PixelOrbitAt | xorblednam.c:224-226 | pixel number `y*WIDTH + x` records the orbit of the sample point of `(x, y)` |
| Buddhabrot.Heat | xorblednam.c:218-242 | the final heat map has one counter per pixel |
| Buddhabrot.Colorize | xorblednam.c:244-252 | every cell with a positive count gets the palette colour of its count; the bytes of every other cell are left as they were |
| Buddhabrot.Render | xorblednam.c:205-260 | every pixel of the result is `HeatColor(Heat[i])`: the palette colour of its count, or black for count 0 |
| Buddhabrot.HeatBlackIff | xorblednam.c:244-252 | a pixel is black exactly when no recorded orbit point landed in it |
| Buddhabrot.HeatTotal | xorblednam.c:224-252 | the counters total the number of recorded points inside the raster, at most `WIDTH*HEIGHT*MAX_ITERATIONS` |
| Buddhabrot.AllBlackIff | xorblednam.c:224-252 | the density image is entirely black exactly when no recorded orbit point lands in the raster |
| Buddhabrot.BoundedScanNeedsZeroCap | xorblednam.c:224-232 | a scan in which every sample is bounded has a zero cap, since the first sample `-2 - 1.5i` escapes at once otherwise |
| Buddhabrot.ZeroCapAllBlack | xorblednam.c:229 | with a zero cap the image is black |
| PngRows.RowOf | xorblednam.c:147-151 | byte `j` of row `y` is byte `3*(y*width) + j` of the buffer |
| PngRows.Rows | xorblednam.c:146-153 | the writer receives `height` rows |
| PngRows.CopyRow | xorblednam.c:147-151 | after the inner loop, `row[0 .. 3*width)` is `buffer[3*y*width .. 3*(y+1)*width)` |
| PngRows.SaveRows | xorblednam.c:144-153 | the rows handed to `png_write_row` are, in order, the rows of the buffer |
| PngRows.FlattenRows | xorblednam.c:144-153 | the rows written, laid end to end, are exactly the whole buffer |
| PngRows.RowsOfFlatten | xorblednam.c:144-153 | cutting full rows laid end to end into rows of `3*width` bytes gives back the rows |

## Left out

- PNG encoding and file output: `fopen`, every `png_*` call, the `setjmp` error path and `fclose` in `save_buffer_as_png`. These are I/O through a foreign library, so `PngRows.SaveRows` returns the rows that would be written.
- `main`, `usage`, `version` and `die`: argument dispatch and process exit.
- Floating point:
  - The plane arithmetic is over exact reals instead of `long double`, so the rounding that flips pixels near the set's edge is not modelled.
  - The `TOY - y > DBL_EPSILON` and `TOX - x > DBL_EPSILON` loop tests, and the accumulated `x += STEPX`, are idealised. The scan visits exactly `width x height` grid points `FROMX + px*STEPX`, `FROMY + py*STEPY`.
- Allocation: the `calloc`/stack choice, allocation failure and `free`. Buffers are fresh zeroed arrays.
- `int` overflow of the heat-map counters and of the index arithmetic: counters and indices are unbounded naturals.
- The `DEBUG` row printing.
- ComplexArith.UnsqrtMagnitude: its contract states only that the result is non-negative. Its value, the product law and the escape test are stated through the other members.
- Mandelbrot.Render: its contract gives the final value of every pixel. It does not state the trace property that each pixel is written at most once.
