# olive.c rasterizer, modelled in Dafny

This project models the core of olive.c, a small integer software rasterizer.
Every drawing routine writes into a caller-owned, row-major buffer of packed
32-bit colours. The buffer has an explicit width and height, and pixel (x, y)
sits at index `y * width + x`. The routines modelled are:

- fill the whole buffer;
- fill an axis-aligned rectangle;
- fill a discrete disk;
- draw a line;
- fill a triangle, which uses a three-comparator sorting network on its vertices;
- the byte stream of the binary PPM ("P6") writer.

Modules:

- `Arith`: `TruncDiv`, which is C's truncating integer division, and its
  characterisation. Dafny's `/` rounds differently on negative operands.
  Every division of the source goes through `TruncDiv`.
- `Shapes`: grid points, the vertex sort, the line and edge sample formulas,
  and `Shape.Covers`. For each primitive, `Covers` says exactly which grid
  points its loops visit and write, before clipping.
- `Canvas`: the buffer layout and `Paint`. `Paint` gives the buffer that
  results from writing a colour at every in-bounds point a shape covers. Every
  other pixel keeps its value.
- `Raster`: the drawing routines as methods that work in place on
  `array<bv32>`. Their loops follow the C loops: the same bounds, the same
  swaps and the same per-pixel clipping. Each drawing routine is proved to
  leave exactly `Paint(old buffer, shape, color)`; the two inner-loop helpers
  `FillColumn` and `FillRow` state their writes point by point.
- `Coverage`: what each coverage rule means, proved as lemmas. Topics include
  clipping, inclusive boundaries, the endpoint that is not drawn, the effect
  of truncation, triangle rows and vertices, and degenerate inputs.
- `Ppm`: the writer's byte stream as a pure encoder, i.e. the header followed
  by three bytes per pixel. It also holds a decoder for the same format, proved
  to invert the encoder up to the alpha byte, which the file does not carry
  (decoding gives back each pixel's red, green and blue), and the writer's
  loop as a method that returns the bytes it would write.

C `int`, `size_t` and `uint32_t` arithmetic on coordinates is unbounded `int`
here. Colours are `bv32`, and file bytes are integers in 0..255.

For a non-vertical line the column loop (code/olive.cpp:95-96) runs from the
smaller x up to, but not including, the larger x. The smaller endpoint's column
is drawn and the larger one's is not, unlike the vertical branch, which includes
both endpoints (`Coverage.LineColumns`, `Coverage.LineFirstEndpoint`,
`Coverage.LineVertical`).

## Model

| member | source | states |
|---|---|---|
| Arith.TruncDiv | code/olive.cpp:93 | the quotient rounds toward zero: its remainder has the sign of the dividend and is smaller in magnitude than the divisor |
| Arith.TruncDivUnique | code/olive.cpp:98-99 | any quotient whose remainder has the dividend's sign and is smaller than the divisor is `TruncDiv`, so the two remainder bounds define C division completely |
| Arith.TruncDivNonNegative | code/olive.cpp:98-99 | for a non-negative dividend and positive divisor, truncating and Euclidean division agree |
| Arith.TruncDivDiffersFromEuclid | code/olive.cpp:98 | on negative dividends the two divisions differ: -1/2 is 0 in C but -1 in Euclidean division; -7/2 is -3 versus -4 |
| Arith.TruncDivNegate | code/olive.cpp:98-99 | truncating division commutes with negating the dividend or the divisor; it carries upward lines' samples (`Coverage.LineReachesFarRow`) |
| Arith.TruncDivExact | code/olive.cpp:154-155 | an exact multiple divides back without rounding, which puts each triangle edge's intercept at its far vertex (also code/olive.cpp:172-173) |
| Arith.TruncDivZero | code/olive.cpp:98-99 | zero divided by any non-zero divisor is zero |
| Arith.Min | code/olive.cpp:95 | the smaller of two values, which is the first local after `if (a > b) OLIVEC_SWAP(a, b)`; the coverage rules use it for the ordered endpoints and samples (code/olive.cpp:95, :100, :113, :156, :174) |
| Arith.Max | code/olive.cpp:95 | the larger of two values, which is the second local after the same swap (code/olive.cpp:95, :100, :113, :156, :174) |
| Shapes.LineSample | code/olive.cpp:93-99 | the general line's sample at column x, `TruncDiv(dy*x, dx) + c` with `c = y1 - TruncDiv(dy*x1, dx)` from the unswapped endpoints; its contract states that the sample at x1 is y1 |
| Shapes.EdgeX | code/olive.cpp:154-155 | the triangle edge intercept `TruncDiv((y - yRef)*dxE, dyE) + xRef`, or xRef when dyE is 0; the same function with p3 as reference models code/olive.cpp:172-173; its contract states that the intercept at the reference row is the reference x |
| Shapes.InUpperHalf | code/olive.cpp:152-157 | the upper pass: rows p1.y..p2.y inclusive, and in each row the inclusive span between the intercepts of edges p1-p2 and p1-p3, in either order; its meaning is stated by `Coverage.UpperHalfRow` |
| Shapes.InLowerHalf | code/olive.cpp:170-175 | the lower pass: rows p2.y..p3.y inclusive, and in each row the inclusive span between the intercepts of edges p3-p2 and p3-p1, in either order; its meaning is stated by `Coverage.LowerHalfRow` |
| Shapes.Shape.Covers | code/olive.cpp:47-183 | the set of grid points each routine writes before clipping: the rectangle, the bounding-square distance test (code/olive.cpp:70-76), the line's columns and row runs (code/olive.cpp:92-119), the two triangle passes (code/olive.cpp:152-181); what it means is stated by the Coverage lemmas |
| Canvas.InBounds | code/olive.cpp:53-56 | the per-pixel clipping guard `0 <= x < width && 0 <= y < height`, which every routine applies (code/olive.cpp:53/56, :71/73, :97/103, :112/115, :153/158, :171/176) |
| Canvas.Idx | code/olive.cpp:57 | the index expression `y*pixels_width + x` of every write (code/olive.cpp:57, :77, :104, :116, :159, :177); `Canvas.IdxInBuffer` and `Canvas.IdxInjective` state its meaning |
| Canvas.Paint | code/olive.cpp:57 | the buffer after a routine: the same length, and every pixel is either the colour or its old value; which one is stated per point by `Canvas.PaintAt` |
| Shapes.SortByY | code/olive.cpp:123-139 | after the three compare-and-swaps the y values are non-decreasing, and the three output points are a permutation of the input points, each x still paired with its own y |
| Canvas.IdxInBuffer | code/olive.cpp:57 | an in-bounds point's index `y*width + x` lies in the buffer, and division and remainder by the width recover y and x |
| Canvas.IndexIsPoint | code/olive.cpp:10-11 | every buffer index is the index of exactly the in-bounds point its quotient and remainder name |
| Canvas.PointsInBuffer | code/olive.cpp:57 | every in-bounds point has its index in the buffer |
| Canvas.IdxInjective | code/olive.cpp:57 | two distinct in-bounds points never share an index, so a write at one leaves every other in-bounds pixel unchanged |
| Canvas.PaintFromPoints | code/olive.cpp:57 | a buffer that agrees at every in-bounds point with "colour if covered, else the old value" is the painted buffer |
| Canvas.PaintAt | code/olive.cpp:57 | after painting, in-bounds pixel (x, y) is the colour exactly when the shape covers (x, y); otherwise it is unchanged |
| Canvas.PaintIdempotent | code/olive.cpp:9-13 | drawing the same shape twice in the same colour gives the same buffer as drawing it once |
| Canvas.PaintEverything | code/olive.cpp:9-13 | after filling, every index in [0, width*height) holds the colour |
| Raster.Fill | code/olive.cpp:9-13 | the loop over all width*height indices leaves `Paint` with the shape that covers everything |
| Raster.FillRect | code/olive.cpp:47-62 | the nested dy/dx loops with per-pixel clipping leave exactly the rectangle painted and every other pixel unchanged |
| Raster.FillCircle | code/olive.cpp:64-83 | the scan of the bounding square with the distance test leaves exactly the disk painted and every other pixel unchanged |
| Raster.FillColumn | code/olive.cpp:101-106 | the inner y loop of a line writes column x at the in-bounds rows ya..yb inclusive and changes nothing else |
| Raster.DrawLine | code/olive.cpp:85-121 | both branches, with the offset `c` taken from the unswapped endpoints and the swaps of x and of the samples, leave exactly the segment's coverage painted and every other pixel unchanged |
| Raster.FillRow | code/olive.cpp:157-161 | the inner x loop of a triangle pass writes row y at the in-bounds columns xa..xb inclusive and changes nothing else |
| Raster.FillTriangle | code/olive.cpp:141-183 | sorting, then the upper pass over rows p1.y..p2.y and the lower pass over rows p2.y..p3.y, leave exactly the union of the two passes' spans painted and every other pixel unchanged |
| Coverage.RectPixel | code/olive.cpp:51-58 | an in-bounds pixel is set exactly when x0 <= x < x0+w and y0 <= y < y0+h; otherwise it is unchanged |
| Coverage.PaintNothing | code/olive.cpp:53-56 | a shape that covers no in-bounds point leaves the buffer unchanged, so a shape lying wholly outside the buffer changes nothing |
| Coverage.SquareBelow | code/olive.cpp:76 | for r >= 0, a point that passes the distance test lies inside the bounding square |
| Coverage.DiskIsDistanceTest | code/olive.cpp:70-76 | for r >= 0 the bounding-square scan covers a point exactly when (x-cx)^2 + (y-cy)^2 <= r^2 |
| Coverage.CirclePixel | code/olive.cpp:64-83 | for r >= 0, an in-bounds pixel is set exactly when its squared distance to the centre is at most r^2; otherwise it is unchanged; for r < 0 the loops are empty and `Coverage.DiskNegativeRadius` states that nothing changes |
| Coverage.DiskRadiusZero | code/olive.cpp:66-76 | radius 0 covers the centre and nothing else |
| Coverage.DiskNegativeRadius | code/olive.cpp:66-70 | a negative radius empties both loop ranges, so the buffer is unchanged |
| Coverage.DiskBoundaryExample | code/olive.cpp:76 | the boundary is inclusive: centre (10, 10) with radius 3 covers (13, 10) but not (14, 10) |
| Coverage.LineColumns | code/olive.cpp:95-96 | a non-vertical line covers only columns min(x1,x2) <= x < max(x1,x2); the far column max(x1,x2) is never written |
| Coverage.LineColumnRun | code/olive.cpp:97-105 | the definition of line coverage restated in the source's terms: in each visited column the line covers exactly the rows between the two truncating samples at x and x+1, both inclusive, in either order |
| Coverage.LineFirstEndpoint | code/olive.cpp:93-99 | the sample at x1 is y1; (x1, y1) is drawn when x1 < x2 and is not drawn when x1 > x2 |
| Coverage.LineConnected | code/olive.cpp:98-101 | consecutive columns share the sample between them, so the drawn columns join without a gap in y |
| Coverage.LineHorizontal | code/olive.cpp:89-105 | a horizontal line covers row y1 at columns min(x1,x2) <= x < max(x1,x2) and nothing else |
| Coverage.LineHorizontalExample | code/olive.cpp:89-105 | the segment (0,0)-(4,0) covers exactly (0,0) to (3,0) |
| Coverage.LineVertical | code/olive.cpp:110-120 | a vertical line covers its column from min(y1,y2) to max(y1,y2) inclusive; a zero-length line covers exactly its one point |
| Coverage.LineReachesFarRow | code/olive.cpp:96-101 | for 0 <= x1 < x2, downward or upward, the sample at x2 is y2 (in the upward case through C's truncation of the negative products `dy*x`) and the last drawn column, x2-1, reaches row y2 |
| Coverage.LineTruncationExample | code/olive.cpp:93-99 | truncation toward zero shapes the drawing: the segment (1,0)-(-2,1) covers only row 0 at columns -2..0 and never reaches row 1 |
| Coverage.SortByYKeepsSorted | code/olive.cpp:125-138 | points already sorted by y pass through the network unchanged |
| Coverage.SortByYExtremes | code/olive.cpp:123-139 | the first sorted point has the smallest y of the three and the last has the largest |
| Coverage.TriangleRows | code/olive.cpp:152-170 | a triangle covers only rows between the smallest and the largest vertex y |
| Coverage.UpperHalfRow | code/olive.cpp:152-157 | the upper-pass span restated in the source's terms: within rows p1.y..p2.y the upper pass covers exactly the inclusive span between the truncating intercepts of edges p1-p2 and p1-p3, each falling back to x1 when its dy is 0 |
| Coverage.LowerHalfRow | code/olive.cpp:170-175 | the lower-pass span restated in the source's terms: within rows p2.y..p3.y the lower pass covers exactly the inclusive span between the intercepts of edges p3-p2 and p3-p1, each falling back to x3 when its dy is 0 |
| Coverage.EdgeAtFarEnd | code/olive.cpp:172-173 | a non-horizontal edge's intercept a whole edge height away is its far x, in both directions: forward from p1 for the upper pass (row yRef + dyE gives xRef + dxE) and backward from p3 for the lower pass (row yRef - dyE gives xRef - dxE) |
| Coverage.TriangleCoversVertices | code/olive.cpp:141-183 | unless all three vertices share one row, the fill covers all three vertices |
| Coverage.FlatTriangle | code/olive.cpp:152-181 | when all three vertices share one row, the fill covers only the first and the last vertex's columns on that row, because both intercepts of each pass fall back to x1 or x3 |
| Ppm.DigitByte | code/olive.cpp:27 | the byte of a decimal digit is a digit byte whose value minus '0' is the digit |
| Ppm.Decimal | code/olive.cpp:27 | `%zu` writes at least one digit, only digits, and no leading zero unless the number is 0 |
| Ppm.Header | code/olive.cpp:27 | the header `"P6\n<width> <height>\n255\n"` that the `fprintf` prints, nine fixed bytes plus the two numbers' digits |
| Ppm.Red | code/olive.cpp:33 | the byte `pixel & 0xFF`; stated by `Ppm.BodyAt` and `Ppm.AlphaDropped` |
| Ppm.Green | code/olive.cpp:34 | the byte `(pixel >> 8) & 0xFF`; stated by `Ppm.BodyAt` and `Ppm.AlphaDropped` |
| Ppm.Blue | code/olive.cpp:35 | the byte `(pixel >> 16) & 0xFF`; stated by `Ppm.BodyAt` and `Ppm.AlphaDropped` |
| Ppm.PixelBytes | code/olive.cpp:32-36 | a pixel contributes exactly three bytes |
| Ppm.Body | code/olive.cpp:30-39 | the pixel data is exactly three bytes per pixel |
| Ppm.Encode | code/olive.cpp:27-39 | the file is the header followed by exactly 3*width*height bytes |
| Ppm.BodyAt | code/olive.cpp:30-37 | bytes 3i, 3i+1 and 3i+2 of the body are pixel i's `p & 0xFF`, `(p>>8) & 0xFF` and `(p>>16) & 0xFF`, in row-major order |
| Ppm.AlphaDropped | code/olive.cpp:32-36 | colours that differ only in the top (alpha) byte are written identically |
| Ppm.EncodeExample | code/olive.cpp:27-37 | the 2-by-2 buffer 0xFFFF0000, 0xFF00FF00, 0xFF0000FF, 0xFFFFFFFF encodes as "P6\n2 2\n255\n" then 00 00 FF 00 FF 00 FF 00 00 FF FF FF |
| Ppm.Channels | code/olive.cpp:32-36 | the per-pixel channel list has one entry per pixel |
| Ppm.BodyRoundTrip | code/olive.cpp:30-37 | grouping the body back into triplets yields every pixel's red, green and blue, in order |
| Ppm.DecimalValue | code/olive.cpp:27 | the digits written for a number spell that number back |
| Ppm.NumberEncoded | code/olive.cpp:27 | a number written in decimal and followed by a non-digit separator reads back as that number, with the bytes after the separator left over |
| Ppm.DecodeEncode | code/olive.cpp:27-39 | decoding the encoded file yields the width, the height and every pixel's red, green and blue channels in row-major order |
| Ppm.SaveToPpm | code/olive.cpp:19-45 | the writer's loop emits exactly `Encode` of the buffer: the header, then each pixel's three bytes in order |

## Left out

- File I/O: `fopen`, `fprintf`, `fwrite`, `ferror` and `fclose` are not modelled, nor is the propagation of `errno` through the `goto defer` cleanup (code/olive.cpp:19-45). These are platform I/O. `Ppm.SaveToPpm` returns the bytes the writer would send instead of writing a file, so no error path exists in the model.
- Ppm.SaveToPpm: does not model a partly written file after an I/O error, because the model has no I/O to fail.
- Fixed-width C arithmetic: overflow of `int` in `dy*x`, `dx*dx + dy*dy`, `r*r` and the coordinate sums is not modelled, nor are the `(int)` and `(size_t)` casts between signed and unsigned sizes. Coordinates are unbounded integers. The `(size_t) y < pixels_height` comparisons of the triangle fill are equal to signed comparisons once `0 <= y` is known, as in the code.
- A buffer whose length is not width*height is undefined behaviour in C. Every routine instead requires `pixels.Length == width * height`.
- `OLIVEC_SIGN` and `OLIVEC_ABS` (code/olive.cpp:5-6) are defined but not used by the core, so they are not modelled. `OLIVEC_SWAP` is modelled inline as Dafny's simultaneous assignment in the Raster methods, and as `Arith.Min` and `Arith.Max` in the coverage rules of `Shapes`.
- The sorting network swaps six integers through pointers. In the model it is a pure function, `Shapes.SortByY`, that works on three points and returns them sorted. The triangle fill calls it the same way the C code calls the pointer version.
- Raster.FillColumn and Raster.FillRow: these are the inner loops of the line and triangle routines, pulled out as methods. The C code writes them inline, but the nesting and the order of writes are the same.
- The decoder (`Ppm.Decode`) is not part of the source. It exists only as the inverse against which the encoder is proved, and it reads back exactly the header the writer prints.
- code/example.cpp is not part of this model: the demo drivers, `main`, the floating-point `lerpf`, `swap_int`, the static global buffer and the copy of the PPM writer there.
