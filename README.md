# CPU rasterizer core in Dafny

A model of three parts of a small software 3D renderer written in C, with proofs about them:

- **Depth sort** (module `Sorting`, `sorting.dfy`). The renderer orders its triangles by the painter's algorithm, farthest first. It uses a depth comparator and a hand-written Lomuto quicksort that works in place on the triangle array.
- **Frame-buffer primitives** (module `Display`, `display.dfy`). The colour buffer holds `width * height` packed 32-bit colours in row-major order. It is a class with an `array<bv32>`, and `draw_pixel`, `clear_color_buffer`, `draw_grid`, `draw_rect`, `draw_line` and `draw_triangle` are methods on it. Each method's postcondition pins down every cell of the new buffer.
- **Scanline triangle fill** (module `TriangleFill`, `triangle.dfy`). This covers:
  - `int_swap` and the three conditional swaps that sort the vertices by `y`;
  - the dispatch into a flat-bottom fill, a flat-top fill, or both, split at the point `(Mx, My)`;
  - the row loops of the two fill routines.

Drawing is specified by folds over the buffer contents:

- `Paint` draws a sequence of positions, one `draw_pixel` each.
- `PaintSegments` draws a sequence of lines, one `draw_line` each.

`PaintCells` proves that painting in one colour does not depend on the order: a cell ends up in the colour exactly when some drawn position falls on it.

Where floats are involved, the model takes the computed positions as parameters:

- `Stepper` gives the rounded position of the i-th pixel of a line, for i >= 1.
- `SpanFn` gives the truncated `x_start`/`x_end` of the k-th row of a fill, for k >= 1.

Everything that follows from integer logic is modelled exactly:

- the pixel count of a line, and its first pixel;
- the order of edges and of fill calls;
- the rows visited;
- the first row's span, which is the apex column.

The `(int)` cast of `Mx` is C's division rounding toward zero. It is written out as `TruncDiv`, because Dafny's `/` is Euclidean.

Two points about the code that the model follows as written:

- `draw_line` steps with float increments and `round`, not with integer error accumulation (src/display.c:98-107).
- The fill routines divide by row differences without a guard (src/triangle.c:24, 26, 54, 56). The flat-bottom fill divides by `y1 - y0` and `y2 - y0`, and the flat-top fill by `y2 - y0` and `y2 - y1`. After the dispatch, only one case divides by zero: the one-row flat-bottom fill, where y0 == y1 == y2 and both divisors are zero. That row is drawn before any slope is added, so its span is the apex column, and `SpanAt` gives exactly that for row 0.

## Model

| member | source | states |
|---|---|---|
| Sorting.CompareDepth | src/sorting.c:4-10 | 1 exactly when a is nearer (smaller avg_depth), -1 exactly when a is farther, 0 exactly on equal depth |
| Sorting.CompareAntisymmetric | src/sorting.c:7-9 | compare(a, b) == -compare(b, a) and compare(a, a) == 0 |
| Sorting.Swap | src/sorting.c:28-30 | the two cells exchange values, every other cell is unchanged, and the multiset of elements is kept |
| Sorting.Partition | src/sorting.c:22-36 | low <= p <= high; t[p] is the original pivot t[high]; every cell of [low, p) compares < 0 with it (deeper); every cell of (p, high] compares >= 0; cells outside [low, high] are unchanged; the multiset is kept |
| Sorting.Quicksort | src/sorting.c:13-19 | low..high ends in non-increasing depth order (farthest first); only cells in [low, high] change; the multiset is kept; low >= high leaves the array untouched; it terminates on high - low |
| Sorting.QuicksortStep | src/sorting.c:14-17 | a partitioned range whose left and then right side are sorted in place ends sorted, and nothing outside the range changed |
| Sorting.JoinSorted | src/sorting.c:15-17 | a sorted run deeper than the pivot, then the pivot, then a sorted run no deeper than it, form one farthest-first run |
| Sorting.RearrangedWithin | src/sorting.c:15-17 | rearranging [lo, hi) in place, with the multiset kept and every other cell unchanged, leaves in each cell of the range an element that was in the range before |
| Sorting.SliceMultiset | src/sorting.c:28-35 | two sequences that agree outside [lo, hi) and hold the same multiset hold the same multiset inside it |
| Display.LineLength | src/display.c:92-95 | the step count is max(abs(dx), abs(dy)): at least each of the two and equal to one of them |
| Display.LinePixels | src/display.c:101-105 | the positions draw_line plots, in order: LineLength + 1 of them, the first being (x0, y0) |
| Display.LinePixelsShape | src/display.c:95-108 | a line plots LineLength + 1 pixels, the first at (x0, y0), the i-th at the stepped position |
| Display.ZeroLengthLine | src/display.c:95-105 | a line whose endpoints coincide plots only that point, the 0/0 increments never being used |
| Display.TriangleEdges | src/display.c:121-125 | three edges (p0,p1), (p1,p2), (p2,p0) in that order, each starting where the previous one ends |
| Display.RowMajor | src/display.c:55 | for 0 <= x < w and 0 <= y < h, w*y + x lies in [0, w*h) and yields back x by % w and y by / w |
| Display.FrameBuffer.constructor | src/display.c:6 | a buffer of exactly width * height cells |
| Display.FrameBuffer.Index | src/display.c:86-87 | an on-screen position's cell is in [0, width*height), and its column and row read back as x and y |
| Display.FrameBuffer.CellRoundTrip | src/display.c:53-55 | every cell is the cell of its own on-screen column and row |
| Display.FrameBuffer.PutPixel | src/display.c:85-89 | the cell of (x, y) takes the colour exactly when (x, y) is on the screen; every other cell, and the whole buffer off screen, keeps its value |
| Display.FrameBuffer.Paint | src/display.c:104-105 | the buffer after a run of draw_pixel calls in one colour: its size is kept, and every cell holds either its old value or that colour |
| Display.FrameBuffer.PaintSegments | src/display.c:122-124 | the buffer after a run of draw_line calls in one colour: its size is kept, and every cell holds either its old value or that colour |
| Display.FrameBuffer.PaintCells | src/display.c:104-105 | after drawing a run of positions in one colour, a cell has that colour exactly when some on-screen position of the run falls on it, and is unchanged otherwise |
| Display.FrameBuffer.PaintSegmentsPrefix | src/display.c:121-125 | drawing one more line paints that line's pixels over the buffer left by the previous lines |
| Display.FrameBuffer.PaintSegmentsAppend | src/display.c:121-125 | drawing two runs of lines equals drawing the first run, then the second on its result |
| Display.FrameBuffer.DrawPixel | src/display.c:85-89 | the buffer becomes PutPixel of the old buffer |
| Display.FrameBuffer.ClearColorBuffer | src/display.c:52-58 | every one of the width*height cells holds the colour |
| Display.FrameBuffer.DrawGrid | src/display.c:74-83 | a cell becomes 0xFF3A3B3C exactly when its column and row are both multiples of 25, and is unchanged otherwise |
| Display.FrameBuffer.DrawRect | src/display.c:111-119 | exactly the on-screen cells (x+i, y+j), 0 <= i < w, 0 <= j < h, take the colour; all others are unchanged; w <= 0 or h <= 0 changes nothing |
| Display.FrameBuffer.DrawLine | src/display.c:91-109 | the buffer becomes the old one with the line's LineLength + 1 pixels painted in order, the first at (x0, y0) |
| Display.FrameBuffer.DrawTriangle | src/display.c:121-125 | the buffer becomes the old one with the edges (p0,p1), (p1,p2), (p2,p0) drawn in that order |
| TriangleFill.IntSwap | src/triangle.c:4-8 | the two values come back exchanged |
| TriangleFill.TruncDiv | src/triangle.c:116 | C's quotient: the remainder is smaller than the divisor in magnitude and has the sign of the dividend |
| TriangleFill.OrderByY | src/triangle.c:93-96 | one conditional swap puts the smaller y first, and moves each x with its y |
| TriangleFill.SortByY | src/triangle.c:93-105 | after the three conditional swaps, y0 <= y1 <= y2 |
| TriangleFill.SortByYPermutes | src/triangle.c:93-105 | the sorted triple is a permutation of the input vertices, each (x, y) pair moved together |
| TriangleFill.SortVertices | src/triangle.c:93-105 | the coordinates after the six int_swap calls are exactly the sorted triple SortByY |
| TriangleFill.Midpoint | src/triangle.c:115-116 | My equals the middle vertex's y |
| TriangleFill.MidpointBetween | src/triangle.c:115-116 | Mx lies between x0 and x2 inclusive, because (y1 - y0) / (y2 - y0) lies strictly between 0 and 1 |
| TriangleFill.Rows | src/triangle.c:33-67 | the rows a fill loop visits: RowCount of them, from y0 to y2 for a flat-bottom fill and from y2 to y0 for a flat-top fill |
| TriangleFill.SpanAt | src/triangle.c:29-34 | the truncated x_start and x_end of row k: on row 0 both are the apex column, since no slope has been added yet (x0 for flat-bottom, x2 for flat-top); later rows take the span parameter |
| TriangleFill.FillSegments | src/triangle.c:33-37 | the draw_line calls of a fill loop: one per visited row, each horizontal on its row |
| TriangleFill.RowsVisited | src/triangle.c:33-67 | a fill visits y2 - y0 + 1 rows (none when y0 > y2), each row of y0..y2 exactly once and no other row |
| TriangleFill.RowsOrder | src/triangle.c:33-67 | a flat-bottom fill goes from y0 down one row at a time; a flat-top fill goes from y2 up one row at a time |
| TriangleFill.FillSegmentsShape | src/triangle.c:29-64 | one horizontal line per visited row, and the first one is the single apex pixel |
| TriangleFill.FillFlatBottomTriangle | src/triangle.c:21-38 | the buffer becomes the old one with the row lines for y = y0, y0+1, ..., y2 drawn in that order |
| TriangleFill.FillFlatTopTriangle | src/triangle.c:51-68 | the buffer becomes the old one with the row lines for y = y2, y2-1, ..., y0 drawn in that order |
| TriangleFill.Plan | src/triangle.c:107-123 | the fill calls of the dispatch: one or two; when two, flat-bottom first, then flat-top, sharing the vertex M; in every call y0 <= y2 |
| TriangleFill.PlanSegmentsOne | src/triangle.c:107-112 | a single fill call draws exactly that fill's lines |
| TriangleFill.PlanSegmentsTwo | src/triangle.c:118-122 | two fill calls draw the first fill's lines and then the second's |
| TriangleFill.PlanDispatch | src/triangle.c:107-123 | y1 == y2 gives only the flat-bottom fill; otherwise y0 == y1 gives only the flat-top fill; otherwise the flat-bottom fill runs first, then the flat-top fill, sharing M with My == y1 and Mx between x0 and x2 |
| TriangleFill.PlanRows | src/triangle.c:107-123 | the fills together visit exactly the rows y0..y2 of the sorted vertices; in the split case only row y1 is visited by both halves |
| TriangleFill.DrawFilledTriangle | src/triangle.c:91-125 | the buffer becomes the old one with the lines of the dispatched fill calls drawn in their order |

## Left out

- `initialize_window`, `render_color_buffer` and `destroy_window` (src/display.c:12-50, 60-72, 128-132): calls into SDL. The constructor stands in for allocating the buffer.
- The window size query: the buffer's width and height are constructor arguments.
- The main loop, event polling and texture setup in src/main.c: I/O and presentation.
- OBJ and PNG loading in src/mesh.c: file I/O and foreign libraries.
- The float rotations in src/vector.c.
- The header files: they hold declarations only.
- src/triangle.h, which declares the triangle record, is not part of this model. `Sorting.Triangle` carries screen points, a colour and the average depth. Only the depth takes part in the sort.
- `Sorting.Triangle`: `avg_depth` is a `real`, not a 32-bit float. NaN depths and float rounding are not modelled.
- `Sorting.Quicksort`: the comparator function pointer parameter is fixed to `CompareDepth`, the one the renderer passes.
- `Sorting.Quicksort`: the farthest-first order is proved, but not stability. The sort is not stable, and the source does not promise it.
- `Display.FrameBuffer.DrawLine`: the positions of pixels after the first are a `Stepper` parameter. The float increments, `round`, and the 0/0 increments of a zero-length line are not modelled.
- `TriangleFill.FillFlatBottomTriangle` and `TriangleFill.FillFlatTopTriangle`: the row spans after the first row are a `SpanFn` parameter. They come from float inverse slopes, which are not modelled, and neither are the 0/0 slopes of degenerate triangles.
- `TriangleFill.Midpoint`: the float quotient at src/triangle.c:116 is taken as exact before truncation. This holds for screen-sized coordinates, but float rounding is not modelled.
- `TriangleFill.IntSwap`: it is modelled on values returned to the caller, not through two pointers. The swap sort's callers keep their coordinates in local variables, so no aliasing arises.
- Integer overflow is not modelled: the coordinates are unbounded integers. This covers `x + i` and `y + j` in `draw_rect`, `width * y + x`, and the product in the `Mx` formula. For screen-sized values none of these overflows a 32-bit `int`.
- C's `%` in `draw_grid` truncates toward zero and Dafny's is Euclidean. They agree here because the grid loops only use non-negative coordinates.
