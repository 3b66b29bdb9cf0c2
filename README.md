# Pretty Poly, modelled in Dafny

Pretty Poly is a small polygon rasteriser for microcontrollers. A polygon is
a list of contours, each a list of integer points. The renderer walks the
grid of tiles that cover the polygon's bounds, clipped to a clip rect. For
each tile it does four things:

- It records, for every sub-sample scanline of the tile, the x positions where
  the polygon's edges cross it (the "nodes"): up to 32 per row, in 32 rows.
- It sorts each row and reads it in pairs (even-odd fill).
- It adds each span's sub-sample coverage to a byte per pixel of a 1024-byte
  tile buffer.
- It hands the callback the part of the tile that holds coverage.

Anti-aliasing is 1, 4 or 16 sub-samples per pixel (`1 << aa` along each axis).

The repository holds three variants of this rasteriser, and this project
models each:

- `pretty-poly.h`, the C header. Its segment walker has early exits for
  segments left or right of the tile and a jump for segments that start above
  it. It trims each tile to the bounds of what it drew. The walker is modelled
  twice: as written, and with the jump corrected (see "## Findings"); the
  drawing methods use the corrected walker.
  Modules `PrettyPolyGeometry`, `PrettyPolyNodes`, `PrettyPolyRender` and
  `PrettyPolyRaster`.
- `pretty-poly.hpp`, a C++ header generic over the coordinate type. Its walker
  steps through every row. It hands the callback the whole clipped tile.
  Modules `HppGeometry` and `HppRaster`.
- `src/pretty-poly.hpp`, a C++ version that renders at full resolution into a
  mask. Its polygon-bounds loop skips point 0 of every contour after the
  first; that loop is modelled as written, and the drawing methods use the
  box of every point (see "## Findings").
  Modules `SrcBounds`, `SrcGeometry` and `SrcRaster`.

Shared pieces:

- `ScanMath`: integer helpers, `sign()` and the sort contract.
- `Edges`: the closed form of the error-term walk and crossing parity.
- `Coverage`: what a sorted node row adds to each pixel.
- `NodeRows`: the `nodes` / `node_counts` table, as a class over a 2-D array.
- `SegmentWalk`: the scanline loop of the two C++ walkers.

Three example programs are modelled as well:

- `examples/logo.cpp` (`LogoCpp`): a tokenizer and an SVG path reader over
  `std::string_view`.
- `examples/logo.c` (`LogoC`): the C version of that reader, with
  `get_next_token`, the counting passes and the contour and path parsers.
- `examples/helpers.h` (`Helpers`): colour packing and alpha blending.

Each rasteriser is a class whose fields are the header's globals. Each class
is proved against functions that say what the header computes, except where
"## Findings" records a defect: there the drawing methods follow the
corrected behaviour, and "## Left out" names them. The results
about those functions are the properties. For example:

- every tile handed to the callback lies in the clip rect;
- no tile byte exceeds `1 << (2 * aa)`, so `pp_tile_get_value` stays in
  0..255;
- trimming a tile loses no coverage;
- each node row receives exactly the nodes of the edges that cross it, and an
  even number of them.

Points are integers. The C rasteriser's `PP_COORD_TYPE` defaults to `float`
and may be set to an integer type. `examples/logo.cpp` passes `int` points;
`examples/logo.c` passes fractional float points (from `atof` and from curve
samples) through a scaling and rotating transform, which the model does not
cover. Transforms are left out (see below).

## Model

| member | source | states |
|---|---|---|
| ScanMath.Clamp | pretty-poly.h:367 | the walker's `max(min(x, fw), 0)` lies in `[lo, hi]`, is `v` inside the range and the nearer bound outside it |
| ScanMath.Sign | pretty-poly.h:267-271 | the 32-bit bit-trick `sign()` is the mathematical sign for every int32 except `INT32_MIN`, where `-v` is signed overflow, undefined in C; the model gives the 0 that wrapping hardware produces, and every walker's requires keeps that input out of reach |
| ScanMath.Scale | pretty-poly.h:380 | `1 << aa` is 1, 2 or 4 for the three anti-alias levels |
| ScanMath.TimesMul | pretty-poly.h:374 | the walker's running sum of `einc` over `n` rows is `einc * n` |
| ScanMath.InsertSpec | pretty-poly.h:435 | inserting into a sorted row keeps it sorted and adds exactly the one value |
| ScanMath.SortSeqSpec | pretty-poly.h:417-435 | the reference sort that `qsort` with `compare_nodes` is modelled by yields a sorted permutation of its input |
| ScanMath.SortSeqBounds | pretty-poly.h:435 | sorting keeps every node within any range that held all of them |
| NodeRows.NodeTable.Clear | pretty-poly.h:544 | `memset(node_counts, 0, …)` empties every row |
| NodeRows.NodeTable.Append | pretty-poly.h:309 | `nodes[y][node_counts[y]++] = v` appends `v` to row `y` and leaves every other row as it was |
| NodeRows.NodeTable.SortRow | pretty-poly.h:435 | the in-place sort of row `y` leaves it equal to the sorted old row; other rows are unchanged |
| NodeRows.NodeTable.constructor | pretty-poly.h:238-242 | the zero-initialised `nodes` and `node_counts`: every row empty |
| Edges.StepsDiv | pretty-poly.h:364 | the inner `while (e > dy)` loop, fed `t` units of error, takes `(t - 1) / dy` x steps (none for `t = 0`) |
| Edges.StepsLeast | pretty-poly.h:364 | `Steps` is exactly the step count at which the inner loop's guard `e > dy` turns false |
| Edges.StepsMono | pretty-poly.h:364 | more accumulated error never means fewer steps |
| Edges.StepsBound | pretty-poly.h:328-375 | before its last row a walk takes at most `abs(ex - sx)` steps, so it never passes `ex` |
| Edges.WalkXBetween | pretty-poly.h:325-375 | the walk's unclamped x stays between `sx` and `ex` |
| Edges.NodeXOffSide | pretty-poly.h:307-322 | the early exits (node 0 for a segment wholly left, `full_tile_width` for one wholly right) agree with the clamped walk |
| Edges.EdgeNodes | pretty-poly.h:286-298 | an edge gives a row one node when the row lies in `[min y, max y)` and none otherwise; every node lies in `[0, fw]` |
| Edges.ContourEdges | pretty-poly.h:387-414 | `build_nodes` walks the closing edge from the last point to the first, then each point from its predecessor |
| Edges.NodesOfLength | pretty-poly.h:399-414 | the nodes a list of edges gives a row are one per edge that covers it |
| Edges.NodesOf | pretty-poly.h:399-414 | every node a contour's edges add to a row is clamped into `[0, fw]` |
| Edges.NodesOfStep | pretty-poly.h:411 | walking edge `i` appends its nodes after those of the edges before it |
| Edges.HitsParityPrefix | pretty-poly.h:387-414 | along an open path, the closing edge plus the first `m` edges cover a row an odd number of times exactly when the last point and point `m` lie on opposite sides of it |
| Edges.ContourHitsEven | pretty-poly.h:439-441 | a closed contour gives every row an even number of nodes, so the renderer's pairs `nodes[y][i], nodes[y][i + 1]` are well formed |
| Edges.HitsShift | pretty-poly.h:397-409 | moving a contour by the tile origin moves its row crossings by the same amount |
| Coverage.SpanCover | pretty-poly.h:453-477 | a span gives one pixel column at most `1 << aa` sub-samples |
| Coverage.SpanCoverCells | pretty-poly.h:453-471 | the sub-samples a span gives each pixel are: `ex - sx` in a single-pixel span; `S - (sx & mask)` at the first pixel; `S` in between; `ex & mask` at the last pixel |
| Coverage.SpanSumOverlap | pretty-poly.h:453-477 | what a span adds to the pixel columns of a row sums to its overlap with the row |
| Coverage.SpanTotal | pretty-poly.h:453-477 | a span inside the row adds exactly `ex - sx` to it: no sub-sample is lost or counted twice |
| Coverage.PairsCoverHull | pretty-poly.h:439-478 | the spans of a sorted row are disjoint, so together they give a pixel at most its overlap with their hull |
| Coverage.RowCoverBound | pretty-poly.h:435-478 | one sorted node row gives a pixel at most `1 << aa` |
| Coverage.TileCoverRows | pretty-poly.h:437 | a tile byte receives coverage only from the `1 << aa` node rows of its pixel row |
| Coverage.TileCoverBound | pretty-poly.h:437-478 | no tile byte exceeds `S * S`, so `pp_tile_get_value`'s `* (255 >> aa >> aa)` stays within a byte |
| Coverage.PairsCoverWitness | pretty-poly.h:439-447 | a pixel with coverage lies under a non-degenerate pair |
| Coverage.TileCoverWitness | pretty-poly.h:437-471 | a tile byte with coverage has a node row in its pixel row that covers its column |
| Coverage.SpanCoverPositive | pretty-poly.h:449-457 | a span covering pixel `px` has `sx >> aa <= px <= (ex - 1) >> aa` |
| PrettyPolyGeometry.RectEmptyNoPixel | pretty-poly.h:169-171 | `pp_rect_empty` (zero width or height) holds exactly when a rect of non-negative size has no pixel |
| PrettyPolyGeometry.RectIntersection | pretty-poly.h:172-178 | the intersection has non-negative size, its origin is the larger of the two origins, and when it is non-empty it lies inside both operands |
| PrettyPolyGeometry.RectIntersectionPixels | pretty-poly.h:172-178 | the intersection holds exactly the pixels common to both rects |
| PrettyPolyGeometry.RectMerge | pretty-poly.h:179-186 | the merge of two rects of non-negative size holds both |
| PrettyPolyGeometry.RectMergeLeast | pretty-poly.h:179-186 | the merge lies inside every rect that holds both operands |
| PrettyPolyGeometry.BoxOf | pretty-poly.h:212-222 | the contour bounds have non-negative size and hold every point |
| PrettyPolyGeometry.BoxOfTight | pretty-poly.h:212-222 | each edge of the contour bounds touches a point: they are the smallest box |
| PrettyPolyGeometry.ContourBounds | pretty-poly.h:212-222 | the min/max loop of `pp_contour_bounds` computes `BoxOf` |
| PrettyPolyGeometry.MergedBoxes | pretty-poly.h:224-231 | merging the bounds of contours `0 .. n - 1` gives a box of non-negative size that holds all their points |
| PrettyPolyGeometry.PolygonBoxContains | pretty-poly.h:224-231 | polygon bounds are all zero without contours, and otherwise have non-negative size and hold every point of every contour |
| PrettyPolyGeometry.PolygonBounds | pretty-poly.h:224-231 | the loop of `pp_polygon_bounds` computes `PolygonBox` |
| PrettyPolyGeometry.TileBoundsFor | pretty-poly.h:255-260 | `pp_antialias` sizes the tile so that its sub-sample rows fill the 32 node rows and its pixels fill the 1024-byte buffer |
| PrettyPolyGeometry.TileGetValue | pretty-poly.h:207-209 | a byte of at most `S * S` scales to 0..255, and the value is 0 exactly when the byte is |
| PrettyPolyNodes.ScalePoints | pretty-poly.h:380-403 | each point is multiplied by `1 << aa` |
| PrettyPolyNodes.PolygonRow | pretty-poly.h:548-552 | every node any contour adds to a row lies in `[0, fw]`; the nodes are those of the walker with the corrected jump (see "## Findings") |
| PrettyPolyNodes.PolygonRows | pretty-poly.h:548-552 | building every contour's nodes gives the tile one node row per sub-sample scanline, 32 in all |
| PrettyPolyNodes.PolygonRowLength | pretty-poly.h:548-552 | row `y` of a tile holds one node per edge crossing of scanline `y + oy * S` |
| PrettyPolyNodes.ContourRowLength | pretty-poly.h:379-415 | one contour adds one node per edge crossing of the row's scanline |
| PrettyPolyNodes.PolygonRowEven | pretty-poly.h:439-441 | every row of a tile holds an even number of nodes |
| PrettyPolyNodes.PolygonRowPrefix | pretty-poly.h:548-552 | the rows after the first `k` contours are no longer than the full rows |
| PrettyPolyNodes.ContourRoom | pretty-poly.h:238-242 | contour `k` appends after contours `0 .. k - 1`; when no scanline crosses more than 32 edges, all of them fit in the row |
| PrettyPolyNodes.TileSpacePoint | pretty-poly.h:400-409 | a point in tile space is the scaled point less the scaled origin; with 28-bit coordinates an edge's x difference fits `sign()`'s 32 bits |
| PrettyPolyNodes.StepsAsWrittenAgrees | pretty-poly.h:334-339 | the jump `einc * -sy / dy` takes the steps the row loop would have taken, except when `dy` divides `einc * -sy` |
| PrettyPolyNodes.NodeXAsWrittenOvershoots | pretty-poly.h:334-339 | for the segment (0,-1)–(1,1) the jump records x = 1 on row 0, where the scanline walk records x = 0 |
| PrettyPolyRender.LeadingEmpty | pretty-poly.h:484-487 | `bounds->y` counts at most every row |
| PrettyPolyRender.LastRendered | pretty-poly.h:480-483 | `maxy` is -1 or a row of the tile |
| PrettyPolyRender.PairsMinXBelow | pretty-poly.h:457-473 | `bounds->x` ends at or left of the pixel of every non-degenerate span start |
| PrettyPolyRender.PairsMaxXAbove | pretty-poly.h:449 | `maxx` ends at or right of the pixel of every non-degenerate span's `ex - 1` |
| PrettyPolyRender.RowsMinXBelow | pretty-poly.h:429-478 | over all rows, `bounds->x` is at most the pixel of every drawn span's start |
| PrettyPolyRender.RowsMaxXAbove | pretty-poly.h:429-478 | over all rows, `maxx` is at least the pixel of every drawn span's last sub-sample |
| PrettyPolyRender.RenderedRowBounds | pretty-poly.h:480-487 | a row with a drawn span lies between `bounds->y` and `maxy` |
| PrettyPolyRender.RenderBoundsEnclose | pretty-poly.h:421-495 | every pixel that received coverage lies inside the bounds `render_nodes` reports |
| PrettyPolyRender.RenderBoundsOrigin | pretty-poly.h:490-493 | the reported bounds start inside the tile and have non-negative size |
| PrettyPolyRender.SortedRowsAt | pretty-poly.h:435 | after `render_nodes` every row is its old content sorted |
| PrettyPolyRender.TileRows | pretty-poly.h:427-435 | the rows `render_nodes` reads, built and then sorted, are still one per sub-sample scanline, 32 in all |
| PrettyPolyRender.CoverBuffer | pretty-poly.h:234-236 | the rendered buffer is `tile_buffer_size + 1` bytes |
| PrettyPolyRender.CoverBufferBound | pretty-poly.h:437-478 | every byte of the rendered buffer, the padding byte included, is between 0 and `S * S` |
| PrettyPolyRender.TileRowsInRange | pretty-poly.h:367 | every node of a tile lies between 0 and the tile's width in sub-samples |
| PrettyPolyRender.TileFromRowsGood | pretty-poly.h:556-569 | a tile built from sorted in-range rows is good: it is non-empty; it lies inside its clipped cell and the clip; all its bytes are in the buffer, none above `S * S` |
| PrettyPolyRender.TileAtGood | pretty-poly.h:528-569 | every tile `draw_polygon` hands the callback is good and lies inside its clipped cell |
| PrettyPolyRender.TileFromRowsCovers | pretty-poly.h:556-567 | a pixel of the cell whose byte holds coverage lies in the trimmed tile, whose data pointer reaches exactly that byte |
| PrettyPolyRender.TrimmedTile | pretty-poly.h:559-564 | moving the rendered bounds to the cell, clipping them and moving the data pointer keeps every rendered pixel and its byte |
| PrettyPolyRender.TileAtCovers | pretty-poly.h:528-569 | no coverage is lost by trimming: every covered pixel of a cell is in the tile handed to the callback, at its own byte |
| PrettyPolyRaster.ConsumeError | pretty-poly.h:364 | the inner loop leaves `e <= dy` after exactly `Steps(t, dy)` x steps in total |
| PrettyPolyRaster.OrderedEdgeNodes | pretty-poly.h:289-295 | after the endpoints are swapped to point down, `EdgeNodes` is the walk's node on each row of `sy .. ey - 1` (for both walkers) |
| PrettyPolyRaster.LoopStepsExact | pretty-poly.h:346-375 | from the corrected jump, the loop's step count on each row is the scanline definition's |
| PrettyPolyRaster.LoopStepsAsWritten | pretty-poly.h:334-375 | from the jump as written, the loop's step count is `StepsAsWritten` |
| PrettyPolyRaster.WalkIsEdgeNodes | pretty-poly.h:303-375 | the corrected walker writes exactly `EdgeNodes`: one node on each row of `max(0, sy) .. min(32, ey) - 1` and nothing elsewhere |
| PrettyPolyRaster.OffSideIsEdgeNodes | pretty-poly.h:307-322 | the early exits write `EdgeNodes` too |
| PrettyPolyRaster.WalkIsEdgeNodesAsWritten | pretty-poly.h:303-375 | the walker as written writes exactly `EdgeNodesAsWritten` |
| PrettyPolyRaster.JumpToTop | pretty-poly.h:334-339 | the corrected jump takes `Steps(einc * -sy, dy)` steps and leaves the rest in `e` |
| PrettyPolyRaster.JumpToTopAsWritten | pretty-poly.h:334-339 | the jump as written takes `einc * -sy / dy` steps |
| PrettyPolyRaster.SpanWindow | pretty-poly.h:453-471 | inside its pixel row the span code adds each pixel's sub-sample coverage; outside it, nothing but 0 to the byte after the row |
| PrettyPolyRaster.SpanLastByte | pretty-poly.h:469-471 | a span ends at most one byte past its row, and only with no sub-samples there (the padding byte receives 0) |
| PrettyPolyRaster.AddCells | pretty-poly.h:464-471 | the first, middle and last-pixel additions change exactly the bytes `ax .. aex` of the row |
| PrettyPolyRaster.AddSpan | pretty-poly.h:453-477 | drawing one span adds to every byte exactly the span's coverage of its pixel, with or without anti-aliasing |
| PrettyPolyRaster.PairsDrawnStep | pretty-poly.h:439-478 | drawing pair `n` after the pairs before it gives the buffer with the first `n + 1` pairs drawn |
| PrettyPolyRaster.RowBase | pretty-poly.h:437 | `row_data` for sub-sample row `y` lies inside the tile buffer |
| PrettyPolyRaster.RowsSnoc | pretty-poly.h:429-487 | how the four bounds accumulators move on by one more row |
| PrettyPolyRaster.TileCoverSnoc | pretty-poly.h:429-478 | a tile byte's coverage grows by the new row's coverage |
| PrettyPolyRaster.PairsToLine | pretty-poly.h:437-478 | drawing all pairs of a row at `row_data` adds that row's coverage to every byte |
| PrettyPolyRaster.TileFromRowsVisible | pretty-poly.h:556-567 | an empty trimmed tile gives no callback; otherwise the tile is the trimmed bounds over the coverage buffer from the rendered origin |
| PrettyPolyRaster.BufferIsCover | pretty-poly.h:545-557 | a buffer cleared to 0 and then rendered holds exactly the coverage |
| PrettyPolyRaster.Rasterizer.SetClip | pretty-poly.h:247-249 | stores the clip rect |
| PrettyPolyRaster.Rasterizer.SetTileCallback | pretty-poly.h:251-253 | stores the callback |
| PrettyPolyRaster.Rasterizer.SetAntialias | pretty-poly.h:255-260 | stores the level and sets `tile_bounds` to `TileBoundsFor(aa)` |
| PrettyPolyRaster.Rasterizer.FillRows | pretty-poly.h:307-322 | the early-exit loops append the same value to rows `y .. y + count - 1` and nothing else |
| PrettyPolyRaster.Rasterizer.StepRows | pretty-poly.h:361-375 | the scanline loop appends the walk's clamped node to each row up to `min(32, ey)` and changes no other row |
| PrettyPolyRaster.Rasterizer.WalkRows | pretty-poly.h:324-375 | the corrected jump followed by the scanline loop adds exactly `EdgeNodes` to every row |
| PrettyPolyRaster.Rasterizer.WalkRowsAsWritten | pretty-poly.h:324-375 | the jump as written followed by the loop adds exactly `EdgeNodesAsWritten` |
| PrettyPolyRaster.Rasterizer.AddLineSegmentToNodes | pretty-poly.h:286-377 | with the corrected jump, every row gains exactly the segment's `EdgeNodes` |
| PrettyPolyRaster.Rasterizer.AddLineSegmentToNodesAsWritten | pretty-poly.h:286-377 | as written, every row gains exactly `EdgeNodesAsWritten` |
| PrettyPolyRaster.Rasterizer.RenderPair | pretty-poly.h:447-477 | a non-degenerate pair widens `bounds->x` and `maxx` to its pixels and adds its coverage to every byte |
| PrettyPolyRaster.Rasterizer.RenderRow | pretty-poly.h:437-478 | the pair loop leaves `bounds->x`, `maxx` and `rendered_any` at their values for the whole row and adds the row's coverage to the buffer |
| PrettyPolyRaster.Rasterizer.RenderLine | pretty-poly.h:429-487 | one row is sorted and drawn; the bounds accumulators move on by the sorted row |
| PrettyPolyRaster.Rasterizer.RenderNodes | pretty-poly.h:421-495 | every row ends up sorted, the buffer gains each pixel's coverage by the sorted rows, and the bounds are `RenderBounds` of them |
| PrettyPolyRaster.Rasterizer.BuildNodes | pretty-poly.h:379-415 | every row gains the contour's nodes in edge order, starting with the closing edge; the nodes are those of the walker with the corrected jump (see "## Findings") |
| PrettyPolyRaster.Rasterizer.ClearBuffer | pretty-poly.h:545 | every byte of the tile buffer becomes 0 |
| PrettyPolyRaster.Rasterizer.BuildContours | pretty-poly.h:544-552 | from an empty table, row `y` ends up holding the nodes of every contour, contour by contour; the nodes are those of the walker with the corrected jump (see "## Findings") |
| PrettyPolyRaster.Rasterizer.RenderTile | pretty-poly.h:543-557 | a cell rendered from scratch leaves the sorted rows, the coverage buffer and the rendered bounds; the nodes are those of the walker with the corrected jump (see "## Findings") |
| PrettyPolyRaster.Rasterizer.DrawTile | pretty-poly.h:530-569 | the callback receives exactly the tile `TileAt` describes for the cell, or nothing; the nodes are those of the walker with the corrected jump (see "## Findings") |
| PrettyPolyRaster.Rasterizer.DrawBand | pretty-poly.h:529-570 | the inner loop hands the callback the tiles of one band, left to right; the nodes are those of the walker with the corrected jump (see "## Findings") |
| PrettyPolyRaster.Rasterizer.DrawBands | pretty-poly.h:528-571 | the outer loop hands the callback the tiles of every band, top to bottom; the nodes are those of the walker with the corrected jump (see "## Findings") |
| PrettyPolyRaster.Rasterizer.DrawPolygon | pretty-poly.h:497-576 | `draw_polygon` does nothing without contours; otherwise it hands the callback the tiles of every cell of the polygon bounds, in raster order; the nodes are those of the walker with the corrected jump (see "## Findings") |
| PrettyPolyRaster.Rasterizer.constructor | pretty-poly.h:105-108 | the zero-initialised globals: clip, callback, level and `tile_bounds` all 0, every node row empty, nothing handed to the callback |
| PrettyPolyRaster.Rasterizer.EmitRow | pretty-poly.h:361-375 | one pass of the scanline loop appends the walk's node to row `y` alone and keeps the error term and x in step with the row |
| PrettyPolyRaster.Rasterizer.AddEdge | pretty-poly.h:400-412 | one pass of the `build_nodes` loop adds edge `i`'s nodes to every row after those of the edges before it; the nodes are those of the walker with the corrected jump (see "## Findings") |
| PrettyPolyRaster.Rasterizer.DrawPair | pretty-poly.h:439-477 | one pass of the pair loop draws pair `n` into the buffer and updates the drawn bounds |
| PrettyPolyRaster.Rasterizer.RenderNextLine | pretty-poly.h:429-487 | one pass of the row loop sorts and draws row `y` and extends the rendered bounds by it |
| PrettyPolyRaster.Rasterizer.DrawCell | pretty-poly.h:530-569 | one pass of the inner tile loop hands the callback the tiles of the cell at `x` and moves on by one tile width; the nodes are those of the walker with the corrected jump (see "## Findings") |
| HppGeometry.HppEmptyNoPixel | pretty-poly.hpp:22 | an `empty()` rect has no pixel, but a zero-width column `Rect(0, 0, 0, 32)` has none either and is not `empty()` |
| HppGeometry.PointsOf | pretty-poly.hpp:54-57 | point `i` of a `contour_t` vector is `(c[2i], c[2i + 1])` |
| HppGeometry.Contours | pretty-poly.hpp:54-57 | the contours, read as point sequences, keep their number and order |
| HppGeometry.ContourBounds | pretty-poly.hpp:59-69 | `contour_t::bounds` over the interleaved vector computes the box of the contour's points |
| HppGeometry.MergeSelf | pretty-poly.hpp:32-39 | merging a rect of non-negative size with itself changes nothing |
| HppGeometry.PolygonBounds | pretty-poly.hpp:222-226 | starting from contour 0 and merging in every contour (contour 0 again included) gives the polygon's bounding box |
| HppGeometry.HppBuffer | pretty-poly.hpp:74-76 | the rendered buffer is 1024 bytes |
| HppGeometry.HppCellTileGood | pretty-poly.hpp:238-266 | a tile handed to the callback is not `empty()` and reads the buffer from its start with the tile width as stride; it lies in the clip and its cell; its pixels index the buffer; no byte exceeds 16, so the 8-bit `++` never wraps |
| HppGeometry.HppZeroWidthClip | pretty-poly.hpp:241-250 | with a clip of zero width the callback still receives one pixel-less tile `(0, 0, 0, 32)`, where `pretty-poly.h` hands over none |
| HppRaster.SpanAddedStep | pretty-poly.hpp:202-204 | one more sub-sample `x` adds one to the byte `(x >> aa) + base`, which lies in the pixel row |
| HppRaster.CountSpan | pretty-poly.hpp:202-204 | the per-sub-sample `++` loop adds the span's sub-sample coverage to every byte of the row |
| HppRaster.HppBufferIsCover | pretty-poly.hpp:254-264 | a buffer cleared to 0 and then rendered holds exactly the coverage |
| HppRaster.CellEdge | pretty-poly.hpp:132-178 | `build_nodes` moves the points to the cell and the walker then scales them; together they form edge `i` of the scaled contour in tile space, with an x extent within 30 bits |
| HppRaster.HppRasterizer.constructor | pretty-poly.hpp:75-91 | the initial globals: clip `(0, 0, 320, 240)`, no anti-aliasing, a 32 by 32 tile, empty node rows, a zero buffer |
| HppRaster.HppRasterizer.SetOptions | pretty-poly.hpp:94-102 | stores the callback, the level and the clip, and sizes the tile so that its sub-sample rows fill the node table and its pixels the buffer |
| HppRaster.HppRasterizer.AddLineSegmentToNodes | pretty-poly.hpp:123-166 | after the swap and the `<<= aa`, every row in 0..31 gains exactly the scaled segment's `EdgeNodes`, clamped to the tile width |
| HppRaster.HppRasterizer.BuildNodes | pretty-poly.hpp:168-182 | every row gains the contour's nodes in edge order, starting with the closing edge |
| HppRaster.HppRasterizer.BuildContours | pretty-poly.hpp:253-260 | from an empty table, row `y` ends up holding the nodes of every contour, contour by contour |
| HppRaster.HppRasterizer.RenderRow | pretty-poly.hpp:192-205 | the pair loop adds the sorted row's coverage to every byte of its pixel row |
| HppRaster.HppRasterizer.RenderLine | pretty-poly.hpp:186-205 | an empty row is skipped; any other row is sorted and its coverage added |
| HppRaster.HppRasterizer.RenderNodes | pretty-poly.hpp:184-207 | every row ends up sorted and every byte gains its pixel's coverage by the sorted rows |
| HppRaster.HppRasterizer.ClearBuffer | pretty-poly.hpp:254 | every byte of the tile buffer becomes 0 |
| HppRaster.HppRasterizer.DrawTile | pretty-poly.hpp:240-266 | the callback receives exactly `HppCellTile` for the cell: nothing when the clipped cell is `empty()`, otherwise the whole clipped cell over the coverage buffer |
| HppRaster.HppRasterizer.DrawBand | pretty-poly.hpp:239-267 | the inner loop hands the callback the tiles of one band, left to right |
| HppRaster.HppRasterizer.DrawBands | pretty-poly.hpp:238-268 | the outer loop hands the callback the tiles of every band, top to bottom |
| HppRaster.HppRasterizer.DrawPolygon | pretty-poly.hpp:217-269 | the callback receives the tile of every cell of the polygon bounds that `empty()` does not skip, in raster order |
| HppRaster.HppRasterizer.DrawContour | pretty-poly.hpp:209-215 | a single contour is drawn as the polygon of that contour alone |
| HppRaster.HppRasterizer.AddEdge | pretty-poly.hpp:174-180 | one pass of the `build_nodes` loop adds edge `i`'s nodes to every row after those of the edges before it |
| HppRaster.HppRasterizer.DrawPair | pretty-poly.hpp:192-205 | one pass of the pair loop adds pair `n`'s coverage to the row's bytes |
| HppRaster.HppRasterizer.RenderNextLine | pretty-poly.hpp:185-206 | one pass of the row loop sorts row `y` and adds its coverage |
| HppRaster.HppRasterizer.DrawCell | pretty-poly.hpp:240-266 | one pass of the inner tile loop hands the callback the cell's tile, if any, and moves on by one tile width |
| SegmentWalk.WalkRow | pretty-poly.hpp:149-163 | one pass of the scanline loop appends the clamped node to row `y` when it is a table row, changes no row otherwise, and keeps the error term and x in step |
| SegmentWalk.WalkSegment | pretty-poly.hpp:138-164 | the scanline loop of a segment in downward order adds exactly its `EdgeNodes` to every table row |
| SrcBounds.ExtendAllIsMerge | src/pretty-poly.hpp:215-222 | growing the min/max accumulator point by point is merging it with the points' box |
| SrcBounds.BoundsReadIsBox | src/pretty-poly.hpp:208-222 | an accumulator started at point 0 of contour 0 that reads every point yields the polygon's bounding box |
| SrcBounds.AsWrittenOneContour | src/pretty-poly.hpp:208-222 | for a single contour the loop as written is right, since the accumulator starts at its point 0 |
| SrcBounds.AsWrittenMissesPoint | src/pretty-poly.hpp:215-222 | two contours where point 0 of the second lies right of every other point: the loop as written leaves that point outside its bounds, though the bounding box holds it |
| SrcBounds.ReadPoints | src/pretty-poly.hpp:216-221 | the inner loop, from index `i` on, grows the accumulator by each point from `i / 2` on |
| SrcBounds.BoundsLoopAsWritten | src/pretty-poly.hpp:208-222 | the loop as written computes `BoundsAsWritten`, which skips point 0 of every contour after the first |
| SrcBounds.PolygonBounds | src/pretty-poly.hpp:208-222 | the loop with every point read computes the polygon's bounding box |
| SrcGeometry.SrcPolygonRow | src/pretty-poly.hpp:128-133 | every node of a cell's row lies in `[0, tile_size]` |
| SrcGeometry.SrcRows | src/pretty-poly.hpp:128-133 | a cell's node table has one row per scanline, 32 in all |
| SrcGeometry.SrcContourRowLength | src/pretty-poly.hpp:142-161 | one contour adds one node per edge crossing of the sub-sample scanline `y + tb.y` |
| SrcGeometry.SrcContourRowEven | src/pretty-poly.hpp:174-176 | one contour adds an even number of nodes to each row |
| SrcGeometry.SrcPolygonRowLength | src/pretty-poly.hpp:250-255 | row `y` of a cell holds one node per edge crossing of scanline `y + tb.y` |
| SrcGeometry.SrcPolygonRowEven | src/pretty-poly.hpp:174-176 | every row of a cell holds an even number of nodes, so the pairs are well formed |
| SrcGeometry.SrcPolygonRowPrefix | src/pretty-poly.hpp:252-255 | the row after the first `k` contours is no longer than the full row |
| SrcGeometry.SrcContourRoom | src/pretty-poly.hpp:252-255 | contour `k` appends after contours `0 .. k - 1`; when no scanline crosses more than 32 edges, all of them fit in the row |
| SrcGeometry.SrcMask | src/pretty-poly.hpp:163-191 | the rendered part of the buffer is `32 * h` bytes |
| SrcGeometry.PairsLitCover | src/pretty-poly.hpp:174-189 | a pair sets a sub-sample's byte exactly when, at one sample per pixel, it gives that pixel coverage |
| SrcGeometry.TileCoverFullRes | src/pretty-poly.hpp:184 | at one sample per pixel a byte's coverage comes from its own row only |
| SrcGeometry.SrcMaskIsCover | src/pretty-poly.hpp:163-191 | the mask is the coverage the counting renderer of `pretty-poly.h` gives the same rows at one sample per pixel, and is 0 or 1 |
| SrcGeometry.SrcClippedCell | src/pretty-poly.hpp:237 | a clipped cell is at most 32 by 32 and of non-negative size |
| SrcGeometry.SrcCellTileGood | src/pretty-poly.hpp:233-262 | a tile handed to the callback is non-empty with stride 32; it lies in the scaled clip and its cell; its sub-samples index the buffer; every byte is the one-sample coverage of its sorted rows, 0 or 1 |
| SrcRaster.RowFilledStep | src/pretty-poly.hpp:184-188 | pair `n` sets to 1 the bytes of its sub-samples `[sx, ex)` in the buffer row and leaves every other byte |
| SrcRaster.MaskDoneStep | src/pretty-poly.hpp:167-190 | rendering row `y` fills its pairs into the buffer row `32 * y` |
| SrcRaster.MaskDoneIsMask | src/pretty-poly.hpp:165-190 | after clearing `32 * h` bytes and rendering rows `0 .. h - 1`, those bytes are the mask and the rest are untouched |
| SrcRaster.SortedRowsPrefix | src/pretty-poly.hpp:167-172 | sorting rows `0 .. h - 1` leaves them as sorting all rows does |
| SrcRaster.SrcCellEdge | src/pretty-poly.hpp:149-159 | `build_nodes` forms edge `i` of the contour scaled and moved by the cell origin, with an x extent within 32 bits |
| SrcRaster.SrcRasterizer.constructor | src/pretty-poly.hpp:69-100 | the initial globals: clip `(0, 0, 320, 240)`, 4x anti-aliasing, empty node rows, a zero buffer |
| SrcRaster.SrcRasterizer.SetOptions | src/pretty-poly.hpp:74-76 | stores the callback and nothing else |
| SrcRaster.SrcRasterizer.AddLineSegmentToNodes | src/pretty-poly.hpp:102-140 | every row in 0..31 gains exactly the segment's `EdgeNodes`, clamped to 32 |
| SrcRaster.SrcRasterizer.BuildNodes | src/pretty-poly.hpp:142-161 | every row gains the contour's nodes in edge order, starting with the closing edge |
| SrcRaster.SrcRasterizer.BuildContours | src/pretty-poly.hpp:250-255 | from an empty table the rows end up as the cell's node rows |
| SrcRaster.SrcRasterizer.ClearBytes | src/pretty-poly.hpp:165 | the first `stride * h` bytes become 0 and the rest are untouched |
| SrcRaster.SrcRasterizer.FillSpan | src/pretty-poly.hpp:184-188 | `count = ex - sx` bytes from `base + sx` on become 1, no others change |
| SrcRaster.SrcRasterizer.FillRow | src/pretty-poly.hpp:174-189 | the pair loop fills the covered sub-samples of buffer row `32 * y` |
| SrcRaster.SrcRasterizer.RenderLine | src/pretty-poly.hpp:167-190 | an empty row is skipped; any other row is sorted and filled |
| SrcRaster.SrcRasterizer.RenderTile | src/pretty-poly.hpp:163-191 | rows `0 .. h - 1` are sorted and the first `32 * h` bytes become their mask; lower rows and later bytes are untouched |
| SrcRaster.SrcRasterizer.DrawTile | src/pretty-poly.hpp:235-261 | the callback receives exactly `SrcCellTile` for the cell: nothing when the clipped cell has no width or no height |
| SrcRaster.SrcRasterizer.DrawBand | src/pretty-poly.hpp:234-262 | the inner loop hands the callback the tiles of one band, left to right |
| SrcRaster.SrcRasterizer.DrawBands | src/pretty-poly.hpp:233-263 | the outer loop hands the callback the tiles of every band, top to bottom |
| SrcRaster.SrcRasterizer.DrawPolygon | src/pretty-poly.hpp:201-264 | with every point read for the bounds (the corrected loop of "## Findings"), the callback receives the tile of every cell of the scaled bounds that the clip leaves non-empty, in raster order |
| SrcRaster.SrcRasterizer.DrawContour | src/pretty-poly.hpp:193-199 | a single contour is drawn as the polygon of that contour alone |
| SrcRaster.SrcRasterizer.AddEdge | src/pretty-poly.hpp:152-159 | one pass of the `build_nodes` loop adds edge `i`'s nodes to every row after those of the edges before it |
| SrcRaster.SrcRasterizer.FillPair | src/pretty-poly.hpp:174-189 | one pass of the pair loop sets pair `n`'s sub-samples in the row's bytes to 1 |
| SrcRaster.SrcRasterizer.RenderNextLine | src/pretty-poly.hpp:167-190 | one pass of the row loop sorts row `y` and fills its mask bytes |
| SrcRaster.SrcRasterizer.DrawCell | src/pretty-poly.hpp:235-261 | one pass of the inner tile loop hands the callback the cell's tile, if any, and moves on by one tile |
| Helpers.Packed | examples/helpers.h:6-14 | in the union's word, `a` is the least significant byte and `r` the most significant |
| Helpers.Unpacked | examples/helpers.h:6-14 | the bytes read from a word: `a` its low byte, `r` its high byte |
| Helpers.UnpackPacked | examples/helpers.h:6-14 | writing the bytes and reading the word back loses nothing |
| Helpers.PackUnpacked | examples/helpers.h:6-14 | writing the word and reading the bytes back loses nothing |
| Helpers.Alpha | examples/helpers.h:16-18 | `alpha` fits in 24 bits |
| Helpers.AlphaOpaque | examples/helpers.h:16-18 | an opaque destination keeps the source alpha |
| Helpers.AlphaTransparent | examples/helpers.h:16-18 | a transparent source stays transparent |
| Helpers.AlphaAtMost | examples/helpers.h:16-18 | for byte inputs the product does not wrap, and the result is at most the source alpha |
| Helpers.BlendChannelZero | examples/helpers.h:20-22 | alpha 0 keeps the destination channel |
| Helpers.BlendChannelBetween | examples/helpers.h:20-22 | the blended channel lies between source and destination, so the `uint8_t` truncation never wraps |
| Helpers.BlendExtremes | examples/helpers.h:24-29 | a transparent source leaves the destination; an opaque one replaces it |
| Helpers.BlendBetween | examples/helpers.h:24-38 | every channel of a blend lies between the source's and the destination's; when the source is neither fully transparent nor fully opaque the alpha is the larger of the two, and it is never below a visible source's |
| Helpers.BlendSelf | examples/helpers.h:24-38 | blending a colour over itself changes nothing |
| Helpers.CreateColour | examples/helpers.h:40-42 | `create_colour` sets the four channels, and the word packs `r, g, b, a` from high byte to low |
| LogoCpp.CheckForCommand | examples/logo.cpp:48-82 | a token names `Move`, `MoveRelative` or `CubicBezierRelative` exactly when it starts with `M`, `m` or `c`, and no command otherwise |
| LogoCpp.FindSpace | examples/logo.cpp:91 | `find(" ")` is the first space, or the length when there is none |
| LogoCpp.NextToken | examples/logo.cpp:90-99 | taking a token never lengthens the path, and shortens a non-empty one |
| LogoCpp.NextTokenIsFind | examples/logo.cpp:90-99 | the token is `substr(0, find(" "))`; the path becomes empty without a space and `substr(split_at + 1)` with one |
| LogoCpp.NextTokenSplits | examples/logo.cpp:90-99 | token, space and new path put together give back the old path, and the token holds no space |
| LogoCpp.NextTokenSplit | examples/logo.cpp:90-99 | a space-free token followed by a space and more comes off whole |
| LogoCpp.NextTokenWhole | examples/logo.cpp:93-94 | a path without spaces is one last token, leaving an empty path |
| LogoCpp.DigitRun | examples/logo.cpp:102 | the leading digit run that `from_chars` reads: all digits, followed by a non-digit or the end |
| LogoCpp.TokenToInt | examples/logo.cpp:101-103 | `token_to_int` always yields an `int`: 0 when `from_chars` matches nothing, the parsed value when it fits |
| LogoCpp.NatStringValue | examples/logo.cpp:102 | the digits of `n` read back as `n` |
| LogoCpp.FromCharsUnsigned | examples/logo.cpp:102 | digits followed by a non-digit parse to their value |
| LogoCpp.FromCharsNegative | examples/logo.cpp:102 | `-` then digits parse to the negated value |
| LogoCpp.TokenToIntRoundTrip | examples/logo.cpp:101-103 | an int32 written as the path writes it, followed by a non-digit such as the closing `z`, reads back as itself |
| LogoCpp.IntStringShape | examples/logo.cpp:76-87 | a written integer holds no space and no `z`, does not start with a command letter, and ends in a digit |
| LogoCpp.ContourStep | examples/logo.cpp:115-177 | one pass of the contour loop consumes path; it adds one point under `M` and `m` and four under `c`, the last of them the new `last`; once a command is set it stays set |
| LogoCpp.PairOrCurve | examples/logo.cpp:130-172 | the rest of a pass after the x token keeps the command, leaves no more path than it was given, and adds one point under `M` and `m` and four under `c`, the last of them the new `last` (what a curve's tokens become is stated by CubicSegment) |
| LogoCpp.CubicSegment | examples/logo.cpp:130-172 | a relative cubic segment written as three `x y` pairs, after a `c` or under the current `c` command, reads back: c1 and c2 are the first two pairs offset by `last`; the contour gains three curve samples from `last` through c1 and c2 to the end point, then the end point, which is the third pair plus `last` and becomes the new `last`; a `z` on the end point's y closes the contour |
| LogoCpp.CurvePass | examples/logo.cpp:123-172 | a pass over the six tokens of a cubic segment offsets c1, c2 and the end point by `last` and adds the three samples and the end point |
| LogoCpp.EndPoint | examples/logo.cpp:144-172 | an empty y token is a fault (the close check reads before the view); otherwise the contour closes exactly when the y token ends in `z` |
| LogoCpp.ParseContourShortens | examples/logo.cpp:109-194 | a contour never leaves more path than it found and consumes part of a non-empty path, so `parse_svg_path` ends |
| LogoCpp.ParseContour | examples/logo.cpp:151-172 | once a command is set, a parsed contour ends at the `last` it leaves: its final point, or the incoming `last` when it appends none |
| LogoCpp.XToken | examples/logo.cpp:123-128 | the command letter in front of an x token switches the command and is chopped off |
| LogoCpp.ClosingY | examples/logo.cpp:144-177 | a y token ending in `z` closes the contour with the pair's point |
| LogoCpp.OpenY | examples/logo.cpp:144-172 | a y token followed by a space leaves the contour open after the pair's point |
| LogoCpp.LastPair | examples/logo.cpp:115-177 | the last pair of a written contour adds its target point and closes the contour |
| LogoCpp.InnerPair | examples/logo.cpp:115-177 | an inner pair adds its target point and continues |
| LogoCpp.VisitedFirst | examples/logo.cpp:151-160 | the points a move contour visits are the first pair's target, then the rest visited from there |
| LogoCpp.OnePairContour | examples/logo.cpp:109-185 | a contour of one written pair reads back as that one point |
| LogoCpp.FirstPairContour | examples/logo.cpp:109-185 | a longer contour reads its first pair, then the rest under the same command |
| LogoCpp.MoveContourRoundTrip | examples/logo.cpp:109-185 | a move contour written as `x y` pairs and closed by `z` reads back every point (as is under `M`, summed under `m`); it stops at the `z` and leaves `last` at the final point |
| LogoCpp.RestRoundTrip | examples/logo.cpp:115-177 | the pairs after the first, with no letter in front, read back the same way |
| LogoCpp.NatString | examples/logo.cpp:102 | the decimal digits of a natural number: never empty, all digits |
| LogoCpp.ReadUnsigned | examples/logo.cpp:102 | `from_chars` reads a written natural number back, whatever non-digit follows |
| LogoCpp.ReadNegative | examples/logo.cpp:102 | `from_chars` reads a written negative number back, whatever non-digit follows |
| LogoCpp.PathParser.constructor | examples/logo.cpp:108 | `last` starts at `(0, 0)` |
| LogoCpp.PathParser.ParseSvgPathContour | examples/logo.cpp:105-185 | the loop returns `ParseContour`'s points and rest and leaves `last` at its `last`, or reports the fault |
| LogoCpp.PathParser.ParseSvgPath | examples/logo.cpp:187-194 | resets `last` to `(0, 0)` and collects contours until the path is empty: `ParsePath` |
| LogoC.StopAt | examples/logo.c:87-94 | the number copy stops at the first space, `z` or newline at or after the start, or at the terminator when there is none |
| LogoC.NextToken | examples/logo.c:66-97 | a token always moves the caret forward and fits the 16-byte buffer with its terminator; it is empty exactly when the terminator was reached |
| LogoC.NextTokenShape | examples/logo.c:66-97 | every token read is, after the skipped white space, empty at the terminator, a single command letter, or a non-empty run of non-stop characters followed by a stop |
| LogoC.CStr | examples/logo.c:119 | the string a buffer holds is its prefix before the first NUL, free of NULs |
| LogoC.HeldCStr | examples/logo.c:89-92 | a buffer holding a token's characters and then a NUL reads back as that token |
| LogoC.GetNextToken | examples/logo.c:66-97 | `get_next_token` faults exactly where the token function does; otherwise the buffer holds the token and the caret moves to its end |
| LogoC.SkipSpace | examples/logo.c:67-70 | skipping white space stops at a non-space or the terminator and does not change which token is read |
| LogoC.CopyToken | examples/logo.c:86-96 | the number copy writes the token into the buffer and stops with the caret on the stop character, or faults at the terminator or on overflow |
| LogoC.IsNumeric | examples/logo.c:99-105 | `is_numeric` holds exactly when every character of the token is a digit or `-` |
| LogoC.StrChr | examples/logo.c:157-161 | `strchr` finds the first occurrence of the character at or after the caret, or none exactly when it does not occur |
| LogoC.GetSvgPathCount | examples/logo.c:155-164 | `get_svg_path_count` is the number of `z` characters in the path |
| LogoC.TokenFirst | examples/logo.c:72-79 | a token holds no NUL, and one that starts with a command letter is that letter alone, just before the new caret |
| LogoC.CommandFirst | examples/logo.c:72-79 | a command letter is read as a token of its own, just before the new caret |
| LogoC.ReadTokens | examples/logo.c:133-148 | `k` successive reads give `k` texts and move the caret forward past the path's characters |
| LogoC.CommandOf | examples/logo.c:124-127 | `M`, `m` and `c` select the absolute move, relative move and relative curve |
| LogoC.Segment | examples/logo.c:198-246 | a segment adds three curve samples and the end point under `c`, one point under `M` and `m`, none with no command yet; the last point added becomes `last`, which is unchanged with no command |
| LogoC.ParseContour | examples/logo.c:169-251 | a contour always moves the caret forward, to at most one past the terminator |
| LogoC.ContourCount | examples/logo.c:108-153 | the counting pass and the parsing pass fault together, and otherwise the contour has exactly as many points as counted, so the allocation of `get_svg_path_point_count` points is filled and never overrun |
| LogoC.ContourEnds | examples/logo.c:181-194 | a contour stops at the end of the path or just after a `z` |
| LogoC.ContourLast | examples/logo.c:216-243 | after a contour `last` is its final point, or unchanged when it has none |
| LogoC.ReadOn | examples/logo.c:133-137 | partway through a run of reads that succeeds, the next read succeeds and extends the run |
| LogoC.ReadFault | examples/logo.c:133-137 | a read that faults partway makes the whole run fault |
| LogoC.ReadEnd | examples/logo.c:133-137 | once all `k` reads are done, the run gives exactly the texts read and the caret reached |
| LogoC.CountSegment | examples/logo.c:131-149 | one pass of the counting loop over a coordinate token adds the segment's width and moves on past its tokens |
| LogoC.SkipSegment | examples/logo.c:131-149 | the counting pass reads five further tokens under `c` and one under `M` and `m`, and faults exactly where those reads do |
| LogoC.GetSvgPathPointCount | examples/logo.c:108-153 | `get_svg_path_point_count` faults exactly where the counting function does, and otherwise returns its count |
| LogoC.ReadBack | examples/logo.c:119 | after a read the buffer's C string is the token |
| LogoC.EndStep | examples/logo.c:119-128 | an empty token or a `z` ends the contour in both passes with no points and `last` unchanged |
| LogoC.SegmentReads | examples/logo.c:131-149 | when the count succeeds, the further tokens of each segment are there to read |
| LogoC.CommandStep | examples/logo.c:124-127 | a command token changes the command and nothing else, in both passes |
| LogoC.ParseStep | examples/logo.c:197-246 | one pass of the parsing loop over a coordinate token appends that segment's points, in order, to those already parsed |
| LogoC.Put | examples/logo.c:216-219 | `points[i++] = v` appends `v` to the points written so far |
| LogoC.ReadCoord | examples/logo.c:201-214 | one read followed by `atof` advances a run of reads and converts the token read |
| LogoC.ReadCubic | examples/logo.c:199-214 | a curve's five further reads give its control points and end point, each offset by `last` |
| LogoC.PathStep | examples/logo.c:263-266 | one pass of the bounded path loop parses one contour and puts it in front of the rest, or faults |
| LogoC.BoundedContours | examples/logo.c:253-269 | the bounded path reader never stores more contours than entries were allocated |
| LogoC.BoundedAgrees | examples/logo.c:253-269 | where the path as written stays within the allocation, the bounded reader gives the same contours and `last` |
| LogoC.ContoursBound | examples/logo.c:155-266 | every contour but the last ends with a `z`, so the path as written parses at most one contour more than `get_svg_path_count` allocates |
| LogoC.ContourOverrun | examples/logo.c:253-269 | `"M1 2z "` has one `z`, yet the path as written parses two contours |
| LogoC.OverrunFirst | examples/logo.c:169-251 | the first contour of `"M1 2z "` is its one point and ends just after the `z` |
| LogoC.OverrunSecond | examples/logo.c:169-251 | the trailing space after the `z` is parsed as a second, empty contour |
| LogoC.SvgReader.constructor | examples/logo.c:168 | the global `last` starts at `(0, 0)` |
| LogoC.SvgReader.ParseCubic | examples/logo.c:198-224 | a `c` segment writes three curve samples and its end point after the points so far and moves `last` to the end |
| LogoC.SvgReader.ParseMove | examples/logo.c:226-246 | an `M` or `m` segment writes its point (offset by `last` under `m`) after the points so far and makes it `last` |
| LogoC.SvgReader.ParseSegment | examples/logo.c:197-246 | a segment writes exactly the points `Segment` gives after those so far, and `last` becomes `Segment`'s |
| LogoC.SvgReader.ParseSvgPathContour | examples/logo.c:169-251 | `parse_svg_path_contour` returns exactly `ParseContour`'s points, caret and `last`, or reports the fault with `last` unchanged |
| LogoC.SvgReader.ParseSvgPath | examples/logo.c:253-269 | allocates one entry per `z` and fills them with the bounded reader's contours, reporting a fault as not ok |

## Left out

- Transforms: `pp_mat3_*`, `pp_point_transform`, `pp_rect_transform` and `_pp_transform` work on floats with `cosf`/`sinf`. The model draws untransformed points, as with a null `_pp_transform`.
- Float coordinates: `PP_COORD_TYPE` defaults to `float`; points here are unbounded integers. They stand only for inputs whose scaled coordinates are whole numbers: the walker's truncation of float coordinates to `int32_t` (pretty-poly.h:287) is not modelled, nor are the fractional points of `examples/logo.c`. The float `aa_scale` of `build_nodes` is the integer `<< aa`.
- The RP2040 hardware-interpolator branches of `pretty-poly.h` drive hardware registers; only the portable branch of the walker is modelled.
- `qsort` and `std::sort` are not modelled as code: `ScanMath.SortSeq` states their contract (sorted, and a permutation of the row).
- `debug` and `debug_tile` print; they are left out.
- The tile callbacks are opaque ids. Each tile handed over is appended to a ghost `log`, with the buffer contents it sees. What the example callbacks then do with the pixels (`tile_render_callback` in `examples/logo.c`, the blending into a frame buffer) is left out.
- Integer width: the walkers' 32-bit arithmetic is not wrapped and its overflow is not modelled. The drawing methods require every x coordinate within 28 bits (`PrettyPolyNodes.XInRange`), so that `sign()` and the x sums see int32 values. Nothing bounds y: for large polygons `dy = ey - sy`, the scaled y values and the jump's product `e = einc * -sy` (pretty-poly.h:335) can leave int32, which in C is undefined; the model computes them exactly. For example, at aa = 2 the contour (0,-10000), (100000,10000), (0,10000) in the tile at (0,0) gives `e = 400001 * 40000`.
- Node-table overflow: `pretty-poly.h` does not check that a row holds at most 32 nodes. The drawing methods require it of the polygon (`PrettyPolyNodes.NodeCapacity`: no sub-sample scanline crosses more than 32 edges).
- Tile buffer bytes are integers, not `uint8_t`; the bound lemmas show no byte exceeds 16, so no byte would wrap.
- `PrettyPolyRaster.Rasterizer.DrawPolygon` requires that `tile_bounds` has been set by `pp_antialias`. Before that call the C header's `tile_bounds` is all zeros and `draw_polygon` would loop with a zero step.
- `PrettyPolyRaster.Rasterizer.DrawPolygon`, `HppRaster.HppRasterizer.DrawPolygon` and `SrcRaster.SrcRasterizer.DrawPolygon` require at least one contour, each with at least one whole point: all three read `contours[0]` and point 0 of each contour without a check (`pp_contour_bounds` in the C header).
- `pretty-poly.hpp`'s `draw_polygon(T *points, unsigned count)` builds a `contour_t` from a pointer and a count, a constructor `contour_t` does not have; `HppRaster.HppRasterizer.DrawContour` models its evident meaning, one contour drawn as a polygon.
- `point_on_cubic_bezier` (both examples) and `atof` (`examples/logo.c`) work on floats; they are parameters of the parsers (`bez`, `conv`).
- `examples/logo.cpp`: a path that ends in the middle of a pair gives an empty y token, on which `check_for_close_path` reads before the start of the view. The model reports it as `None`.
- `examples/logo.c`: the unsupported-command `assert`, a number that runs into the terminator, a token of 16 or more characters and a read past the terminator are undefined or abort in C. The model reports them as a fault (`ok` false, or `None`).
- `examples/logo.c`: contours are sequences of points rather than `malloc`ed arrays. Entries of the contour array that the loop never reaches are modelled as empty, where C leaves them uninitialised.
- `examples/logo.c`: `is_numeric` has no caller; it is modelled on its own.
- `examples/helpers.h`: the `union` overlay of four bytes on one `uint32_t` is modelled as a little-endian packing; other byte orders are left out.
- The `main` functions, `stbi_write_png`, `malloc`/`free` and the demo drivers and timers in the other example programs are I/O or host code and are left out.
- PrettyPolyRaster.Rasterizer.AddEdge uses the segment walker with the corrected jump (`PrettyPolyRaster.Rasterizer.AddLineSegmentToNodes`) in place of the `e / dy` jump of `pretty-poly.h:334-339`. So a segment that starts above the tile can give a row a node one x step to the left of the header's (the "## Findings" example). The walker as written is modelled and proved (`AddLineSegmentToNodesAsWritten`, `WalkIsEdgeNodesAsWritten`), but no drawing method calls it.
- PrettyPolyRaster.Rasterizer.BuildNodes is built on `AddEdge`, so it has the corrected jump.
- PrettyPolyRaster.Rasterizer.BuildContours is built on `BuildNodes`, so it has the corrected jump.
- PrettyPolyRaster.Rasterizer.RenderTile renders rows built with the corrected jump.
- PrettyPolyRaster.Rasterizer.DrawTile hands over `TileAt` of rows built with the corrected jump. For the contour (-5,1), (0,-1), (1,1) at aa = 0 the header hands over the tile (0,0,1,1), and the model hands over nothing.
- PrettyPolyRaster.Rasterizer.DrawCell draws the tiles of `DrawTile`, so it has the corrected jump.
- PrettyPolyRaster.Rasterizer.DrawBand draws the tiles of `DrawTile`, so it has the corrected jump.
- PrettyPolyRaster.Rasterizer.DrawBands draws the tiles of `DrawTile`, so it has the corrected jump.
- PrettyPolyRaster.Rasterizer.DrawPolygon logs `PolygonTiles`, the tiles of rows built with the corrected jump.
- PrettyPolyNodes.PolygonRow and the specification functions built on it (`ContourRow`, `PolygonRows`, `PrettyPolyRender.TileRows`, `TileAt`, `PolygonTiles`) use `EdgeNodes`, the corrected walker's nodes, not `EdgeNodesAsWritten`. The number of nodes per row, and so the length, parity and capacity lemmas, are the same for both (`PolygonRowLength`).
- SrcRaster.SrcRasterizer.DrawPolygon and `SrcGeometry.SrcPolygonTiles` use the box of every point (`SrcBounds.PolygonBounds`). `src/pretty-poly.hpp:215-222` skips point 0 of every contour after the first. With contours (0,0), (1,0), (0,1) and (20,5), (10,0), (10,10) at aa = 2, the source's bounds end at x = 10 and it visits two columns of cells, where the model visits three. The loop as written is `SrcBounds.BoundsLoopAsWritten`.
- LogoC.SvgReader.ParseSvgPath uses the bounded reader (`BoundedContours`), which stops when every allocated entry is filled. `examples/logo.c:253-269` goes on and writes past the allocation, which is undefined (`ContourOverrun`, the path `"M1 2z "`). The model returns `ok` with the allocated contours there instead of a fault.
- LogoCpp.PairOrCurve adds `token_to_int(...)` and `last` as unbounded integers. In C++ the `int` sums of the control points can overflow, which is undefined; the model does not wrap or fault.
- LogoCpp.EndPoint adds the point and `last` (`point += last`) as unbounded integers. In C++ the `int` sum can overflow, which is undefined; the model does not wrap or fault.

## Findings

| source | as written | input that shows it | evidently intended | confidence | as-written member | corrected member |
|---|---|---|---|---|---|---|
| pretty-poly.h:334-339 | a segment that starts above the tile jumps the error term and x by `einc * -sy / dy` whole steps, rounding the quotient down | the segment (0,-1)–(1,1), in tile sub-sample coordinates: the jump records x = 1 on row 0 | the jump lands where the row-by-row walk from `sy` would be at row 0, which records x = 0 there | not executed | PrettyPolyNodes.NodeXAsWrittenOvershoots | PrettyPolyRaster.WalkIsEdgeNodes |
| src/pretty-poly.hpp:215-222 | the bounds loop starts every contour at index 2, so point 0 of every contour after the first is never read | two contours where point 0 of the second lies right of every other point | the bounds are the box of every point of every contour | not executed | SrcBounds.AsWrittenMissesPoint | SrcBounds.BoundsReadIsBox |
| examples/logo.c:253-269 | one contour entry is allocated per `z`, but contours are parsed while the caret is before the terminator | the path `"M1 2z "`: one `z`, yet the trailing space is parsed as a second contour, written past the one-entry allocation | no more contours are stored than entries were allocated | not executed | LogoC.ContourOverrun | LogoC.BoundedAgrees |
