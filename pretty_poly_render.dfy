/**
  What `render_nodes` and `draw_polygon` of `pretty-poly.h` produce, as
  functions of the polygon and the settings.

  `render_nodes` reports the bounds of what it drew: the left edge is the
  smallest `sx >> aa` of a non-degenerate span (starting from the tile's
  width), the right edge the largest `(ex - 1) >> aa` (starting from 0), the
  top the number of leading rows without a drawn span, and the bottom the last
  row with one (starting from -1); the two row numbers are then shifted down
  to pixel rows. `draw_polygon` walks the tile grid over the polygon bounds,
  band by band and left to right, and hands each tile whose trimmed bounds
  are non-empty to the callback.
*/
module PrettyPolyRender {
  import opened ScanMath
  import opened Edges
  import opened Coverage
  import opened NodeRows
  import opened PrettyPolyGeometry
  import opened PrettyPolyNodes

  /** A row with at least one non-degenerate span. */
  predicate Rendered(row: seq<int>)
  {
    PairsRendered(row, |row| / 2)
  }

  /** `bounds->x` after the first `n` pairs of a row, from `init`. */
  function PairsMinX(row: seq<int>, n: nat, aa: Level, init: int): int
    requires 2 * n <= |row|
  {
    if n == 0 then init
    else
      var m := PairsMinX(row, n - 1, aa, init);
      if row[2 * n - 2] != row[2 * n - 1] then Min(row[2 * n - 2] / Scale(aa), m) else m
  }

  /** `maxx` after the first `n` pairs of a row, from `init`. */
  function PairsMaxX(row: seq<int>, n: nat, aa: Level, init: int): int
    requires 2 * n <= |row|
  {
    if n == 0 then init
    else
      var m := PairsMaxX(row, n - 1, aa, init);
      if row[2 * n - 2] != row[2 * n - 1] then Max((row[2 * n - 1] - 1) / Scale(aa), m) else m
  }

  /** `bounds->x` after the rows `rows`, from the tile width `init`. */
  function RowsMinX(rows: seq<seq<int>>, aa: Level, init: int): int
  {
    if |rows| == 0 then init
    else
      var r := rows[|rows| - 1];
      PairsMinX(r, |r| / 2, aa, RowsMinX(rows[..|rows| - 1], aa, init))
  }

  /** `maxx` after the rows `rows`, from 0. */
  function RowsMaxX(rows: seq<seq<int>>, aa: Level): int
  {
    if |rows| == 0 then 0
    else
      var r := rows[|rows| - 1];
      PairsMaxX(r, |r| / 2, aa, RowsMaxX(rows[..|rows| - 1], aa))
  }

  /** `bounds->y` before the shift: the number of leading rows without a drawn span. */
  function LeadingEmpty(rows: seq<seq<int>>): (n: nat)
    ensures n <= |rows|
  {
    if |rows| == 0 then 0
    else
      var n := LeadingEmpty(rows[..|rows| - 1]);
      if n == |rows| - 1 && !Rendered(rows[|rows| - 1]) then |rows| else n
  }

  /** `maxy` before the shift: the last row with a drawn span, or -1. */
  function LastRendered(rows: seq<seq<int>>): (y: int)
    ensures -1 <= y < |rows|
  {
    if |rows| == 0 then -1
    else if Rendered(rows[|rows| - 1]) then |rows| - 1
    else LastRendered(rows[..|rows| - 1])
  }

  /** The bounds `render_nodes` reports, relative to the tile, in pixels. */
  function RenderBounds(rows: seq<seq<int>>, aa: Level, width: int): Rect
  {
    var minX, maxX := RowsMinX(rows, aa, width), RowsMaxX(rows, aa);
    var minY, maxY := LeadingEmpty(rows) / Scale(aa), LastRendered(rows) / Scale(aa);
    Rect(minX, minY, if maxX >= minX then maxX + 1 - minX else 0, if maxY >= minY then maxY + 1 - minY else 0)
  }

  // ----- the reported bounds enclose every pixel that received coverage -----

  lemma {:induction false} PairsMinXBelow(row: seq<int>, n: nat, aa: Level, init: int, k: nat)
    requires 2 * n <= |row| && k < n && row[2 * k] != row[2 * k + 1]
    ensures PairsMinX(row, n, aa, init) <= row[2 * k] / Scale(aa)
  {
    if k < n - 1 {
      PairsMinXBelow(row, n - 1, aa, init, k);
    }
  }

  lemma {:induction false} PairsMaxXAbove(row: seq<int>, n: nat, aa: Level, init: int, k: nat)
    requires 2 * n <= |row| && k < n && row[2 * k] != row[2 * k + 1]
    ensures PairsMaxX(row, n, aa, init) >= (row[2 * k + 1] - 1) / Scale(aa)
  {
    if k < n - 1 {
      PairsMaxXAbove(row, n - 1, aa, init, k);
    }
  }

  lemma {:induction false} PairsMinXInit(row: seq<int>, n: nat, aa: Level, init: int)
    requires 2 * n <= |row|
    ensures PairsMinX(row, n, aa, init) <= init
  {
    if n > 0 {
      PairsMinXInit(row, n - 1, aa, init);
    }
  }

  lemma {:induction false} PairsMaxXInit(row: seq<int>, n: nat, aa: Level, init: int)
    requires 2 * n <= |row|
    ensures PairsMaxX(row, n, aa, init) >= init
  {
    if n > 0 {
      PairsMaxXInit(row, n - 1, aa, init);
    }
  }

  lemma {:induction false} RowsMinXBelow(rows: seq<seq<int>>, aa: Level, init: int, y: nat, k: nat)
    requires y < |rows| && 2 * k + 1 < |rows[y]| && rows[y][2 * k] != rows[y][2 * k + 1]
    ensures RowsMinX(rows, aa, init) <= rows[y][2 * k] / Scale(aa)
  {
    var n := |rows|;
    var r := rows[n - 1];
    if y == n - 1 {
      PairsMinXBelow(r, |r| / 2, aa, RowsMinX(rows[..n - 1], aa, init), k);
    } else {
      assert rows[..n - 1][y] == rows[y];
      RowsMinXBelow(rows[..n - 1], aa, init, y, k);
      PairsMinXInit(r, |r| / 2, aa, RowsMinX(rows[..n - 1], aa, init));
    }
  }

  lemma {:induction false} RowsMaxXAbove(rows: seq<seq<int>>, aa: Level, y: nat, k: nat)
    requires y < |rows| && 2 * k + 1 < |rows[y]| && rows[y][2 * k] != rows[y][2 * k + 1]
    ensures RowsMaxX(rows, aa) >= (rows[y][2 * k + 1] - 1) / Scale(aa)
  {
    var n := |rows|;
    var r := rows[n - 1];
    if y == n - 1 {
      PairsMaxXAbove(r, |r| / 2, aa, RowsMaxX(rows[..n - 1], aa), k);
    } else {
      assert rows[..n - 1][y] == rows[y];
      RowsMaxXAbove(rows[..n - 1], aa, y, k);
      PairsMaxXInit(r, |r| / 2, aa, RowsMaxX(rows[..n - 1], aa));
    }
  }

  lemma {:induction false} RenderedRowBounds(rows: seq<seq<int>>, y: nat)
    requires y < |rows| && Rendered(rows[y])
    ensures LeadingEmpty(rows) <= y <= LastRendered(rows)
  {
    var n := |rows|;
    if y < n - 1 {
      assert rows[..n - 1][y] == rows[y];
      RenderedRowBounds(rows[..n - 1], y);
    }
  }

  /** Every pixel of the tile buffer that received coverage lies inside the
      bounds `render_nodes` reports. */
  lemma RenderBoundsEnclose(rows: seq<seq<int>>, aa: Level, width: int, stride: int, j: int)
    requires stride > 0 && TileCover(rows, aa, stride, j) > 0
    ensures PixelIn(RenderBounds(rows, aa, width), j % stride, j / stride)
  {
    var S := Scale(aa);
    var y := TileCoverWitness(rows, aa, stride, j);
    var row, px := rows[y], j % stride;
    var k := PairsCoverWitness(row, |row| / 2, aa, px);
    SpanCoverPositive(row[2 * k], row[2 * k + 1], aa, px);
    PairsRenderedWitness(row, |row| / 2, k);
    RowsMinXBelow(rows, aa, width, y, k);
    RowsMaxXAbove(rows, aa, y, k);
    RenderedRowBounds(rows, y);
    DivMono(LeadingEmpty(rows), y, S);
    DivMono(y, LastRendered(rows), S);
  }

  predicate RowsInRange(rows: seq<seq<int>>, fw: int)
  {
    forall y, i :: 0 <= y < |rows| && 0 <= i < |rows[y]| ==> 0 <= rows[y][i] <= fw
  }

  lemma {:induction false} PairsMinXNonNegative(row: seq<int>, n: nat, aa: Level, init: int)
    requires 2 * n <= |row| && init >= 0 && forall i :: 0 <= i < |row| ==> row[i] >= 0
    ensures PairsMinX(row, n, aa, init) >= 0
  {
    if n > 0 {
      PairsMinXNonNegative(row, n - 1, aa, init);
    }
  }

  lemma {:induction false} RowsMinXNonNegative(rows: seq<seq<int>>, aa: Level, init: int, fw: int)
    requires init >= 0 && RowsInRange(rows, fw)
    ensures RowsMinX(rows, aa, init) >= 0
  {
    var n := |rows|;
    if n > 0 {
      assert RowsInRange(rows[..n - 1], fw) by {
        forall y | 0 <= y < n - 1 ensures rows[..n - 1][y] == rows[y] { }
      }
      RowsMinXNonNegative(rows[..n - 1], aa, init, fw);
      var r := rows[n - 1];
      PairsMinXNonNegative(r, |r| / 2, aa, RowsMinX(rows[..n - 1], aa, init));
    }
  }

  /** The reported origin is never left of or above the tile. */
  lemma RenderBoundsOrigin(rows: seq<seq<int>>, aa: Level, width: int, fw: int)
    requires width >= 0 && RowsInRange(rows, fw)
    ensures RenderBounds(rows, aa, width).x >= 0 && RenderBounds(rows, aa, width).y >= 0
    ensures RenderBounds(rows, aa, width).w >= 0 && RenderBounds(rows, aa, width).h >= 0
  {
    RowsMinXNonNegative(rows, aa, width, fw);
  }

  // ----- one tile of draw_polygon -----

  /** Each row sorted ascending, as `render_nodes` leaves them. */
  function SortedRows(rows: seq<seq<int>>): (r: seq<seq<int>>)
    ensures |r| == |rows|
  {
    seq(|rows|, y requires 0 <= y < |rows| => SortSeq(rows[y]))
  }

  /** Row `y` of the sorted rows is row `y` sorted, so every row is sorted. */
  lemma SortedRowsAt(rows: seq<seq<int>>)
    ensures AllSorted(SortedRows(rows))
    ensures forall y :: 0 <= y < |rows| ==> SortedRows(rows)[y] == SortSeq(rows[y])
  {
    forall y | 0 <= y < |rows| ensures Sorted(SortedRows(rows)[y]) {
      SortSeqSpec(rows[y]);
    }
  }

  /** The tile cell at `(cx, cy)` clipped, as `draw_polygon` computes `tile.bounds`. */
  function ClippedCell(aa: Level, clip: Rect, cx: int, cy: int): Rect
  {
    RectIntersection(Rect(cx, cy, TileBoundsFor(aa).w, TileBoundsFor(aa).h), clip)
  }

  /** The sorted node rows of the clipped tile `tb`. */
  function TileRows(ps: seq<seq<Point>>, aa: Level, tb: Rect): (rows: seq<seq<int>>)
    requires ContoursNonEmpty(ps)
    ensures |rows| == RowCount
  {
    SortedRows(PolygonRows(ps, aa, tb.x, tb.y, TileBoundsFor(aa).w * Scale(aa)))
  }

  /** The tile buffer after rendering: byte `j` holds the coverage of its
      pixel; the padding byte after the buffer stays 0. */
  function CoverBuffer(rows: seq<seq<int>>, aa: Level, stride: int): (b: seq<int>)
    requires stride > 0
    ensures |b| == TileBufferSize + 1
  {
    seq(TileBufferSize + 1, j => TileCover(rows, aa, stride, j))
  }

  /** The tile built from the rendered rows of the clipped cell `tb`: the
      rendered bounds moved to the cell and clipped to it, or nothing when
      that is empty. */
  function TileFromRows(rows: seq<seq<int>>, aa: Level, tb: Rect): Option<Tile>
  {
    var stride := TileBoundsFor(aa).w;
    var rb := RenderBounds(rows, aa, tb.w);
    var b := RectIntersection(Rect(rb.x + tb.x, rb.y + tb.y, rb.w, rb.h), tb);
    if RectEmpty(b) then None
    else Some(Tile(b, stride, CoverBuffer(rows, aa, stride), rb.x + stride * rb.y))
  }

  /** The tile `draw_polygon` hands to the callback for the cell at `(cx, cy)`,
      if any: skipped when the clipped cell is empty, and when the rendered
      bounds, moved to the cell and clipped to it, are empty. */
  function TileAt(ps: seq<seq<Point>>, aa: Level, clip: Rect, cx: int, cy: int): Option<Tile>
    requires ContoursNonEmpty(ps)
  {
    var tb := ClippedCell(aa, clip, cx, cy);
    if RectEmpty(tb) then None else TileFromRows(TileRows(ps, aa, tb), aa, tb)
  }

  function TileSeq(t: Option<Tile>): seq<Tile>
  {
    if t.Some? then [t.value] else []
  }

  /** The tiles `draw_polygon` hands the callback for each cell: none or one. */
  function CellTiles(ps: seq<seq<Point>>, aa: Level, clip: Rect): (int, int) -> seq<Tile>
    requires ContoursNonEmpty(ps)
  {
    (cx: int, cy: int) => TileSeq(TileAt(ps, aa, clip, cx, cy))
  }

  /** `cell` gives the tiles of every cell of the polygon `ps`. The trigger
      keeps the cell's meaning out of reasoning about the traversal order. */
  ghost predicate CellsOf(cell: (int, int) -> seq<Tile>, ps: seq<seq<Point>>, aa: Level, clip: Rect)
    requires ContoursNonEmpty(ps)
  {
    forall cx, cy {:trigger TileAt(ps, aa, clip, cx, cy)} :: cell(cx, cy) == TileSeq(TileAt(ps, aa, clip, cx, cy))
  }

  lemma CellTilesAreCells(ps: seq<seq<Point>>, aa: Level, clip: Rect)
    requires ContoursNonEmpty(ps)
    ensures CellsOf(CellTiles(ps, aa, clip), ps, aa, clip)
  {
  }

  /** The tiles of the cells of the band at `y` that are `w` wide, from
      column `x` to the right edge of `pb`. */
  function ColumnsFrom(cell: (int, int) -> seq<Tile>, pb: Rect, w: int, y: int, x: int): seq<Tile>
    requires w > 0
    decreases pb.x + pb.w - x
  {
    if x >= pb.x + pb.w then []
    else cell(x, y) + ColumnsFrom(cell, pb, w, y, x + w)
  }

  /** The tiles of the bands of `w` by `h` cells, from row `y` to the
      bottom edge of `pb`. */
  function BandsFrom(cell: (int, int) -> seq<Tile>, pb: Rect, w: int, h: int, y: int): seq<Tile>
    requires w > 0 && h > 0
    decreases pb.y + pb.h - y
  {
    if y >= pb.y + pb.h then []
    else ColumnsFrom(cell, pb, w, y, pb.x) + BandsFrom(cell, pb, w, h, y + h)
  }

  /** Every tile `draw_polygon` passes to the callback, in call order: the
      cells of the polygon bounds, row by row, left to right. */
  function PolygonTiles(ps: seq<seq<Point>>, aa: Level, clip: Rect): seq<Tile>
    requires ContoursNonEmpty(ps)
  {
    if |ps| == 0 then []
    else
      var cell := TileBoundsFor(aa);
      BandsFrom(CellTiles(ps, aa, clip), PolygonBox(ps), cell.w, cell.h, PolygonBox(ps).y)
  }

  // ----- what every callback receives -----

  /** A tile handed to the callback: non-empty bounds inside the clip, inside
      its clipped cell, whose bytes all lie in the buffer, with no byte above
      `1 << (2 * aa)` so that `pp_tile_get_value` stays within 0..255. */
  ghost predicate GoodTile(t: Tile, aa: Level, clip: Rect)
  {
    t.bounds.w > 0 && t.bounds.h > 0
    && Inside(t.bounds, clip)
    && t.stride == TileBoundsFor(aa).w
    && |t.buffer| == TileBufferSize + 1
    && (forall j :: 0 <= j < |t.buffer| ==> 0 <= t.buffer[j] <= Scale(aa) * Scale(aa))
    && (forall x, y :: 0 <= x < t.bounds.w && 0 <= y < t.bounds.h ==> 0 <= TileByte(t, x, y) < TileBufferSize)
  }

  lemma MulAdd(a: int, b: int, c: int)
    ensures (a + b) * c == a * c + c * b
  {
  }

  /** Byte `(x, y)` of a window at `(ox, oy)` that fits a `stride` by `h` buffer lies in it. */
  lemma ByteInBuffer(ox: int, oy: int, x: int, y: int, stride: int, h: int)
    requires 0 <= ox && 0 <= x && ox + x < stride && 0 <= oy && 0 <= y && oy + y < h
    requires stride * h == TileBufferSize
    ensures 0 <= ox + stride * oy + x + y * stride < TileBufferSize
  {
    MulAdd(y, oy, stride);
    MulMono(oy + y, h - 1, stride);
    MulAdd(h - 1, 1, stride);
  }

  /** Pixel row and column of byte `j` in a buffer of the given stride. */
  lemma PixelIndex(px: int, py: int, stride: int)
    requires stride > 0 && 0 <= px < stride
    ensures (py * stride + px) / stride == py && (py * stride + px) % stride == px
  {
    DivModUnique(py, stride, px);
  }

  lemma CoverBufferBound(rows: seq<seq<int>>, aa: Level, stride: int)
    requires stride > 0 && AllSorted(rows)
    ensures forall j :: 0 <= j < TileBufferSize + 1 ==> 0 <= CoverBuffer(rows, aa, stride)[j] <= Scale(aa) * Scale(aa)
  {
    forall j | 0 <= j < TileBufferSize + 1
      ensures CoverBuffer(rows, aa, stride)[j] <= Scale(aa) * Scale(aa)
    {
      TileCoverBound(rows, aa, stride, j);
    }
  }

  /** The nodes of every row of a tile lie between 0 and the tile's width in sub-samples. */
  lemma TileRowsInRange(ps: seq<seq<Point>>, aa: Level, tb: Rect)
    requires ContoursNonEmpty(ps)
    ensures RowsInRange(TileRows(ps, aa, tb), TileBoundsFor(aa).w * Scale(aa))
  {
    var fw := TileBoundsFor(aa).w * Scale(aa);
    var rows := TileRows(ps, aa, tb);
    forall y, i | 0 <= y < |rows| && 0 <= i < |rows[y]| ensures 0 <= rows[y][i] <= fw {
      SortSeqBounds(PolygonRows(ps, aa, tb.x, tb.y, fw)[y], 0, fw);
    }
  }

  /** The tile built from sorted rows of in-range nodes is a `GoodTile`
      inside the clipped cell `tb`. */
  lemma TileFromRowsGood(rows: seq<seq<int>>, aa: Level, tb: Rect, clip: Rect)
    requires AllSorted(rows) && RowsInRange(rows, TileBoundsFor(aa).w * Scale(aa))
    requires Inside(tb, clip) && 0 <= tb.w <= TileBoundsFor(aa).w && 0 <= tb.h <= TileBoundsFor(aa).h
    ensures TileFromRows(rows, aa, tb).Some? ==>
      GoodTile(TileFromRows(rows, aa, tb).value, aa, clip) && Inside(TileFromRows(rows, aa, tb).value.bounds, tb)
  {
    var tbs := TileBoundsFor(aa);
    var stride := tbs.w;
    var rb := RenderBounds(rows, aa, tb.w);
    RenderBoundsOrigin(rows, aa, tb.w, stride * Scale(aa));
    var b := RectIntersection(Rect(rb.x + tb.x, rb.y + tb.y, rb.w, rb.h), tb);
    if !RectEmpty(b) {
      CoverBufferBound(rows, aa, stride);
      var t := Tile(b, stride, CoverBuffer(rows, aa, stride), rb.x + stride * rb.y);
      assert TileFromRows(rows, aa, tb) == Some(t);
      assert b.x == rb.x + tb.x && b.y == rb.y + tb.y;
      assert Inside(b, tb);
      assert 0 <= rb.x && rb.x + b.w <= stride && 0 <= rb.y && rb.y + b.h <= tbs.h;
      forall x, y | 0 <= x < b.w && 0 <= y < b.h
        ensures 0 <= TileByte(t, x, y) < TileBufferSize
      {
        ByteInBuffer(rb.x, rb.y, x, y, stride, tbs.h);
      }
    }
  }

  /** Every tile that reaches the callback is a `GoodTile` inside its clipped cell. */
  lemma TileAtGood(ps: seq<seq<Point>>, aa: Level, clip: Rect, cx: int, cy: int)
    requires ContoursNonEmpty(ps)
    ensures TileAt(ps, aa, clip, cx, cy).Some? ==>
      GoodTile(TileAt(ps, aa, clip, cx, cy).value, aa, clip)
      && Inside(TileAt(ps, aa, clip, cx, cy).value.bounds, ClippedCell(aa, clip, cx, cy))
  {
    var tb := ClippedCell(aa, clip, cx, cy);
    if !RectEmpty(tb) {
      TileRowsInRange(ps, aa, tb);
      SortedRowsAt(PolygonRows(ps, aa, tb.x, tb.y, TileBoundsFor(aa).w * Scale(aa)));
      TileFromRowsGood(TileRows(ps, aa, tb), aa, tb, clip);
    }
  }

  /** A pixel of the clipped cell `tb`, as an index into the tile buffer. */
  function PixelByte(tb: Rect, stride: int, px: int, py: int): int
  {
    (py - tb.y) * stride + (px - tb.x)
  }

  /** The byte of a pixel of the cell `tb` names the pixel's column and row in the cell. */
  lemma PixelByteIndex(tb: Rect, stride: int, px: int, py: int)
    requires stride > 0 && 0 <= px - tb.x < stride
    ensures PixelByte(tb, stride, px, py) / stride == py - tb.y
    ensures PixelByte(tb, stride, px, py) % stride == px - tb.x
  {
    PixelIndex(px - tb.x, py - tb.y, stride);
  }

  /** Trimming loses no coverage: a pixel of `tb` whose byte is non-zero lies
      in the bounds of the tile built from the rows, and the tile's data
      pointer reaches exactly that byte. */
  lemma TileFromRowsCovers(rows: seq<seq<int>>, aa: Level, tb: Rect, px: int, py: int)
    requires PixelIn(tb, px, py) && tb.w <= TileBoundsFor(aa).w
    requires RowsInRange(rows, TileBoundsFor(aa).w * Scale(aa))
    requires TileCover(rows, aa, TileBoundsFor(aa).w, PixelByte(tb, TileBoundsFor(aa).w, px, py)) > 0
    ensures TileFromRows(rows, aa, tb).Some?
    ensures PixelIn(TileFromRows(rows, aa, tb).value.bounds, px, py)
    ensures var t := TileFromRows(rows, aa, tb).value;
      TileByte(t, px - t.bounds.x, py - t.bounds.y) == PixelByte(tb, t.stride, px, py)
  {
    var stride := TileBoundsFor(aa).w;
    var rb := RenderBounds(rows, aa, tb.w);
    PixelByteIndex(tb, stride, px, py);
    RenderBoundsEnclose(rows, aa, tb.w, stride, PixelByte(tb, stride, px, py));
    RenderBoundsOrigin(rows, aa, tb.w, stride * Scale(aa));
    TrimmedTile(rb, tb, stride, CoverBuffer(rows, aa, stride), px, py);
  }

  /** A pixel of the cell `tb` that lies in the rendered bounds `rb` (taken
      relative to the cell) lies in the bounds moved to the cell and clipped
      to it, and the data pointer moved to the rendered origin reaches the
      pixel's byte of the cell. */
  lemma TrimmedTile(rb: Rect, tb: Rect, stride: int, data: seq<int>, px: int, py: int)
    requires rb.x >= 0 && rb.y >= 0 && PixelIn(tb, px, py) && PixelIn(rb, px - tb.x, py - tb.y)
    ensures var b := RectIntersection(Rect(rb.x + tb.x, rb.y + tb.y, rb.w, rb.h), tb);
      var t := Tile(b, stride, data, rb.x + stride * rb.y);
      !RectEmpty(b) && PixelIn(b, px, py) && TileByte(t, px - b.x, py - b.y) == PixelByte(tb, stride, px, py)
  {
    var cell := Rect(rb.x + tb.x, rb.y + tb.y, rb.w, rb.h);
    RectIntersectionPixels(cell, tb, px, py);
    MulAdd(py - rb.y - tb.y, rb.y, stride);
  }

  /** No coverage is lost by trimming a tile to its rendered bounds: a pixel
      of the clipped cell whose byte is non-zero lies in the bounds of the
      tile handed to the callback, and the tile's data pointer reaches
      exactly that byte. */
  lemma TileAtCovers(ps: seq<seq<Point>>, aa: Level, clip: Rect, cx: int, cy: int, px: int, py: int)
    requires ContoursNonEmpty(ps)
    requires PixelIn(ClippedCell(aa, clip, cx, cy), px, py)
    requires var tb := ClippedCell(aa, clip, cx, cy);
      TileCover(TileRows(ps, aa, tb), aa, TileBoundsFor(aa).w, PixelByte(tb, TileBoundsFor(aa).w, px, py)) > 0
    ensures TileAt(ps, aa, clip, cx, cy).Some?
    ensures PixelIn(TileAt(ps, aa, clip, cx, cy).value.bounds, px, py)
    ensures var t := TileAt(ps, aa, clip, cx, cy).value;
      TileByte(t, px - t.bounds.x, py - t.bounds.y) == PixelByte(ClippedCell(aa, clip, cx, cy), t.stride, px, py)
  {
    var tb := ClippedCell(aa, clip, cx, cy);
    var rows := TileRows(ps, aa, tb);
    assert TileAt(ps, aa, clip, cx, cy) == TileFromRows(rows, aa, tb);
    TileRowsInRange(ps, aa, tb);
    TileFromRowsCovers(rows, aa, tb, px, py);
  }
}
