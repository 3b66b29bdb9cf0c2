/**
  The value-level part of `src/pretty-poly.hpp`, the earlier C++ rasteriser.

  It works in sub-sample coordinates throughout: the polygon bounds, the clip
  rect and every contour point are scaled by `1 << antialias`, tiles are
  `tile_size` (32) sub-samples square, and the tile buffer holds one byte per
  sub-sample, set to 1 where the even-odd fill covers it. Contours are
  vectors of interleaved x and y values, as in `HppGeometry`.
*/
module SrcGeometry {
  import opened ScanMath
  import opened Edges
  import opened Coverage
  import opened NodeRows
  import opened PrettyPolyGeometry
  import opened PrettyPolyNodes
  import opened PrettyPolyRender
  import opened HppGeometry

  /** `tile_size`: tiles are 32 by 32 sub-samples, and nodes are clamped to 32. */
  const TileSize := 32

  /** A rect in sub-sample units: every field shifted left by `aa`. */
  function ScaledRect(r: Rect, aa: Level): Rect
  {
    Rect(r.x * Scale(aa), r.y * Scale(aa), r.w * Scale(aa), r.h * Scale(aa))
  }

  // ----- the node rows of one cell -----

  /** A contour as `build_nodes` moves it: every point scaled to sub-samples
      (`<< antialias`), less the cell origin, which is already in sub-samples. */
  function CellSpace(q: seq<Point>, aa: Level, tb: Rect): seq<Point>
  {
    Shift(ScalePoints(q, aa), -tb.x, -tb.y)
  }

  /** The nodes one contour adds to row `y` of the cell `tb`. */
  function SrcContourRow(q: seq<Point>, aa: Level, tb: Rect, y: int): seq<int>
    requires |q| > 0
  {
    NodesOf(ContourEdges(CellSpace(q, aa, tb)), TileSize, y)
  }

  /** The nodes all contours add to row `y` of the cell `tb`, contour by contour. */
  function SrcPolygonRow(ps: seq<seq<Point>>, aa: Level, tb: Rect, y: int): (r: seq<int>)
    requires ContoursNonEmpty(ps)
    ensures forall i :: 0 <= i < |r| ==> 0 <= r[i] <= TileSize
  {
    if |ps| == 0 then []
    else
      assert ContoursNonEmpty(ps[..|ps| - 1]);
      SrcPolygonRow(ps[..|ps| - 1], aa, tb, y) + SrcContourRow(ps[|ps| - 1], aa, tb, y)
  }

  /** The 32 node rows of the cell `tb` before sorting. */
  function SrcRows(ps: seq<seq<Point>>, aa: Level, tb: Rect): (rows: seq<seq<int>>)
    requires ContoursNonEmpty(ps)
    ensures |rows| == RowCount
  {
    seq(RowCount, y requires 0 <= y < RowCount => SrcPolygonRow(ps, aa, tb, y))
  }

  /** One contour adds one node per edge crossing of the sub-sample scanline
      `y + tb.y`. */
  lemma SrcContourRowLength(q: seq<Point>, aa: Level, tb: Rect, y: int)
    requires |q| > 0
    ensures |SrcContourRow(q, aa, tb, y)| == Hits(ContourEdges(ScalePoints(q, aa)), y + tb.y)
  {
    var sq := ScalePoints(q, aa);
    var es := ContourEdges(CellSpace(q, aa, tb));
    NodesOfLength(es, TileSize, y);
    HitsShift(sq, -tb.x, -tb.y, y);
  }

  /** One contour adds an even number of nodes to every row. */
  lemma SrcContourRowEven(q: seq<Point>, aa: Level, tb: Rect, y: int)
    requires |q| > 0
    ensures |SrcContourRow(q, aa, tb, y)| % 2 == 0
  {
    ContourHitsEven(CellSpace(q, aa, tb), TileSize, y);
  }

  /** Row `y` of a cell holds one node per edge crossing of the sub-sample
      scanline `y + tb.y`. */
  lemma {:induction false} SrcPolygonRowLength(ps: seq<seq<Point>>, aa: Level, tb: Rect, y: int)
    requires ContoursNonEmpty(ps)
    ensures |SrcPolygonRow(ps, aa, tb, y)| == PolygonHits(ps, aa, y + tb.y)
  {
    if |ps| > 0 {
      var q, pre := ps[|ps| - 1], ps[..|ps| - 1];
      assert ContoursNonEmpty(pre);
      SrcPolygonRowLength(pre, aa, tb, y);
      SrcContourRowLength(q, aa, tb, y);
    }
  }

  /** Every row of a cell holds an even number of nodes, so it can be read
      in pairs. */
  lemma {:induction false} SrcPolygonRowEven(ps: seq<seq<Point>>, aa: Level, tb: Rect, y: int)
    requires ContoursNonEmpty(ps)
    ensures |SrcPolygonRow(ps, aa, tb, y)| % 2 == 0
  {
    if |ps| > 0 {
      var q, pre := ps[|ps| - 1], ps[..|ps| - 1];
      assert ContoursNonEmpty(pre);
      SrcPolygonRowEven(pre, aa, tb, y);
      SrcContourRowEven(q, aa, tb, y);
      var a, b := |SrcPolygonRow(pre, aa, tb, y)|, |SrcContourRow(q, aa, tb, y)|;
      assert |SrcPolygonRow(ps, aa, tb, y)| == a + b;
      EvenSum(a, b);
    }
  }

  /** The row after the first `k` contours is no longer than the full row. */
  lemma {:induction false} SrcPolygonRowPrefix(ps: seq<seq<Point>>, k: nat, aa: Level, tb: Rect, y: int)
    requires ContoursNonEmpty(ps) && k <= |ps|
    ensures ContoursNonEmpty(ps[..k])
    ensures |SrcPolygonRow(ps[..k], aa, tb, y)| <= |SrcPolygonRow(ps, aa, tb, y)|
    decreases |ps| - k
  {
    if k < |ps| {
      SrcPolygonRowPrefix(ps, k + 1, aa, tb, y);
      assert ps[..k + 1][..k] == ps[..k];
    } else {
      assert ps[..k] == ps;
    }
  }

  /** Contour `k` adds its nodes after those of contours `0 .. k - 1`, and
      when no scanline crosses more than 32 edges they all fit in the row. */
  lemma SrcContourRoom(ps: seq<seq<Point>>, k: nat, aa: Level, tb: Rect, y: int)
    requires ContoursNonEmpty(ps) && k < |ps| && NodeCapacity(ps, aa)
    ensures ContoursNonEmpty(ps[..k]) && ContoursNonEmpty(ps[..k + 1])
    ensures SrcPolygonRow(ps[..k + 1], aa, tb, y) == SrcPolygonRow(ps[..k], aa, tb, y) + SrcContourRow(ps[k], aa, tb, y)
    ensures |SrcPolygonRow(ps[..k], aa, tb, y)| + |SrcContourRow(ps[k], aa, tb, y)| <= Capacity
  {
    assert ps[..k + 1][..k] == ps[..k];
    SrcPolygonRowPrefix(ps, k + 1, aa, tb, y);
    SrcPolygonRowLength(ps, aa, tb, y);
    assert PolygonHits(ps, aa, y + tb.y) <= Capacity;
  }

  // ----- the sub-sample mask render_tile writes -----

  /** Whether one of the first `n` node pairs of `row` covers sub-sample `x`. */
  predicate PairsLit(row: seq<int>, n: nat, x: int)
    requires 2 * n <= |row|
  {
    n > 0 && (PairsLit(row, n - 1, x) || row[2 * n - 2] <= x < row[2 * n - 1])
  }

  /** The first `32 * h` bytes of `tile_buffer` after `render_tile` for a
      cell `h` rows high: byte `j`, of row `j / 32`, is 1 where a node pair of
      that row covers sub-sample `j % 32` and 0 elsewhere. */
  function SrcMask(rows: seq<seq<int>>, h: nat): (b: seq<int>)
    requires |rows| == RowCount && h <= RowCount
    ensures |b| == TileSize * h
  {
    seq(TileSize * h, j requires 0 <= j < TileSize * h =>
      if PairsLit(rows[j / TileSize], |rows[j / TileSize]| / 2, j % TileSize) then 1 else 0)
  }

  /** A pair covers a sub-sample exactly when, counted one sample per pixel,
      it gives that pixel coverage. */
  lemma {:induction false} PairsLitCover(row: seq<int>, n: nat, x: int)
    requires 2 * n <= |row|
    ensures PairsLit(row, n, x) <==> PairsCover(row, n, 0, x) > 0
  {
    if n > 0 {
      PairsLitCover(row, n - 1, x);
      SampleCover(row[2 * n - 2], row[2 * n - 1], x);
    }
  }

  /** At one sample per pixel a span covers pixel `x` once or not at all. */
  lemma SampleCover(sx: int, ex: int, x: int)
    ensures SpanCover(sx, ex, 0, x) == if sx <= x < ex then 1 else 0
  {
    assert Scale(0) == 1;
    assert x * Scale(0) == x;
  }

  /** Counted one sample per pixel, a pixel's coverage comes from its own row only. */
  lemma {:induction false} TileCoverFullRes(rows: seq<seq<int>>, stride: int, j: int)
    requires stride > 0 && 0 <= j
    ensures TileCover(rows, 0, stride, j) == if j / stride < |rows| then RowCover(rows[j / stride], 0, j % stride) else 0
  {
    if |rows| > 0 {
      var pre := rows[..|rows| - 1];
      TileCoverFullRes(pre, stride, j);
      if j / stride < |pre| {
        assert pre[j / stride] == rows[j / stride];
      }
    }
  }

  /** The mask of sorted rows is the coverage `pretty-poly.h`'s counting
      renderer gives the same rows at one sample per pixel: a sorted row's
      pairs never overlap, so that coverage is 0 or 1. */
  lemma SrcMaskIsCover(rows: seq<seq<int>>, h: nat, j: int)
    requires |rows| == RowCount && h <= RowCount && AllSorted(rows) && 0 <= j < TileSize * h
    ensures SrcMask(rows, h)[j] == TileCover(rows, 0, TileSize, j)
    ensures SrcMask(rows, h)[j] == 0 || SrcMask(rows, h)[j] == 1
  {
    var y, x := j / TileSize, j % TileSize;
    TileCoverFullRes(rows, TileSize, j);
    PairsLitCover(rows[y], |rows[y]| / 2, x);
    RowCoverBound(rows[y], 0, x);
  }

  // ----- the tiles draw_polygon produces -----

  /** The cell at `(cx, cy)` clipped by the clip rect in sub-samples, as
      `tile.bounds` is computed. */
  function SrcClippedCell(aa: Level, clip: Rect, cx: int, cy: int): (tb: Rect)
    ensures 0 <= tb.w <= TileSize && 0 <= tb.h <= TileSize
  {
    RectIntersection(Rect(cx, cy, TileSize, TileSize), ScaledRect(clip, aa))
  }

  /** What the callback receives for the cell at `(cx, cy)`: nothing when the
      clipped cell has no width or no height; otherwise the clipped cell, a
      stride of 32, and the mask of the cell's sorted node rows (its first
      `32 * h` bytes, the ones `render_tile` clears and writes). */
  function SrcCellTile(ps: seq<seq<Point>>, aa: Level, clip: Rect, cx: int, cy: int): seq<Tile>
    requires ContoursNonEmpty(ps)
  {
    var tb := SrcClippedCell(aa, clip, cx, cy);
    if RectEmpty(tb) then [] else [Tile(tb, TileSize, SrcMask(SortedRows(SrcRows(ps, aa, tb)), tb.h), 0)]
  }

  function SrcCellTiles(ps: seq<seq<Point>>, aa: Level, clip: Rect): (int, int) -> seq<Tile>
    requires ContoursNonEmpty(ps)
  {
    (cx: int, cy: int) => SrcCellTile(ps, aa, clip, cx, cy)
  }

  /** `cell` gives the tiles of every cell. */
  ghost predicate SrcCellsOf(cell: (int, int) -> seq<Tile>, ps: seq<seq<Point>>, aa: Level, clip: Rect)
    requires ContoursNonEmpty(ps)
  {
    forall cx, cy {:trigger SrcCellTile(ps, aa, clip, cx, cy)} :: cell(cx, cy) == SrcCellTile(ps, aa, clip, cx, cy)
  }

  lemma SrcCellTilesAreCells(ps: seq<seq<Point>>, aa: Level, clip: Rect)
    requires ContoursNonEmpty(ps)
    ensures SrcCellsOf(SrcCellTiles(ps, aa, clip), ps, aa, clip)
  {
  }

  /** Every tile `draw_polygon` hands the callback, in call order: the cells
      of the polygon bounds in sub-samples, 32 at a time, row by row. */
  function SrcPolygonTiles(cs: seq<seq<int>>, aa: Level, clip: Rect): seq<Tile>
    requires |cs| >= 1 && AllWellFormed(cs)
  {
    var ps := Contours(cs);
    var pb := ScaledRect(PolygonBox(ps), aa);
    BandsFrom(SrcCellTiles(ps, aa, clip), pb, TileSize, TileSize, pb.y)
  }

  /** A tile handed to the callback lies in the scaled clip and in its cell,
      every visible sub-sample's byte lies in the buffer, and every byte is
      the one-sample-per-pixel coverage of the cell's sorted node rows, 0 or 1. */
  lemma SrcCellTileGood(ps: seq<seq<Point>>, aa: Level, clip: Rect, cx: int, cy: int)
    requires ContoursNonEmpty(ps)
    ensures forall t :: t in SrcCellTile(ps, aa, clip, cx, cy) ==>
      && !RectEmpty(t.bounds) && t.offset == 0 && t.stride == TileSize
      && |t.buffer| == TileSize * t.bounds.h
      && Inside(t.bounds, ScaledRect(clip, aa)) && Inside(t.bounds, Rect(cx, cy, TileSize, TileSize))
      && (forall x, y :: 0 <= x < t.bounds.w && 0 <= y < t.bounds.h ==> 0 <= TileByte(t, x, y) < |t.buffer|)
      && (forall j :: 0 <= j < |t.buffer| ==>
            t.buffer[j] == TileCover(SortedRows(SrcRows(ps, aa, t.bounds)), 0, TileSize, j)
            && (t.buffer[j] == 0 || t.buffer[j] == 1))
  {
    var tb := SrcClippedCell(aa, clip, cx, cy);
    if !RectEmpty(tb) {
      var rows := SortedRows(SrcRows(ps, aa, tb));
      SortedRowsAt(SrcRows(ps, aa, tb));
      forall j | 0 <= j < TileSize * tb.h
        ensures SrcMask(rows, tb.h)[j] == TileCover(rows, 0, TileSize, j)
        ensures SrcMask(rows, tb.h)[j] == 0 || SrcMask(rows, tb.h)[j] == 1
      {
        SrcMaskIsCover(rows, tb.h, j);
      }
      var t := Tile(tb, TileSize, SrcMask(rows, tb.h), 0);
      forall x, y | 0 <= x < tb.w && 0 <= y < tb.h ensures 0 <= TileByte(t, x, y) < |t.buffer| {
        MulMono(y + 1, tb.h, TileSize);
      }
    }
  }
}
