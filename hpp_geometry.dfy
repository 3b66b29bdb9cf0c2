/**
  The value-level part of the C++ header `pretty-poly.hpp`: `rect_t::empty`,
  contours whose points are one vector of interleaved x and y values, the
  polygon bounds `draw_polygon` computes, and the tiles it hands to the
  callback.

  `rect_t::intersection` and `rect_t::merge` compute what `RectIntersection`
  and `RectMerge` compute; `empty()` differs from `pp_rect_empty`: it asks for
  a zero width AND a zero height.
*/
module HppGeometry {
  import opened ScanMath
  import opened Coverage
  import opened NodeRows
  import opened PrettyPolyGeometry
  import opened PrettyPolyNodes
  import opened PrettyPolyRender

  /** `rect_t::empty`: zero width and zero height. */
  predicate HppEmpty(r: Rect)
  {
    r.w == 0 && r.h == 0
  }

  /** An empty rect holds no pixel, but a rect may hold no pixel without
      being empty: `Rect(0, 0, 0, 32)`, a zero-width column. */
  lemma HppEmptyNoPixel(r: Rect)
    ensures HppEmpty(r) ==> RectEmpty(r) && forall px, py :: !PixelIn(r, px, py)
    ensures var c := Rect(0, 0, 0, 32); !HppEmpty(c) && RectEmpty(c) && forall px, py :: !PixelIn(c, px, py)
  {
  }

  // ----- contours -----

  /** A `contour_t` vector `bounds()` and `build_nodes` can read: at least one
      point, and whole points only. */
  predicate WellFormed(c: seq<int>)
  {
    |c| >= 2 && |c| % 2 == 0
  }

  /** The points of an interleaved vector: point `i` is `(c[2i], c[2i + 1])`. */
  function PointsOf(c: seq<int>): (q: seq<Point>)
    requires |c| % 2 == 0
    ensures |q| == |c| / 2
    ensures forall i :: 0 <= i < |q| ==> q[i] == Point(c[2 * i], c[2 * i + 1])
  {
    seq(|c| / 2, i requires 0 <= i < |c| / 2 => Point(c[2 * i], c[2 * i + 1]))
  }

  /** Point `k` of a flat contour, read at index `i = 2 * k`. */
  lemma PointAt(c: seq<int>, k: nat, i: nat)
    requires |c| % 2 == 0 && k < |c| / 2 && i == 2 * k
    ensures PointsOf(c)[k] == Point(c[i], c[i + 1])
  {
  }

  predicate AllWellFormed(cs: seq<seq<int>>)
  {
    forall k :: 0 <= k < |cs| ==> WellFormed(cs[k])
  }

  /** The contours as point sequences. */
  function Contours(cs: seq<seq<int>>): (ps: seq<seq<Point>>)
    requires AllWellFormed(cs)
    ensures |ps| == |cs| && ContoursNonEmpty(ps)
    ensures forall k :: 0 <= k < |cs| ==> ps[k] == PointsOf(cs[k])
  {
    seq(|cs|, k requires 0 <= k < |cs| => PointsOf(cs[k]))
  }

  /** `contour_t::bounds`: the min/max accumulator loop over the interleaved
      vector, from its first point; the box of the contour's points. */
  method ContourBounds(c: seq<int>) returns (r: Rect)
    requires WellFormed(c)
    ensures r == BoxOf(PointsOf(c))
  {
    ghost var q := PointsOf(c);
    var minx, maxx := c[0], c[0];
    var miny, maxy := c[1], c[1];
    var i := 2;
    while i < |c|
      invariant 2 <= i <= |c| && i % 2 == 0
      invariant Rect(minx, miny, maxx - minx, maxy - miny) == BoxOf(q[..i / 2])
    {
      assert q[..i / 2 + 1][..i / 2] == q[..i / 2];
      var cx := c[i];
      var cy := c[i + 1];
      minx := Min(minx, cx);
      miny := Min(miny, cy);
      maxx := Max(maxx, cx);
      maxy := Max(maxy, cy);
      i := i + 2;
    }
    assert q[..|q|] == q;
    r := Rect(minx, miny, maxx - minx, maxy - miny);
  }

  /** Merging a rect of non-negative size with itself changes nothing. */
  lemma MergeSelf(a: Rect)
    requires a.w >= 0 && a.h >= 0
    ensures RectMerge(a, a) == a
  {
  }

  /** `draw_polygon`'s bounds: start from contour 0's bounds, then merge in
      every contour's, contour 0 included again. Since merging a box with
      itself changes nothing, the result is the polygon's bounding box. */
  method PolygonBounds(cs: seq<seq<int>>) returns (r: Rect)
    requires |cs| >= 1 && AllWellFormed(cs)
    ensures r == PolygonBox(Contours(cs))
  {
    ghost var ps := Contours(cs);
    r := ContourBounds(cs[0]);
    var k := 0;
    while k < |cs|
      invariant 0 <= k <= |cs|
      invariant r == MergedBoxes(ps, if k == 0 then 1 else k)
    {
      var b := ContourBounds(cs[k]);
      if k == 0 {
        MergeSelf(b);
      }
      r := RectMerge(r, b);
      k := k + 1;
    }
  }

  // ----- the tiles draw_polygon produces -----

  /** `tile_buffer` after `render_nodes`: 1024 bytes, byte `j` holding the
      coverage of its pixel. */
  function HppBuffer(rows: seq<seq<int>>, aa: Level, stride: int): (b: seq<int>)
    requires stride > 0
    ensures |b| == TileBufferSize
  {
    seq(TileBufferSize, j => TileCover(rows, aa, stride, j))
  }

  /** The cell at `(cx, cy)` clipped, as `tile.bounds` is computed. */
  function HppClippedCell(aa: Level, clip: Rect, cx: int, cy: int): Rect
  {
    RectIntersection(Rect(cx, cy, TileBoundsFor(aa).w, TileBoundsFor(aa).h), clip)
  }

  /** What the callback receives for the cell at `(cx, cy)`: nothing when the
      clipped cell is empty by `rect_t::empty`; otherwise the clipped cell,
      the tile width as stride, and the buffer holding the coverage of the
      sorted node rows of that clipped cell, read from its start. */
  function HppCellTile(ps: seq<seq<Point>>, aa: Level, clip: Rect, cx: int, cy: int): seq<Tile>
    requires ContoursNonEmpty(ps)
  {
    var tb := HppClippedCell(aa, clip, cx, cy);
    var stride := TileBoundsFor(aa).w;
    if HppEmpty(tb) then [] else [Tile(tb, stride, HppBuffer(TileRows(ps, aa, tb), aa, stride), 0)]
  }

  function HppCellTiles(ps: seq<seq<Point>>, aa: Level, clip: Rect): (int, int) -> seq<Tile>
    requires ContoursNonEmpty(ps)
  {
    (cx: int, cy: int) => HppCellTile(ps, aa, clip, cx, cy)
  }

  /** `cell` gives the tiles of every cell. */
  ghost predicate HppCellsOf(cell: (int, int) -> seq<Tile>, ps: seq<seq<Point>>, aa: Level, clip: Rect)
    requires ContoursNonEmpty(ps)
  {
    forall cx, cy {:trigger HppCellTile(ps, aa, clip, cx, cy)} :: cell(cx, cy) == HppCellTile(ps, aa, clip, cx, cy)
  }

  lemma HppCellTilesAreCells(ps: seq<seq<Point>>, aa: Level, clip: Rect)
    requires ContoursNonEmpty(ps)
    ensures HppCellsOf(HppCellTiles(ps, aa, clip), ps, aa, clip)
  {
  }

  /** Every tile `draw_polygon` hands the callback, in call order: the cells
      of the polygon bounds row by row, each left to right. */
  function HppPolygonTiles(cs: seq<seq<int>>, aa: Level, clip: Rect): seq<Tile>
    requires |cs| >= 1 && AllWellFormed(cs)
  {
    var ps := Contours(cs);
    var pb := PolygonBox(ps);
    BandsFrom(HppCellTiles(ps, aa, clip), pb, TileBoundsFor(aa).w, TileBoundsFor(aa).h, pb.y)
  }

  /** A tile handed to the callback lies in the clip and in its cell, holds
      1024 bytes of which the visible pixels all lie in range, and no byte
      exceeds `S * S` (16 at most), so the 8-bit `++` of `render_nodes`
      never wraps. */
  lemma HppCellTileGood(ps: seq<seq<Point>>, aa: Level, clip: Rect, cx: int, cy: int)
    requires ContoursNonEmpty(ps)
    ensures forall t :: t in HppCellTile(ps, aa, clip, cx, cy) ==>
      && !HppEmpty(t.bounds) && t.offset == 0 && t.stride == TileBoundsFor(aa).w
      && |t.buffer| == TileBufferSize
      && 0 <= t.bounds.w <= TileBoundsFor(aa).w && 0 <= t.bounds.h <= TileBoundsFor(aa).h
      && (!RectEmpty(t.bounds) ==> Inside(t.bounds, clip) && Inside(t.bounds, Rect(cx, cy, TileBoundsFor(aa).w, TileBoundsFor(aa).h)))
      && (forall x, y :: 0 <= x < t.bounds.w && 0 <= y < t.bounds.h ==> 0 <= TileByte(t, x, y) < |t.buffer|)
      && (forall j :: 0 <= j < |t.buffer| ==> 0 <= t.buffer[j] <= Scale(aa) * Scale(aa) <= 16)
  {
    var tb := HppClippedCell(aa, clip, cx, cy);
    var cell := TileBoundsFor(aa);
    if !HppEmpty(tb) {
      var rows := TileRows(ps, aa, tb);
      var t := Tile(tb, cell.w, HppBuffer(rows, aa, cell.w), 0);
      SortedRowsAt(PolygonRows(ps, aa, tb.x, tb.y, cell.w * Scale(aa)));
      forall j | 0 <= j < |t.buffer| ensures t.buffer[j] <= Scale(aa) * Scale(aa) {
        TileCoverBound(rows, aa, cell.w, j);
      }
      forall x, y | 0 <= x < tb.w && 0 <= y < tb.h ensures 0 <= TileByte(t, x, y) < |t.buffer| {
        ByteInBuffer(0, 0, x, y, cell.w, cell.h);
      }
    }
  }

  /** A polygon drawn under a clip rect of zero width: its one cell clips to
      the zero-width column `Rect(0, 0, 0, 32)`, which `rect_t::empty` does
      not skip, so the callback receives a tile with no pixels, where
      `pretty-poly.h` hands over none. */
  lemma HppZeroWidthClip()
    ensures var cs := [[0, 0, 10, 0, 10, 10]];
      var clip := Rect(0, 0, 0, 240);
      AllWellFormed(cs)
      && |HppPolygonTiles(cs, 0, clip)| == 1
      && HppPolygonTiles(cs, 0, clip)[0].bounds == Rect(0, 0, 0, 32)
      && PolygonTiles(Contours(cs), 0, clip) == []
  {
    var cs := [[0, 0, 10, 0, 10, 10]];
    var clip := Rect(0, 0, 0, 240);
    var ps := Contours(cs);
    var q := ps[0];
    assert q == PointsOf(cs[0]) && |q| == 3;
    assert q[0] == Point(0, 0) && q[1] == Point(10, 0) && q[2] == Point(10, 10);
    assert q[..2][..1] == [Point(0, 0)];
    assert BoxOf(q[..1]) == Rect(0, 0, 0, 0);
    assert BoxOf(q[..2]) == Rect(0, 0, 10, 0);
    assert BoxOf(q) == Rect(0, 0, 10, 10);
    var pb := PolygonBox(ps);
    assert pb == Rect(0, 0, 10, 10);
    var cell := TileBoundsFor(0);
    assert cell == Rect(0, 0, 32, 32);
    var f := HppCellTiles(ps, 0, clip);
    assert HppClippedCell(0, clip, 0, 0) == Rect(0, 0, 0, 32);
    assert ColumnsFrom(f, pb, 32, 0, 32) == [];
    assert ColumnsFrom(f, pb, 32, 0, 0) == f(0, 0);
    assert BandsFrom(f, pb, 32, 32, 32) == [];
    assert BandsFrom(f, pb, 32, 32, 0) == f(0, 0) + [];
    var g := CellTiles(ps, 0, clip);
    assert ClippedCell(0, clip, 0, 0) == Rect(0, 0, 0, 32);
    assert ColumnsFrom(g, pb, 32, 0, 32) == [];
    assert ColumnsFrom(g, pb, 32, 0, 0) == g(0, 0) == [];
    assert BandsFrom(g, pb, 32, 32, 32) == [];
  }
}
