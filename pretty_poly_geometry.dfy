/**
  The value-level part of `pretty-poly.h`: `pp_rect_t` and its algebra,
  contour and polygon bounds, the tile geometry `pp_antialias` selects, and
  `pp_tile_get_value`. Coordinates (`PP_COORD_TYPE`) are integers.
*/
module PrettyPolyGeometry {
  import opened ScanMath

  /** `pp_rect_t`: origin and size. */
  datatype Rect = Rect(x: int, y: int, w: int, h: int)

  /** Pixel `(px, py)` lies in the half-open area of `r`. */
  predicate PixelIn(r: Rect, px: int, py: int)
  {
    r.x <= px < r.x + r.w && r.y <= py < r.y + r.h
  }

  /** `p` lies in the closed box of `r` (bounds put the extreme points on the edges). */
  predicate Contains(r: Rect, p: Point)
  {
    r.x <= p.x <= r.x + r.w && r.y <= p.y <= r.y + r.h
  }

  /** `a` lies inside `b`. */
  predicate Inside(a: Rect, b: Rect)
  {
    b.x <= a.x && a.x + a.w <= b.x + b.w && b.y <= a.y && a.y + a.h <= b.y + b.h
  }

  /** `pp_rect_empty`: a zero width or a zero height. */
  predicate RectEmpty(r: Rect)
  {
    r.w == 0 || r.h == 0
  }

  /** For a rect of non-negative size, empty means it holds no pixel. */
  lemma RectEmptyNoPixel(r: Rect)
    requires r.w >= 0 && r.h >= 0
    ensures RectEmpty(r) <==> !PixelIn(r, r.x, r.y)
    ensures RectEmpty(r) ==> forall px, py :: !PixelIn(r, px, py)
  {
  }

  /** `pp_rect_intersection`. */
  function RectIntersection(a: Rect, b: Rect): (r: Rect)
    ensures r.w >= 0 && r.h >= 0
    ensures r.x == Max(a.x, b.x) && r.y == Max(a.y, b.y)
    ensures !RectEmpty(r) ==> Inside(r, a) && Inside(r, b)
  {
    Rect(Max(a.x, b.x), Max(a.y, b.y),
         Max(0, Min(a.x + a.w, b.x + b.w) - Max(a.x, b.x)),
         Max(0, Min(a.y + a.h, b.y + b.h) - Max(a.y, b.y)))
  }

  /** The intersection holds exactly the pixels common to both operands. */
  lemma RectIntersectionPixels(a: Rect, b: Rect, px: int, py: int)
    ensures PixelIn(RectIntersection(a, b), px, py) <==> PixelIn(a, px, py) && PixelIn(b, px, py)
  {
  }

  /** `pp_rect_merge`. */
  function RectMerge(a: Rect, b: Rect): (r: Rect)
    ensures a.w >= 0 && a.h >= 0 && b.w >= 0 && b.h >= 0 ==>
              Inside(a, r) && Inside(b, r) && r.w >= 0 && r.h >= 0
  {
    Rect(Min(a.x, b.x), Min(a.y, b.y),
         Max(a.x + a.w, b.x + b.w) - Min(a.x, b.x),
         Max(a.y + a.h, b.y + b.h) - Min(a.y, b.y))
  }

  /** The merge is the smallest rect holding both operands. */
  lemma RectMergeLeast(a: Rect, b: Rect, c: Rect)
    requires Inside(a, c) && Inside(b, c)
    ensures Inside(RectMerge(a, b), c)
  {
  }

  /** A point inside a closed box stays inside any rect that holds the box. */
  lemma ContainsInside(a: Rect, b: Rect, p: Point)
    requires Contains(a, p) && Inside(a, b)
    ensures Contains(b, p)
  {
  }

  // ----- contour and polygon bounds -----

  /** The bounding box of the points `q`, folded point by point the way
      `pp_contour_bounds` does. */
  function BoxOf(q: seq<Point>): (r: Rect)
    requires |q| > 0
    ensures r.w >= 0 && r.h >= 0
    ensures forall i :: 0 <= i < |q| ==> Contains(r, q[i])
  {
    if |q| == 1 then Rect(q[0].x, q[0].y, 0, 0)
    else
      var b := BoxOf(q[..|q| - 1]);
      var p := q[|q| - 1];
      assert forall i :: 0 <= i < |q| - 1 ==> q[..|q| - 1][i] == q[i];
      Rect(Min(b.x, p.x), Min(b.y, p.y),
           Max(b.x + b.w, p.x) - Min(b.x, p.x), Max(b.y + b.h, p.y) - Min(b.y, p.y))
  }

  /** Every edge of the box touches a point: it is the smallest box holding them. */
  lemma {:induction false} BoxOfTight(q: seq<Point>) returns (l: nat, t: nat, r: nat, b: nat)
    requires |q| > 0
    ensures l < |q| && q[l].x == BoxOf(q).x
    ensures t < |q| && q[t].y == BoxOf(q).y
    ensures r < |q| && q[r].x == BoxOf(q).x + BoxOf(q).w
    ensures b < |q| && q[b].y == BoxOf(q).y + BoxOf(q).h
  {
    if |q| == 1 {
      l, t, r, b := 0, 0, 0, 0;
    } else {
      var n := |q| - 1;
      var box := BoxOf(q[..n]);
      l, t, r, b := BoxOfTight(q[..n]);
      if q[n].x < box.x { l := n; }
      if q[n].y < box.y { t := n; }
      if q[n].x > box.x + box.w { r := n; }
      if q[n].y > box.y + box.h { b := n; }
    }
  }

  /** `pp_contour_bounds`: the min/max accumulator loop over the points. */
  method ContourBounds(q: seq<Point>) returns (r: Rect)
    requires |q| > 0
    ensures r == BoxOf(q)
  {
    var minx, maxx := q[0].x, q[0].x;
    var miny, maxy := q[0].y, q[0].y;
    var i := 1;
    while i < |q|
      invariant 1 <= i <= |q|
      invariant Rect(minx, miny, maxx - minx, maxy - miny) == BoxOf(q[..i])
    {
      assert q[..i + 1][..i] == q[..i];
      minx := Min(minx, q[i].x);
      miny := Min(miny, q[i].y);
      maxx := Max(maxx, q[i].x);
      maxy := Max(maxy, q[i].y);
      i := i + 1;
    }
    assert q[..|q|] == q;
    r := Rect(minx, miny, maxx - minx, maxy - miny);
  }

  predicate ContoursNonEmpty(ps: seq<seq<Point>>)
  {
    forall k :: 0 <= k < |ps| ==> |ps[k]| > 0
  }

  /** Merge of the bounds of contours `0 .. n - 1`. */
  function MergedBoxes(ps: seq<seq<Point>>, n: nat): (r: Rect)
    requires ContoursNonEmpty(ps) && 1 <= n <= |ps|
    ensures r.w >= 0 && r.h >= 0
    ensures forall k, i :: 0 <= k < n && 0 <= i < |ps[k]| ==> Contains(r, ps[k][i])
  {
    if n == 1 then BoxOf(ps[0])
    else
      var b := RectMerge(MergedBoxes(ps, n - 1), BoxOf(ps[n - 1]));
      assert forall k, i :: 0 <= k < n - 1 && 0 <= i < |ps[k]| ==> Contains(b, ps[k][i]) by {
        forall k, i | 0 <= k < n - 1 && 0 <= i < |ps[k]| ensures Contains(b, ps[k][i]) {
          ContainsInside(MergedBoxes(ps, n - 1), b, ps[k][i]);
        }
      }
      var last := ps[n - 1];
      assert forall i :: 0 <= i < |last| ==> Contains(b, last[i]) by {
        forall i | 0 <= i < |last| ensures Contains(b, last[i]) {
          ContainsInside(BoxOf(last), b, last[i]);
        }
      }
      b
  }

  /** What `pp_polygon_bounds` returns: the all-zero rect without contours,
      otherwise the merge of every contour's bounds. */
  function PolygonBox(ps: seq<seq<Point>>): (r: Rect)
    requires ContoursNonEmpty(ps)
  {
    if |ps| == 0 then Rect(0, 0, 0, 0) else MergedBoxes(ps, |ps|)
  }

  /** The polygon bounds have non-negative size and hold every point of every contour. */
  lemma PolygonBoxContains(ps: seq<seq<Point>>)
    requires ContoursNonEmpty(ps)
    ensures PolygonBox(ps).w >= 0 && PolygonBox(ps).h >= 0
    ensures forall k, i :: 0 <= k < |ps| && 0 <= i < |ps[k]| ==> Contains(PolygonBox(ps), ps[k][i])
    ensures |ps| == 0 ==> PolygonBox(ps) == Rect(0, 0, 0, 0)
  {
  }

  /** `pp_polygon_bounds`: starts from contour 0 and merges in the others. */
  method PolygonBounds(ps: seq<seq<Point>>) returns (r: Rect)
    requires ContoursNonEmpty(ps)
    ensures r == PolygonBox(ps)
  {
    if |ps| == 0 {
      return Rect(0, 0, 0, 0);
    }
    r := ContourBounds(ps[0]);
    var i := 1;
    while i < |ps|
      invariant 1 <= i <= |ps|
      invariant r == MergedBoxes(ps, i)
    {
      var b := ContourBounds(ps[i]);
      r := RectMerge(r, b);
      i := i + 1;
    }
  }

  // ----- tile geometry and tile values -----

  /** Bytes in the tile buffer (`PP_TILE_BUFFER_SIZE`). */
  const TileBufferSize := 1024

  /** The `tile_bounds` that `pp_antialias(aa)` computes: height `32 >> aa`
      and width `1024 / height`. */
  function TileBoundsFor(aa: Level): (r: Rect)
    ensures r.x == 0 && r.y == 0 && r.w > 0 && r.h > 0
    ensures r.h * Scale(aa) == 32
    ensures r.w * r.h == TileBufferSize
  {
    var h := 32 / Scale(aa);
    Rect(0, 0, TileBufferSize / h, h)
  }

  /** `pp_tile_t`: the visible bounds, the row stride, and the bytes the
      callback reads, `buffer[offset ..]` (the tile buffer and the data pointer). */
  datatype Tile = Tile(bounds: Rect, stride: int, buffer: seq<int>, offset: int)

  /** Index in `buffer` of the byte for pixel `(x, y)` of the tile's bounds
      (`data + x + y * stride`). */
  function TileByte(t: Tile, x: int, y: int): int
  {
    t.offset + x + y * t.stride
  }

  /** `pp_tile_get_value`: byte `(x, y)` of the tile scaled to 0..255. */
  function TileGetValue(t: Tile, aa: Level, x: int, y: int): (v: int)
    requires 0 <= TileByte(t, x, y) < |t.buffer|
    ensures 0 <= t.buffer[TileByte(t, x, y)] <= Scale(aa) * Scale(aa) ==> 0 <= v <= 255
    ensures v == 0 <==> t.buffer[TileByte(t, x, y)] == 0
  {
    t.buffer[TileByte(t, x, y)] * (255 / Scale(aa) / Scale(aa))
  }
}
