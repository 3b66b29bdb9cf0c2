/**
  Which nodes `build_nodes` puts in each row of the node table for one tile of
  `pretty-poly.h`.

  Contour points are scaled to sub-samples (`* (1 << aa)`) and moved so the
  tile's origin (also scaled) is `(0, 0)`; then every edge, starting with the
  closing edge from the last point to the first, is walked into the rows
  `0 .. 31`. This module also holds what the walker computes as written when
  a segment starts above the tile (see `NodeXAsWritten`).
*/
module PrettyPolyNodes {
  import opened ScanMath
  import opened Edges
  import opened NodeRows
  import opened PrettyPolyGeometry

  /** The contour in sub-sample units. */
  function ScalePoints(q: seq<Point>, aa: Level): (r: seq<Point>)
    ensures |r| == |q|
    ensures forall i :: 0 <= i < |q| ==> r[i] == Point(q[i].x * Scale(aa), q[i].y * Scale(aa))
  {
    seq(|q|, i requires 0 <= i < |q| => Point(q[i].x * Scale(aa), q[i].y * Scale(aa)))
  }

  /** The contour in the sub-sample coordinates of the tile whose origin is `(ox, oy)`. */
  function TileSpace(q: seq<Point>, aa: Level, ox: int, oy: int): seq<Point>
  {
    Shift(ScalePoints(q, aa), -(ox * Scale(aa)), -(oy * Scale(aa)))
  }

  lemma TileSpaceIsShift(q: seq<Point>, aa: Level, ox: int, oy: int)
    ensures TileSpace(q, aa, ox, oy) == Shift(ScalePoints(q, aa), -(ox * Scale(aa)), -(oy * Scale(aa)))
  {
  }

  /** The nodes one contour adds to row `y` of the tile at `(ox, oy)`. */
  function ContourRow(q: seq<Point>, aa: Level, ox: int, oy: int, fw: nat, y: int): seq<int>
    requires |q| > 0
  {
    NodesOf(ContourEdges(TileSpace(q, aa, ox, oy)), fw, y)
  }

  /** The nodes all contours add to row `y`, contour by contour. */
  function PolygonRow(ps: seq<seq<Point>>, aa: Level, ox: int, oy: int, fw: nat, y: int): (r: seq<int>)
    requires ContoursNonEmpty(ps)
    ensures forall i :: 0 <= i < |r| ==> 0 <= r[i] <= fw
  {
    if |ps| == 0 then []
    else
      assert ContoursNonEmpty(ps[..|ps| - 1]);
      PolygonRow(ps[..|ps| - 1], aa, ox, oy, fw, y) + ContourRow(ps[|ps| - 1], aa, ox, oy, fw, y)
  }

  /** The 32 node rows of the tile at `(ox, oy)` before sorting. */
  function PolygonRows(ps: seq<seq<Point>>, aa: Level, ox: int, oy: int, fw: nat): (rows: seq<seq<int>>)
    requires ContoursNonEmpty(ps)
    ensures |rows| == RowCount
  {
    seq(RowCount, y requires 0 <= y < RowCount => PolygonRow(ps, aa, ox, oy, fw, y))
  }

  /** Edge crossings of sub-sample scanline `sy` by the whole polygon. */
  function PolygonHits(ps: seq<seq<Point>>, aa: Level, sy: int): nat
    requires ContoursNonEmpty(ps)
  {
    if |ps| == 0 then 0
    else
      assert ContoursNonEmpty(ps[..|ps| - 1]);
      PolygonHits(ps[..|ps| - 1], aa, sy) + Hits(ContourEdges(ScalePoints(ps[|ps| - 1], aa)), sy)
  }

  /** The node table never overflows: no sub-sample scanline crosses more
      than 32 edges (16 spans). */
  ghost predicate NodeCapacity(ps: seq<seq<Point>>, aa: Level)
    requires ContoursNonEmpty(ps)
  {
    forall sy :: PolygonHits(ps, aa, sy) <= Capacity
  }

  /** Row `y` of a tile holds one node per edge crossing of the scanline
      `y + oy * S`, whichever tile it is. */
  lemma {:induction false} PolygonRowLength(ps: seq<seq<Point>>, aa: Level, ox: int, oy: int, fw: nat, y: int)
    requires ContoursNonEmpty(ps)
    ensures |PolygonRow(ps, aa, ox, oy, fw, y)| == PolygonHits(ps, aa, y + oy * Scale(aa))
  {
    if |ps| > 0 {
      var q, pre := ps[|ps| - 1], ps[..|ps| - 1];
      assert ContoursNonEmpty(pre);
      PolygonRowLength(pre, aa, ox, oy, fw, y);
      ContourRowLength(q, aa, ox, oy, fw, y);
    }
  }

  /** One contour adds one node per edge crossing of the scanline `y + oy * S`. */
  lemma ContourRowLength(q: seq<Point>, aa: Level, ox: int, oy: int, fw: nat, y: int)
    requires |q| > 0
    ensures |ContourRow(q, aa, ox, oy, fw, y)| == Hits(ContourEdges(ScalePoints(q, aa)), y + oy * Scale(aa))
  {
    var sq, dx, dy := ScalePoints(q, aa), -(ox * Scale(aa)), -(oy * Scale(aa));
    TileSpaceIsShift(q, aa, ox, oy);
    NodesOfLength(ContourEdges(TileSpace(q, aa, ox, oy)), fw, y);
    HitsShift(sq, dx, dy, y);
  }

  /** Each contour adds an even number of nodes to every row, so every row
      can be read in pairs. */
  lemma {:induction false} PolygonRowEven(ps: seq<seq<Point>>, aa: Level, ox: int, oy: int, fw: nat, y: int)
    requires ContoursNonEmpty(ps)
    ensures |PolygonRow(ps, aa, ox, oy, fw, y)| % 2 == 0
  {
    if |ps| > 0 {
      var q, pre := ps[|ps| - 1], ps[..|ps| - 1];
      assert ContoursNonEmpty(pre);
      assert PolygonRow(ps, aa, ox, oy, fw, y) == PolygonRow(pre, aa, ox, oy, fw, y) + ContourRow(q, aa, ox, oy, fw, y);
      PolygonRowEven(pre, aa, ox, oy, fw, y);
      ContourHitsEven(TileSpace(q, aa, ox, oy), fw, y);
      var a, b := |PolygonRow(pre, aa, ox, oy, fw, y)|, |ContourRow(q, aa, ox, oy, fw, y)|;
      assert |PolygonRow(ps, aa, ox, oy, fw, y)| == a + b;
      EvenSum(a, b);
    }
  }

  lemma EvenSum(a: nat, b: nat)
    requires a % 2 == 0 && b % 2 == 0
    ensures (a + b) % 2 == 0
  {
  }

  /** The rows after the first `k` contours are a prefix of the full rows. */
  lemma {:induction false} PolygonRowPrefix(ps: seq<seq<Point>>, k: nat, aa: Level, ox: int, oy: int, fw: nat, y: int)
    requires ContoursNonEmpty(ps) && k <= |ps|
    ensures ContoursNonEmpty(ps[..k])
    ensures |PolygonRow(ps[..k], aa, ox, oy, fw, y)| <= |PolygonRow(ps, aa, ox, oy, fw, y)|
    decreases |ps| - k
  {
    if k < |ps| {
      PolygonRowPrefix(ps, k + 1, aa, ox, oy, fw, y);
      assert ps[..k + 1][..k] == ps[..k];
    } else {
      assert ps[..k] == ps;
    }
  }

  /** Contour `k` adds its nodes after those of contours `0 .. k - 1`, and
      when no scanline crosses more than 32 edges they all fit in the row. */
  lemma ContourRoom(ps: seq<seq<Point>>, k: nat, aa: Level, ox: int, oy: int, fw: nat, y: int)
    requires ContoursNonEmpty(ps) && k < |ps| && NodeCapacity(ps, aa)
    ensures ContoursNonEmpty(ps[..k]) && ContoursNonEmpty(ps[..k + 1])
    ensures PolygonRow(ps[..k + 1], aa, ox, oy, fw, y)
         == PolygonRow(ps[..k], aa, ox, oy, fw, y) + ContourRow(ps[k], aa, ox, oy, fw, y)
    ensures |PolygonRow(ps[..k], aa, ox, oy, fw, y)| + |ContourRow(ps[k], aa, ox, oy, fw, y)| <= Capacity
  {
    assert ps[..k + 1][..k] == ps[..k];
    PolygonRowPrefix(ps, k + 1, aa, ox, oy, fw, y);
    PolygonRowLength(ps, aa, ox, oy, fw, y);
    assert PolygonHits(ps, aa, y + oy * Scale(aa)) <= Capacity;
  }

  /** Coordinates for which every x difference, scaled by up to 4, fits the
      32-bit `sign()` the walker uses. */
  ghost predicate XInRange(ps: seq<seq<Point>>)
  {
    forall k, i :: 0 <= k < |ps| && 0 <= i < |ps[k]| ==> -0x1000_0000 < ps[k][i].x < 0x1000_0000
  }

  /** Under `XInRange`, every point of a single contour has its x within 28 bits. */
  lemma XInRangeAt(q: seq<Point>, i: nat)
    requires XInRange([q]) && i < |q|
    ensures -0x1000_0000 < q[i].x < 0x1000_0000
  {
    assert [q][0] == q;
  }

  /** A contour point as `build_nodes` moves it: scaled to sub-samples
      (`* (1 << aa)`), less the tile origin, also scaled. */
  function TilePoint(pt: Point, aa: Level, ox: int, oy: int): Point
  {
    Point(pt.x * Scale(aa) - ox * Scale(aa), pt.y * Scale(aa) - oy * Scale(aa))
  }

  /** Point `i` of the contour in tile space is the moved point, and the x
      difference of an edge between two points stays within 32 bits. */
  lemma TileSpacePoint(q: seq<Point>, aa: Level, ox: int, oy: int, i: nat, j: nat)
    requires i < |q| && j < |q|
    requires -0x1000_0000 < q[i].x < 0x1000_0000 && -0x1000_0000 < q[j].x < 0x1000_0000
    ensures TileSpace(q, aa, ox, oy)[i] == TilePoint(q[i], aa, ox, oy)
    ensures -0x8000_0000 < TilePoint(q[i], aa, ox, oy).x - TilePoint(q[j], aa, ox, oy).x < 0x8000_0000
  {
    var S := Scale(aa);
    ScaledDifference(q[i].x - q[j].x, aa);
    assert (q[i].x - q[j].x) * S == q[i].x * S - q[j].x * S;
  }

  lemma ScaledDifference(d: int, aa: Level)
    requires -0x2000_0000 < d < 0x2000_0000
    ensures -0x8000_0000 < d * Scale(aa) < 0x8000_0000
  {
  }

  // ----- the walker's jump as written -----

  /** x steps the C walker has taken on row `y >= 0` of a segment that starts
      at `sy`: when `sy < 0` it first jumps `einc * -sy / dy` steps. */
  function StepsAsWritten(sx: int, sy: int, ex: int, ey: int, y: int): nat
    requires sy <= y < ey
  {
    var einc, dy := Abs(ex - sx) + 1, ey - sy;
    if sy < 0 then Max(einc * -sy / dy, Steps(einc * (y - sy), dy)) else Steps(einc * (y - sy), dy)
  }

  /** The node the C walker records on row `y` as written. */
  function NodeXAsWritten(sx: int, sy: int, ex: int, ey: int, fw: nat, y: int): int
    requires sy <= y < ey
  {
    if Max(sx, ex) <= 0 then 0
    else if Min(sx, ex) >= fw then fw
    else Clamp(sx + Signum(ex - sx) * StepsAsWritten(sx, sy, ex, ey, y), 0, fw)
  }

  /** The nodes the C walker as written adds to row `y` (only rows `>= 0` are written). */
  function EdgeNodesAsWritten(a: Point, b: Point, fw: nat, y: int): seq<int>
  {
    var s := if b.y < a.y then b else a;
    var e := if b.y < a.y then a else b;
    if s.y <= y < e.y && 0 <= y then [NodeXAsWritten(s.x, s.y, e.x, e.y, fw, y)] else []
  }

  /** The jump agrees with the stepping loop it replaces except when `dy`
      divides `einc * -sy`, where it takes one step too many. */
  lemma StepsAsWrittenAgrees(sx: int, sy: int, ex: int, ey: int, y: int)
    requires sy <= y < ey && 0 <= y
    ensures var einc, dy := Abs(ex - sx) + 1, ey - sy;
      (sy >= 0 || (einc * -sy) % dy != 0) ==>
        StepsAsWritten(sx, sy, ex, ey, y) == Steps(einc * (y - sy), dy)
  {
    var einc, dy := Abs(ex - sx) + 1, ey - sy;
    if sy < 0 && (einc * -sy) % dy != 0 {
      var t0 := einc * -sy;
      var q, r := t0 / dy, t0 % dy;
      assert t0 - 1 == q * dy + (r - 1);
      DivModUnique(q, dy, r - 1);
      StepsDiv(t0, dy);
      assert Steps(t0, dy) == q;
      MulMono(-sy, y - sy, einc);
      StepsMono(t0, einc * (y - sy), dy);
    }
  }

  /** A segment from `(0, -1)` to `(1, 1)`: the stepping loop would still be
      at x = 0 on row 0 (the error term 2 does not exceed dy = 2), but the
      jump computes `2 / 2 = 1` step and records x = 1. */
  lemma NodeXAsWrittenOvershoots(fw: nat)
    requires fw >= 1
    ensures NodeXAsWritten(0, -1, 1, 1, fw, 0) == 1
    ensures NodeX(0, -1, 1, 1, fw, 0) == 0
    ensures EdgeNodesAsWritten(Point(0, -1), Point(1, 1), fw, 0) != EdgeNodes(Point(0, -1), Point(1, 1), fw, 0)
  {
    assert Steps(2, 2) == 0;
  }
}
