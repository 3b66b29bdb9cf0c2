/**
  The polygon bounds of `src/pretty-poly.hpp`'s `draw_polygon`: a min/max
  accumulator over the interleaved point vectors of every contour. As
  written its inner loop starts at index 2 of every contour, so only point 0
  of contour 0, where the accumulator starts, is read; point 0 of every later
  contour is skipped. `BoundsLoopAsWritten` models that loop and
  `AsWrittenMissesPoint` exhibits a polygon it gets wrong; `PolygonBounds`
  reads every point and returns the polygon's bounding box.
*/
module SrcBounds {
  import opened ScanMath
  import opened PrettyPolyGeometry
  import opened HppGeometry

  /** One step of `draw_polygon`'s min/max accumulator: the rect grown to hold `p`. */
  function Extend(r: Rect, p: Point): Rect
  {
    RectMerge(r, Rect(p.x, p.y, 0, 0))
  }

  /** The accumulator after reading the points `q` in order. */
  function ExtendAll(r: Rect, q: seq<Point>): Rect
  {
    if |q| == 0 then r else Extend(ExtendAll(r, q[..|q| - 1]), q[|q| - 1])
  }

  /** `draw_polygon`'s bounds loop as written, after contours `0 .. n - 1`:
      it starts at point 0 of contour 0 and reads every contour from point 1
      on (`i = 2`), so point 0 of every later contour is never read. */
  function BoundsAsWritten(ps: seq<seq<Point>>, n: nat): Rect
    requires |ps| >= 1 && ContoursNonEmpty(ps) && n <= |ps|
  {
    if n == 0 then Rect(ps[0][0].x, ps[0][0].y, 0, 0)
    else ExtendAll(BoundsAsWritten(ps, n - 1), ps[n - 1][1..])
  }

  /** The bounds loop reading every point of every contour. */
  function BoundsRead(ps: seq<seq<Point>>, n: nat): Rect
    requires |ps| >= 1 && ContoursNonEmpty(ps) && n <= |ps|
  {
    if n == 0 then Rect(ps[0][0].x, ps[0][0].y, 0, 0)
    else ExtendAll(BoundsRead(ps, n - 1), ps[n - 1])
  }

  /** Growing a rect point by point is merging it with the points' box. */
  lemma {:induction false} ExtendAllIsMerge(r: Rect, q: seq<Point>)
    requires r.w >= 0 && r.h >= 0 && |q| > 0
    ensures ExtendAll(r, q) == RectMerge(r, BoxOf(q))
  {
    if |q| > 1 {
      ExtendAllIsMerge(r, q[..|q| - 1]);
    }
  }

  /** Reading every point yields the polygon's bounding box. */
  lemma {:induction false} BoundsReadIsBox(ps: seq<seq<Point>>, n: nat)
    requires |ps| >= 1 && ContoursNonEmpty(ps) && 1 <= n <= |ps|
    ensures BoundsRead(ps, n) == MergedBoxes(ps, n)
  {
    if n == 1 {
      ExtendAllIsMerge(Rect(ps[0][0].x, ps[0][0].y, 0, 0), ps[0]);
      assert Contains(BoxOf(ps[0]), ps[0][0]);
    } else {
      BoundsReadIsBox(ps, n - 1);
      var m := MergedBoxes(ps, n - 1);
      assert BoundsRead(ps, n) == ExtendAll(m, ps[n - 1]);
      ExtendAllIsMerge(m, ps[n - 1]);
      assert MergedBoxes(ps, n) == RectMerge(m, BoxOf(ps[n - 1]));
    }
  }

  /** For a polygon of one contour the loop as written is still right: point
      0 of contour 0 is where the accumulator starts. */
  lemma AsWrittenOneContour(ps: seq<seq<Point>>)
    requires |ps| == 1 && ContoursNonEmpty(ps)
    ensures BoundsAsWritten(ps, 1) == PolygonBox(ps)
  {
    var q := ps[0];
    if |q| == 1 {
      assert q[1..] == [];
    } else {
      ExtendAllIsMerge(Rect(q[0].x, q[0].y, 0, 0), q[1..]);
      assert q == [q[0]] + q[1..];
      ExtendAllIsMerge(Rect(q[0].x, q[0].y, 0, 0), q);
      ExtendPrefix(Rect(q[0].x, q[0].y, 0, 0), q);
    }
  }

  /** Reading the first point again once the accumulator starts there changes nothing. */
  lemma {:induction false} ExtendPrefix(r: Rect, q: seq<Point>)
    requires |q| >= 1 && r == Rect(q[0].x, q[0].y, 0, 0)
    ensures ExtendAll(r, q) == ExtendAll(r, q[1..])
    decreases |q|
  {
    if |q| > 1 {
      ExtendPrefix(r, q[..|q| - 1]);
      assert q[..|q| - 1][1..] == q[1..][..|q| - 2];
    } else {
      assert ExtendAll(r, q[..0]) == r;
    }
  }

  lemma ExtendOne(r: Rect, p: Point)
    ensures ExtendAll(r, [p]) == Extend(r, p)
  {
    assert [p][..0] == [];
  }

  /** The bounds of a polygon of two contours. */
  lemma MergedPair(a: seq<Point>, b: seq<Point>)
    requires |a| > 0 && |b| > 0
    ensures PolygonBox([a, b]) == RectMerge(BoxOf(a), BoxOf(b))
  {
    var ps := [a, b];
    assert MergedBoxes(ps, 1) == BoxOf(a);
  }

  /** The loop as written on a polygon of two contours of two points each. */
  lemma AsWrittenPair(a: seq<Point>, b: seq<Point>)
    requires |a| == 2 && |b| == 2
    ensures BoundsAsWritten([a, b], 2) == Extend(Extend(Rect(a[0].x, a[0].y, 0, 0), a[1]), b[1])
  {
    var ps := [a, b];
    var r0 := Rect(a[0].x, a[0].y, 0, 0);
    assert BoundsAsWritten(ps, 0) == r0;
    assert ps[0][1..] == [a[1]] && ps[1][1..] == [b[1]];
    ExtendOne(r0, a[1]);
    assert BoundsAsWritten(ps, 1) == Extend(r0, a[1]);
    ExtendOne(BoundsAsWritten(ps, 1), b[1]);
  }

  /** Two contours of two points each, where point 0 of the second lies
      right of every other point (as with `(0, 0) (1, 1)` and
      `(100, 100) (2, 2)`): the loop as written never reads that point, so
      its bounds leave it out, and the cells holding it are never visited,
      though the polygon's bounding box holds it. */
  lemma AsWrittenMissesPoint(a: seq<Point>, b: seq<Point>)
    requires |a| == 2 && |b| == 2
    requires b[0].x > a[0].x && b[0].x > a[1].x && b[0].x > b[1].x
    ensures !Contains(BoundsAsWritten([a, b], 2), b[0])
    ensures Contains(PolygonBox([a, b]), b[0])
  {
    AsWrittenPair(a, b);
    MergedPair(a, b);
    ContainsInside(BoxOf(b), RectMerge(BoxOf(a), BoxOf(b)), b[0]);
  }

  /** The inner bounds loop of `draw_polygon`: the accumulator
      `(minx, miny, maxx, maxy)` reads the points of `c` from index `i`
      (2 as written, 0 when every point is read) on, two values at a time. */
  method ReadPoints(c: seq<int>, i: nat, minx: int, miny: int, maxx: int, maxy: int)
    returns (minx': int, miny': int, maxx': int, maxy': int)
    requires WellFormed(c) && i % 2 == 0 && i <= |c|
    ensures Rect(minx', miny', maxx' - minx', maxy' - miny')
         == ExtendAll(Rect(minx, miny, maxx - minx, maxy - miny), PointsOf(c)[i / 2..])
  {
    ghost var q := PointsOf(c);
    ghost var start := Rect(minx, miny, maxx - minx, maxy - miny);
    ghost var from := i / 2;
    minx', miny', maxx', maxy' := minx, miny, maxx, maxy;
    var j := i;
    ghost var n := from;
    while j < |c|
      invariant i <= j <= |c| && j == 2 * n && from <= n <= |q|
      invariant Rect(minx', miny', maxx' - minx', maxy' - miny') == ExtendAll(start, q[from..n])
    {
      assert q[from..n + 1][..n - from] == q[from..n];
      PointAt(c, n, j);
      var cx := c[j];
      var cy := c[j + 1];
      minx' := Min(minx', cx);
      miny' := Min(miny', cy);
      maxx' := Max(maxx', cx);
      maxy' := Max(maxy', cy);
      j, n := j + 2, n + 1;
    }
    assert q[from..n] == q[from..];
  }

  /** One pass of the outer loop as written: contour `k` read from point 1. */
  lemma AsWrittenStep(cs: seq<seq<int>>, k: nat)
    requires |cs| >= 1 && AllWellFormed(cs) && k < |cs|
    ensures BoundsAsWritten(Contours(cs), k + 1)
         == ExtendAll(BoundsAsWritten(Contours(cs), k), PointsOf(cs[k])[2 / 2..])
  {
  }

  /** One pass of the outer loop reading every point of contour `k`. */
  lemma ReadStep(cs: seq<seq<int>>, k: nat)
    requires |cs| >= 1 && AllWellFormed(cs) && k < |cs|
    ensures BoundsRead(Contours(cs), k + 1) == ExtendAll(BoundsRead(Contours(cs), k), PointsOf(cs[k])[0 / 2..])
  {
    assert PointsOf(cs[k])[0..] == Contours(cs)[k];
  }

  /** The bounds loop of `draw_polygon` as written: the accumulator starts
      at point 0 of contour 0, then reads points `1 ..` (`i = 2`) of every
      contour. */
  method BoundsLoopAsWritten(cs: seq<seq<int>>) returns (r: Rect)
    requires |cs| >= 1 && AllWellFormed(cs)
    ensures r == BoundsAsWritten(Contours(cs), |cs|)
  {
    ghost var ps := Contours(cs);
    var minx, maxx := cs[0][0], cs[0][0];
    var miny, maxy := cs[0][1], cs[0][1];
    PointAt(cs[0], 0, 0);
    var k := 0;
    while k < |cs|
      invariant 0 <= k <= |cs|
      invariant Rect(minx, miny, maxx - minx, maxy - miny) == BoundsAsWritten(ps, k)
    {
      AsWrittenStep(cs, k);
      minx, miny, maxx, maxy := ReadPoints(cs[k], 2, minx, miny, maxx, maxy);
      k := k + 1;
    }
    r := Rect(minx, miny, maxx - minx, maxy - miny);
  }

  /** The bounds loop with every point read (`i = 0`): the polygon's
      bounding box. */
  method PolygonBounds(cs: seq<seq<int>>) returns (r: Rect)
    requires |cs| >= 1 && AllWellFormed(cs)
    ensures r == PolygonBox(Contours(cs))
  {
    ghost var ps := Contours(cs);
    var minx, maxx := cs[0][0], cs[0][0];
    var miny, maxy := cs[0][1], cs[0][1];
    PointAt(cs[0], 0, 0);
    var k := 0;
    while k < |cs|
      invariant 0 <= k <= |cs|
      invariant Rect(minx, miny, maxx - minx, maxy - miny) == BoundsRead(ps, k)
    {
      ReadStep(cs, k);
      minx, miny, maxx, maxy := ReadPoints(cs[k], 0, minx, miny, maxx, maxy);
      k := k + 1;
    }
    r := Rect(minx, miny, maxx - minx, maxy - miny);
    BoundsReadIsBox(ps, |ps|);
  }

}
