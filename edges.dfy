/**
  What the edge walkers compute, independent of any one variant.

  Every walker orders a segment so that `sy <= ey`, then visits the rows
  `sy <= y < ey` (the last scanline of a segment is never visited, so that
  polygons sharing an edge do not overlap). It keeps an error term `e` that
  grows by `einc = |ex - sx| + 1` per row and moves `x` one step towards `ex`
  whenever `e` exceeds the row count `dy = ey - sy`. `Steps` is the closed
  form of the number of x steps taken by row `sy + r`, and `NodeX` is the
  clamped x the walker records on that row.
*/
module Edges {
  import opened ScanMath

  /** The least `k >= 0` with `t - k * dy <= dy`: the x steps taken once the
      error term has received `t` units against a row count `dy`, one step
      per `dy` consumed while more than `dy` remains. */
  function Steps(t: nat, dy: int): nat
    requires dy > 0
    decreases t
  {
    if t <= dy then 0 else 1 + Steps(t - dy, dy)
  }

  /** The closed form: `(t - 1) / dy` steps for `t > 0`. */
  lemma {:induction false} StepsDiv(t: nat, dy: int)
    requires dy > 0
    ensures Steps(t, dy) == if t == 0 then 0 else (t - 1) / dy
  {
    if t > dy {
      StepsDiv(t - dy, dy);
      var q, r := (t - dy - 1) / dy, (t - dy - 1) % dy;
      assert t - 1 == (q + 1) * dy + r;
      DivModUnique(q + 1, dy, r);
    } else if t > 0 {
      DivModUnique(0, dy, t - 1);
    }
  }

  /** `Steps` is exactly the threshold at which the inner `while (e > dy)` loop stops. */
  lemma {:induction false} StepsLeast(t: nat, dy: int, k: nat)
    requires dy > 0
    ensures t - k * dy <= dy <==> k >= Steps(t, dy)
    decreases t
  {
    if t <= dy {
      MulMono(0, k, dy);
    } else if k > 0 {
      StepsLeast(t - dy, dy, k - 1);
      assert (t - dy) - (k - 1) * dy == t - k * dy;
    }
  }

  lemma StepsMono(t1: nat, t2: nat, dy: int)
    requires dy > 0 && t1 <= t2
    ensures Steps(t1, dy) <= Steps(t2, dy)
  {
    var k := Steps(t2, dy);
    StepsLeast(t2, dy, k);
    StepsLeast(t1, dy, k);
  }

  /** Before the last row the walk has taken at most `|ex - sx|` steps, so it never passes `ex`. */
  lemma StepsBound(einc: nat, r: nat, dy: int)
    requires dy > 0 && einc >= 1 && r < dy
    ensures Steps(einc * r, dy) <= einc - 1
  {
    MulMono(r, dy, einc);
    assert einc * r - (einc - 1) * dy <= dy;
    StepsLeast(einc * r, dy, einc - 1);
  }

  /** Unclamped x of the walk from `(sx, sy)` to `(ex, ey)` on row `y`. */
  function WalkX(sx: int, sy: int, ex: int, ey: int, y: int): int
    requires sy <= y < ey
  {
    sx + Signum(ex - sx) * Steps((Abs(ex - sx) + 1) * (y - sy), ey - sy)
  }

  /** The walk stays between its end points. */
  lemma WalkXBetween(sx: int, sy: int, ex: int, ey: int, y: int)
    requires sy <= y < ey
    ensures Min(sx, ex) <= WalkX(sx, sy, ex, ey, y) <= Max(sx, ex)
  {
    StepsBound(Abs(ex - sx) + 1, y - sy, ey - sy);
  }

  /** The node a walker records on row `y`: the walk's x clamped to `[0, fw]`. */
  function NodeX(sx: int, sy: int, ex: int, ey: int, fw: nat, y: int): int
    requires sy <= y < ey
  {
    Clamp(WalkX(sx, sy, ex, ey, y), 0, fw)
  }

  /** A segment lying entirely left of the tile records 0, entirely right records `fw`:
      the two early exits of the C walker agree with the general walk. */
  lemma NodeXOffSide(sx: int, sy: int, ex: int, ey: int, fw: nat, y: int)
    requires sy <= y < ey
    ensures Max(sx, ex) <= 0 ==> NodeX(sx, sy, ex, ey, fw, y) == 0
    ensures Min(sx, ex) >= fw ==> NodeX(sx, sy, ex, ey, fw, y) == fw
  {
    WalkXBetween(sx, sy, ex, ey, y);
  }

  /** True when the segment from `a` to `b` covers row `y` under the half-open rule. */
  predicate Crosses(a: Point, b: Point, y: int)
  {
    (a.y <= y) != (b.y <= y)
  }

  /** The nodes (zero or one) that the segment from `a` to `b` contributes to row `y`. */
  function EdgeNodes(a: Point, b: Point, fw: nat, y: int): (r: seq<int>)
    ensures |r| == (if Crosses(a, b, y) then 1 else 0)
    ensures forall i :: 0 <= i < |r| ==> 0 <= r[i] <= fw
  {
    var s := if b.y < a.y then b else a;
    var e := if b.y < a.y then a else b;
    if s.y <= y < e.y then [NodeX(s.x, s.y, e.x, e.y, fw, y)] else []
  }

  /** The closed edge list of a contour: the closing edge from the last point to
      the first, then each point from its predecessor. */
  function ContourEdges(q: seq<Point>): (es: seq<(Point, Point)>)
    requires |q| > 0
    ensures |es| == |q|
    ensures es[0] == (q[|q| - 1], q[0])
    ensures forall i :: 0 < i < |q| ==> es[i] == (q[i - 1], q[i])
  {
    seq(|q|, i requires 0 <= i < |q| => (if i == 0 then q[|q| - 1] else q[i - 1], q[i]))
  }

  /** All nodes a list of edges contributes to row `y`, in edge order. */
  function NodesOf(es: seq<(Point, Point)>, fw: nat, y: int): (r: seq<int>)
    ensures forall i :: 0 <= i < |r| ==> 0 <= r[i] <= fw
  {
    if |es| == 0 then []
    else NodesOf(es[..|es| - 1], fw, y) + EdgeNodes(es[|es| - 1].0, es[|es| - 1].1, fw, y)
  }

  /** Number of edges in `es` that cover row `y`. */
  function Hits(es: seq<(Point, Point)>, y: int): nat
  {
    if |es| == 0 then 0
    else Hits(es[..|es| - 1], y) + (if Crosses(es[|es| - 1].0, es[|es| - 1].1, y) then 1 else 0)
  }

  lemma {:induction false} NodesOfLength(es: seq<(Point, Point)>, fw: nat, y: int)
    ensures |NodesOf(es, fw, y)| == Hits(es, y)
  {
    if |es| > 0 {
      NodesOfLength(es[..|es| - 1], fw, y);
    }
  }

  /** Walking edge `i` appends its nodes to those of the edges before it, and
      the nodes of the first `i + 1` edges are no more than those of all. */
  lemma NodesOfStep(es: seq<(Point, Point)>, i: nat, fw: nat, y: int)
    requires i < |es|
    ensures NodesOf(es[..i + 1], fw, y) == NodesOf(es[..i], fw, y) + EdgeNodes(es[i].0, es[i].1, fw, y)
    ensures |NodesOf(es[..i + 1], fw, y)| <= |NodesOf(es, fw, y)|
  {
    assert es[..i + 1][..i] == es[..i];
    NodesOfLength(es[..i + 1], fw, y);
    NodesOfLength(es, fw, y);
    HitsPrefix(es, i + 1, y);
  }

  lemma {:induction false} HitsPrefix(es: seq<(Point, Point)>, i: nat, y: int)
    requires i <= |es|
    ensures Hits(es[..i], y) <= Hits(es, y)
    decreases |es| - i
  {
    if i < |es| {
      HitsPrefix(es, i + 1, y);
      assert es[..i + 1][..i] == es[..i];
    } else {
      assert es[..i] == es;
    }
  }

  /** Crossing parity along an open path: the closing edge plus the first `m` path
      edges cover row `y` an odd number of times exactly when the last point and
      point `m` lie on opposite sides of the row. */
  lemma {:induction false} HitsParityPrefix(q: seq<Point>, m: nat, y: int)
    requires m < |q|
    ensures Hits(ContourEdges(q)[..m + 1], y) % 2
         == (if (q[|q| - 1].y <= y) == (q[m].y <= y) then 0 else 1)
  {
    var es := ContourEdges(q);
    if m == 0 {
      assert es[..1][..0] == [];
    } else {
      HitsParityPrefix(q, m - 1, y);
      assert es[..m + 1][..m] == es[..m];
    }
  }

  /** A closed contour covers every row an even number of times, so each row
      receives an even number of nodes from it and the renderers may read the
      nodes in pairs. */
  lemma ContourHitsEven(q: seq<Point>, fw: nat, y: int)
    requires |q| > 0
    ensures Hits(ContourEdges(q), y) % 2 == 0
    ensures |NodesOf(ContourEdges(q), fw, y)| % 2 == 0
  {
    HitsParityPrefix(q, |q| - 1, y);
    assert ContourEdges(q)[..|q|] == ContourEdges(q);
    NodesOfLength(ContourEdges(q), fw, y);
  }

  /** Moves every point of a contour by `(dx, dy)`. */
  function Shift(q: seq<Point>, dx: int, dy: int): (r: seq<Point>)
    ensures |r| == |q|
    ensures forall i :: 0 <= i < |q| ==> r[i] == Point(q[i].x + dx, q[i].y + dy)
  {
    seq(|q|, i requires 0 <= i < |q| => Point(q[i].x + dx, q[i].y + dy))
  }

  /** Row hits move with the contour: row `y` of the shifted contour is row `y - dy` of the original. */
  lemma {:induction false} HitsShift(q: seq<Point>, dx: int, dy: int, y: int)
    requires |q| > 0
    ensures Hits(ContourEdges(Shift(q, dx, dy)), y) == Hits(ContourEdges(q), y - dy)
  {
    var a, b := ContourEdges(Shift(q, dx, dy)), ContourEdges(q);
    HitsShiftPrefix(q, dx, dy, y, |q|);
    assert a[..|q|] == a && b[..|q|] == b;
  }

  lemma {:induction false} HitsShiftPrefix(q: seq<Point>, dx: int, dy: int, y: int, n: nat)
    requires 0 < |q| && n <= |q|
    ensures Hits(ContourEdges(Shift(q, dx, dy))[..n], y) == Hits(ContourEdges(q)[..n], y - dy)
  {
    var a, b := ContourEdges(Shift(q, dx, dy)), ContourEdges(q);
    if n > 0 {
      HitsShiftPrefix(q, dx, dy, y, n - 1);
      assert a[..n][..n - 1] == a[..n - 1];
      assert b[..n][..n - 1] == b[..n - 1];
    }
  }
}
