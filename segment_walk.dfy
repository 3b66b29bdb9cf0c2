/**
  The scanline loop shared by the two C++ walkers (`add_line_segment_to_nodes`
  in `pretty-poly.hpp` and in `src/pretty-poly.hpp`). Unlike the C walker it
  has no early exits and no jump: it steps through every row from `sy` to
  `ey - 1`, consuming the error term on each, and records a clamped node only
  on the rows `0 .. 31` of the node table.
*/
module SegmentWalk {
  import opened ScanMath
  import opened Edges
  import opened NodeRows
  import opened PrettyPolyRaster

  /** With no jump the loop's step count on row `r` is the scanline
      definition's, so its node is `NodeX`. */
  lemma LoopNodeIsNodeX(sx: int, sy: int, ex: int, ey: int, fw: nat, r: int)
    requires sy <= r < ey
    ensures LoopNode(sx, sy, ex, ey, 0, fw, r) == NodeX(sx, sy, ex, ey, fw, r)
  {
    var k := LoopSteps(sx, sy, ex, ey, 0, r);
    TimesMul(Abs(ex - sx) + 1, r - sy);
    TimesMul(Signum(ex - sx), k);
  }

  /** The rows `base` with the nodes of the first `k` edges of `es` added. */
  ghost predicate EdgesAdded(base: seq<seq<int>>, rows: seq<seq<int>>, es: seq<(Point, Point)>, k: nat, fw: nat)
  {
    |base| == RowCount && |rows| == RowCount && k <= |es|
    && forall r :: 0 <= r < RowCount ==> rows[r] == base[r] + NodesOf(es[..k], fw, r)
  }

  /** Once every edge is added, every row holds the nodes of all of them. */
  lemma EdgesAddedAll(base: seq<seq<int>>, rows: seq<seq<int>>, es: seq<(Point, Point)>, fw: nat)
    requires EdgesAdded(base, rows, es, |es|, fw)
    ensures forall r :: 0 <= r < RowCount ==> rows[r] == base[r] + NodesOf(es, fw, r)
  {
    assert es[..|es|] == es;
  }

  /** The rows `rows0` with the loop's node appended on every table row of
      `sy .. y - 1`. */
  ghost predicate Walked(rows0: seq<seq<int>>, rows: seq<seq<int>>, sx: int, sy: int, ex: int, ey: int, fw: nat, y: int)
    requires |rows0| == RowCount && |rows| == RowCount && y <= ey
  {
    forall r :: 0 <= r < RowCount ==>
      rows[r] == rows0[r] + (if sy <= r < y then [LoopNode(sx, sy, ex, ey, 0, fw, r)] else [])
  }

  /** One pass of the scanline loop on row `y`: consume the error term,
      append the clamped x when `y` is a row of the table, add `einc` to
      the error. */
  method WalkRow(table: NodeTable, sx: int, sy: int, ex: int, ey: int, fw: nat, xinc: int, einc: int, dy: int,
                 y: int, x: int, e: int, ghost k: nat)
    returns (x': int, e': int, ghost k': nat)
    requires table.Valid() && sy <= y < ey
    requires 0 <= y < RowCount ==> |table.rows[y]| < Capacity
    requires xinc == Signum(ex - sx) && einc == Abs(ex - sx) + 1 && dy == ey - sy
    requires x == sx + Times(xinc, k) && e == Times(einc, y - sy) - Times(dy, k)
    requires k <= LoopSteps(sx, sy, ex, ey, 0, y)
    modifies table, table.nodes, table.counts
    ensures table.Valid()
    ensures 0 <= y < RowCount ==>
      table.rows == old(table.rows)[y := old(table.rows[y]) + [LoopNode(sx, sy, ex, ey, 0, fw, y)]]
    ensures !(0 <= y < RowCount) ==> table.rows == old(table.rows)
    ensures x' == sx + Times(xinc, k') && e' == Times(einc, y + 1 - sy) - Times(dy, k')
    ensures y + 1 < ey ==> k' <= LoopSteps(sx, sy, ex, ey, 0, y + 1)
  {
    ghost var t := Times(einc, y - sy);
    x', e', k' := ConsumeError(x, e, xinc, dy, t, k);
    TimesAdd(xinc, k, k' - k);
    if 0 <= y < RowCount {
      var nx := Max(Min(x', fw), 0);
      table.Append(y, nx);
    }
    StepsMono(t, t + einc, dy);
    e' := e' + einc;
  }

  /** The scanline loop for the segment `(sx, sy)`–`(ex, ey)` already in
      downward order (`sy <= ey`): `dy` passes, one per row. Every row of the
      table gains exactly the segment's `EdgeNodes` under the clamp `fw`. */
  method WalkSegment(table: NodeTable, sx: int, sy: int, ex: int, ey: int, fw: nat)
    requires table.Valid() && sy <= ey && -0x8000_0000 < ex - sx < 0x8000_0000
    requires forall r :: 0 <= r < RowCount && sy <= r < ey ==> |table.rows[r]| < Capacity
    modifies table, table.nodes, table.counts
    ensures table.Valid()
    ensures forall r :: 0 <= r < RowCount ==>
      table.rows[r] == old(table.rows[r]) + EdgeNodes(Point(sx, sy), Point(ex, ey), fw, r)
  {
    ghost var rows0 := table.rows;
    var x, y, e := sx, sy, 0;
    var xinc := Sign(ex - sx);
    var einc := Abs(ex - sx) + 1;
    var dy := ey - sy;
    var count := dy;
    ghost var k: nat := 0;
    while count > 0
      invariant table.Valid() && sy <= y <= ey && count == ey - y
      invariant x == sx + Times(xinc, k) && e == Times(einc, y - sy) - Times(dy, k)
      invariant y < ey ==> k <= LoopSteps(sx, sy, ex, ey, 0, y)
      invariant Walked(rows0, table.rows, sx, sy, ex, ey, fw, y)
    {
      x, e, k := WalkRow(table, sx, sy, ex, ey, fw, xinc, einc, dy, y, x, e, k);
      y, count := y + 1, count - 1;
    }
    forall r | 0 <= r < RowCount
      ensures table.rows[r] == rows0[r] + EdgeNodes(Point(sx, sy), Point(ex, ey), fw, r)
    {
      if sy <= r < ey {
        LoopNodeIsNodeX(sx, sy, ex, ey, fw, r);
      }
    }
  }
}
