/**
  The rasteriser of `src/pretty-poly.hpp` as a class over its globals:
  `clip`, `tile_callback`, `antialias`, the node table and the static
  `tile_buffer` of `draw_polygon`. The callback is recorded in the ghost
  `log`. Every method is proved against the functions of `SrcGeometry`.

  Everything is in sub-samples: `build_nodes` scales each point by
  `1 << antialias` and moves it by the cell origin, the walker clamps nodes
  to the 32 sub-sample tile width, and `render_tile` sets the byte of every
  covered sub-sample to 1 after clearing the tile's `32 * h` bytes.
*/
module SrcRaster {
  import opened ScanMath
  import opened Edges
  import opened Coverage
  import opened NodeRows
  import opened PrettyPolyGeometry
  import opened PrettyPolyNodes
  import opened PrettyPolyRender
  import opened PrettyPolyRaster
  import opened SegmentWalk
  import opened HppGeometry
  import opened SrcGeometry
  import SrcBounds

  /** The bytes `b` after the first `n` node pairs of `row` are set in the
      buffer row starting at `base`: a byte is 1 where a pair covers its
      sub-sample, and as it was elsewhere. */
  function RowFilled(b: seq<int>, row: seq<int>, n: nat, base: int): (r: seq<int>)
    requires 2 * n <= |row|
    ensures |r| == |b|
  {
    seq(|b|, j requires 0 <= j < |b| =>
      if base <= j < base + TileSize && PairsLit(row, n, j - base) then 1 else b[j])
  }

  /** No pair set yet: the bytes are as they were. */
  lemma RowFilledNone(b: seq<int>, row: seq<int>, base: int)
    ensures RowFilled(b, row, 0, base) == b
  {
    var r := RowFilled(b, row, 0, base);
    forall j | 0 <= j < |b| ensures r[j] == b[j] {
      assert !PairsLit(row, 0, j - base);
    }
  }

  /** Pair `n` sets the bytes of its sub-samples `[row[2n], row[2n + 1])`,
      which lie in the buffer row, and no others. */
  lemma RowFilledStep(b: seq<int>, row: seq<int>, n: nat, base: int, j: int)
    requires 2 * n + 2 <= |row| && 0 <= row[2 * n] && row[2 * n + 1] <= TileSize && 0 <= j < |b|
    ensures RowFilled(b, row, n + 1, base)[j]
         == if base + row[2 * n] <= j < base + row[2 * n + 1] then 1 else RowFilled(b, row, n, base)[j]
  {
    assert PairsLit(row, n + 1, j - base) <==> PairsLit(row, n, j - base) || row[2 * n] <= j - base < row[2 * n + 1];
  }

  /** The bytes `b` after the first `y` rows of `rows` are rendered: a byte
      of those rows is 1 where a pair of its row covers its sub-sample, and
      every other byte is as it was. */
  function MaskDone(b: seq<int>, rows: seq<seq<int>>, y: nat): (r: seq<int>)
    requires |rows| == RowCount && y <= RowCount
    ensures |r| == |b|
  {
    seq(|b|, j requires 0 <= j < |b| =>
      if j < TileSize * y && PairsLit(rows[j / TileSize], |rows[j / TileSize]| / 2, j % TileSize) then 1 else b[j])
  }

  /** Rendering row `y` fills the pairs of that row into the buffer row `32 * y`. */
  lemma MaskDoneStep(b: seq<int>, rows: seq<seq<int>>, y: nat)
    requires |rows| == RowCount && y < RowCount
    ensures MaskDone(b, rows, y + 1) == RowFilled(MaskDone(b, rows, y), rows[y], |rows[y]| / 2, TileSize * y)
  {
    var m, r := MaskDone(b, rows, y + 1), RowFilled(MaskDone(b, rows, y), rows[y], |rows[y]| / 2, TileSize * y);
    forall j | 0 <= j < |b| ensures m[j] == r[j] {
      if TileSize * y <= j < TileSize * y + TileSize {
        DivModUnique(y, TileSize, j - TileSize * y);
      } else if j < TileSize * y {
        DivMono(j, TileSize * y - 1, TileSize);
        DivModUnique(y - 1, TileSize, TileSize - 1);
      }
    }
  }

  /** The bytes of the rendered rows depend on those rows only. */
  lemma MaskDoneFrame(b: seq<int>, rows: seq<seq<int>>, rows': seq<seq<int>>, y: nat)
    requires |rows| == RowCount && |rows'| == RowCount && y <= RowCount
    requires forall k :: 0 <= k < y ==> rows[k] == rows'[k]
    ensures MaskDone(b, rows, y) == MaskDone(b, rows', y)
  {
    forall j | 0 <= j < |b| && j < TileSize * y ensures j / TileSize < y {
      DivMono(j, TileSize * y - 1, TileSize);
      DivModUnique(y - 1, TileSize, TileSize - 1);
    }
  }

  /** After clearing the first `32 * h` bytes and rendering rows `0 .. h - 1`,
      those bytes are the mask of the rows and the rest are untouched. */
  lemma MaskDoneIsMask(b: seq<int>, rows: seq<seq<int>>, h: nat)
    requires |rows| == RowCount && h <= RowCount && TileSize * h <= |b|
    requires forall j :: 0 <= j < TileSize * h ==> b[j] == 0
    ensures MaskDone(b, rows, h)[..TileSize * h] == SrcMask(rows, h)
    ensures MaskDone(b, rows, h)[TileSize * h..] == b[TileSize * h..]
  {
  }

  /** The mask of a cell `h` rows high reads rows `0 .. h - 1` only. */
  lemma SrcMaskFrame(rows: seq<seq<int>>, rows': seq<seq<int>>, h: nat)
    requires |rows| == RowCount && |rows'| == RowCount && h <= RowCount
    requires forall k :: 0 <= k < h ==> rows[k] == rows'[k]
    ensures SrcMask(rows, h) == SrcMask(rows', h)
  {
    forall j | 0 <= j < TileSize * h ensures j / TileSize < h {
      DivMono(j, TileSize * h - 1, TileSize);
      DivModUnique(h - 1, TileSize, TileSize - 1);
    }
  }

  /** Sorting rows `0 .. h - 1` only leaves those rows as sorting them all does. */
  lemma SortedRowsPrefix(rows: seq<seq<int>>, h: nat)
    requires h <= |rows|
    ensures |SortedRows(rows[..h]) + rows[h..]| == |rows|
    ensures forall k :: 0 <= k < h ==> (SortedRows(rows[..h]) + rows[h..])[k] == SortedRows(rows)[k]
  {
  }

  /** The state of `render_tile`'s row loop after rows `0 .. y - 1` of the
      node rows `rows`: those rows sorted as `done`, the others as they were,
      and the cleared bytes `b0` with the rendered rows filled in. */
  predicate SrcLinesDone(rows: seq<seq<int>>, y: nat, done: seq<seq<int>>, b0: seq<int>, cur: seq<seq<int>>, b: seq<int>)
  {
    |rows| == RowCount && y <= RowCount && |done| == y
    && done == SortedRows(rows[..y]) && cur == done + rows[y..]
    && b == MaskDone(b0, cur, y)
  }

  /** Edge `i` of a contour as `build_nodes` forms it: both points scaled to
      sub-samples less the cell origin `tb`; its x extent stays within 32 bits. */
  lemma SrcCellEdge(q: seq<Point>, aa: Level, tb: Rect, i: nat, lx: int, ly: int, x: int, y: int)
    requires i < |q|
    requires var j := if i == 0 then |q| - 1 else i - 1;
      -0x1000_0000 < q[i].x < 0x1000_0000 && -0x1000_0000 < q[j].x < 0x1000_0000
      && lx == q[j].x * Scale(aa) - tb.x && ly == q[j].y * Scale(aa) - tb.y
      && x == q[i].x * Scale(aa) - tb.x && y == q[i].y * Scale(aa) - tb.y
    ensures ContourEdges(CellSpace(q, aa, tb))[i] == (Point(lx, ly), Point(x, y))
    ensures -0x8000_0000 < x - lx < 0x8000_0000
  {
    var j := if i == 0 then |q| - 1 else i - 1;
    var S := Scale(aa);
    var sq := ScalePoints(q, aa);
    assert sq[i] == Point(q[i].x * S, q[i].y * S) && sq[j] == Point(q[j].x * S, q[j].y * S);
    ScaledDifference(q[i].x - q[j].x, aa);
    assert (q[i].x - q[j].x) * S == q[i].x * S - q[j].x * S;
  }

  class SrcRasterizer {
    /** `clip` */
    var clip: Rect
    /** `tile_callback`, as an opaque id. */
    var callback: nat
    /** `antialias` */
    var antialias: Level
    /** `nodes` and `node_counts` */
    const table: NodeTable
    /** `draw_polygon`'s static `tile_buffer[32][32]` */
    const tileBuffer: array<int>
    /** Every tile handed to the callback, in call order. */
    ghost var log: seq<Tile>

    ghost predicate Valid()
      reads table, table.nodes, table.counts, tileBuffer
    {
      table.Valid() && tileBuffer != table.counts && tileBuffer.Length == TileBufferSize
    }

    /** The initialised globals: clip `(0, 0, 320, 240)`, 4x anti-aliasing,
        empty node rows and a zero buffer. */
    constructor ()
      ensures Valid() && fresh(table) && fresh(tileBuffer)
      ensures clip == Rect(0, 0, 320, 240) && callback == 0 && antialias == 2
      ensures forall y :: 0 <= y < RowCount ==> table.rows[y] == []
      ensures forall j :: 0 <= j < tileBuffer.Length ==> tileBuffer[j] == 0
      ensures log == []
    {
      clip := Rect(0, 0, 320, 240);
      callback := 0;
      antialias := 2;
      table := new NodeTable();
      tileBuffer := new int[TileBufferSize](_ => 0);
      log := [];
    }

    /** `set_options`: stores the callback and nothing else. */
    method SetOptions(cb: nat)
      modifies this`callback
      ensures callback == cb
    {
      callback := cb;
    }

    // ----- add_line_segment_to_nodes and build_nodes -----

    /** `add_line_segment_to_nodes` for a segment already in the cell's
        sub-sample coordinates: put it in downward order and walk it. Every
        row gains the segment's nodes, clamped to the 32 sub-sample width. */
    method AddLineSegmentToNodes(sx: int, sy: int, ex: int, ey: int)
      requires Valid() && -0x8000_0000 < ex - sx < 0x8000_0000
      requires forall r :: 0 <= r < RowCount && Crosses(Point(sx, sy), Point(ex, ey), r) ==> |table.rows[r]| < Capacity
      modifies table, table.nodes, table.counts
      ensures Valid()
      ensures forall r :: 0 <= r < RowCount ==>
        table.rows[r] == old(table.rows[r]) + EdgeNodes(Point(sx, sy), Point(ex, ey), TileSize, r)
    {
      var x0, y0, x1, y1 := sx, sy, ex, ey;
      if y1 < y0 {
        y0, y1 := y1, y0;
        x0, x1 := x1, x0;
      }
      WalkSegment(table, x0, y0, x1, y1, TileSize);
    }

    /** One pass of `build_nodes`' loop: the segment from `(lx, ly)` to
        `(x, y)` is edge `i` of `es`, and the rows, `base` plus the nodes of
        the edges before it, gain its nodes. */
    method AddEdge(lx: int, ly: int, x: int, y: int, ghost es: seq<(Point, Point)>, ghost i: nat, ghost base: seq<seq<int>>)
      requires Valid() && i < |es| && |base| == RowCount
      requires es[i] == (Point(lx, ly), Point(x, y)) && -0x8000_0000 < x - lx < 0x8000_0000
      requires EdgesAdded(base, table.rows, es, i, TileSize)
      requires forall r :: 0 <= r < RowCount ==> |base[r]| + |NodesOf(es, TileSize, r)| <= Capacity
      modifies table, table.nodes, table.counts
      ensures Valid()
      ensures EdgesAdded(base, table.rows, es, i + 1, TileSize)
    {
      forall r | 0 <= r < RowCount
        ensures NodesOf(es[..i + 1], TileSize, r) == NodesOf(es[..i], TileSize, r) + EdgeNodes(es[i].0, es[i].1, TileSize, r)
        ensures |NodesOf(es[..i + 1], TileSize, r)| <= |NodesOf(es, TileSize, r)|
      {
        NodesOfStep(es, i, TileSize, r);
      }
      AddLineSegmentToNodes(lx, ly, x, y);
    }

    /** `build_nodes` for the clipped cell `tb`: every point is scaled to
        sub-samples and moved by the cell origin, and the edges are walked,
        starting with the closing edge from the last point. Every row gains
        the contour's nodes in edge order. */
    method BuildNodes(c: seq<int>, tb: Rect)
      requires Valid() && WellFormed(c)
      requires XInRange([PointsOf(c)])
      requires forall r :: 0 <= r < RowCount ==> |table.rows[r]| + |SrcContourRow(PointsOf(c), antialias, tb, r)| <= Capacity
      modifies table, table.nodes, table.counts
      ensures Valid()
      ensures forall r :: 0 <= r < RowCount ==>
        table.rows[r] == old(table.rows[r]) + SrcContourRow(PointsOf(c), antialias, tb, r)
    {
      ghost var q := PointsOf(c);
      ghost var es := ContourEdges(CellSpace(q, antialias, tb));
      ghost var base := table.rows;
      var S := Scale(antialias);
      var n := |c|;
      PointAt(c, |q| - 1, n - 2);
      var lx := c[n - 2] * S - tb.x;
      var ly := c[n - 1] * S - tb.y;
      var i := 0;
      ghost var k, j := 0, |q| - 1;
      while i < n
        invariant 0 <= k <= |q| && i == 2 * k && Valid()
        invariant j == if k == 0 then |q| - 1 else k - 1
        invariant lx == q[j].x * S - tb.x && ly == q[j].y * S - tb.y
        invariant EdgesAdded(base, table.rows, es, k, TileSize)
      {
        PointAt(c, k, i);
        var x := c[i] * S - tb.x;
        var y := c[i + 1] * S - tb.y;
        XInRangeAt(q, k);
        XInRangeAt(q, j);
        SrcCellEdge(q, antialias, tb, k, lx, ly, x, y);
        AddEdge(lx, ly, x, y, es, k, base);
        lx, ly := x, y;
        i, k, j := i + 2, k + 1, k;
      }
      EdgesAddedAll(base, table.rows, es, TileSize);
    }

    /** `draw_polygon`'s loop over the contours, `build_nodes` for each,
        starting from an empty node table: the rows end up as the cell's
        node rows, contour by contour. */
    method BuildContours(cs: seq<seq<int>>, tb: Rect)
      requires Valid() && AllWellFormed(cs) && XInRange(Contours(cs)) && NodeCapacity(Contours(cs), antialias)
      requires forall y :: 0 <= y < RowCount ==> table.rows[y] == []
      modifies table, table.nodes, table.counts
      ensures Valid()
      ensures table.rows == SrcRows(Contours(cs), antialias, tb)
    {
      ghost var ps := Contours(cs);
      var k := 0;
      while k < |cs|
        invariant 0 <= k <= |cs| && Valid() && ContoursNonEmpty(ps[..k])
        invariant forall y :: 0 <= y < RowCount ==> table.rows[y] == SrcPolygonRow(ps[..k], antialias, tb, y)
      {
        forall y | 0 <= y < RowCount
          ensures SrcPolygonRow(ps[..k + 1], antialias, tb, y)
               == SrcPolygonRow(ps[..k], antialias, tb, y) + SrcContourRow(ps[k], antialias, tb, y)
          ensures |SrcPolygonRow(ps[..k], antialias, tb, y)| + |SrcContourRow(ps[k], antialias, tb, y)| <= Capacity
        {
          SrcContourRoom(ps, k, antialias, tb, y);
        }
        assert [ps[k]][0] == ps[k];
        BuildNodes(cs[k], tb);
        k := k + 1;
      }
      assert ps[..|ps|] == ps;
    }

    // ----- render_tile -----

    /** `memset(tile.data, 0, tile.stride * tile.bounds.h)`: the first `n`
        bytes become 0, the rest are untouched. */
    method ClearBytes(n: int)
      requires Valid() && 0 <= n <= TileBufferSize
      modifies tileBuffer
      ensures Valid()
      ensures forall j :: 0 <= j < n ==> tileBuffer[j] == 0
      ensures tileBuffer[n..] == old(tileBuffer[n..])
    {
      var j := 0;
      while j < n
        invariant 0 <= j <= n && Valid()
        invariant forall k :: 0 <= k < j ==> tileBuffer[k] == 0
        invariant tileBuffer[n..] == old(tileBuffer[n..])
      {
        tileBuffer[j] := 0;
        j := j + 1;
      }
    }

    /** The span loop of `render_tile`: `count = ex - sx` bytes from
        `base + sx` on are set to 1. */
    method FillSpan(base: int, sx: int, ex: int)
      requires Valid() && 0 <= base + sx && sx <= ex && base + ex <= TileBufferSize
      modifies tileBuffer
      ensures Valid()
      ensures forall j :: 0 <= j < tileBuffer.Length ==>
        tileBuffer[j] == if base + sx <= j < base + ex then 1 else old(tileBuffer[j])
    {
      var p := base + sx;
      var count := ex - sx;
      while count > 0
        invariant base + sx <= p <= base + ex && count == base + ex - p && Valid()
        invariant forall j :: 0 <= j < tileBuffer.Length ==>
          tileBuffer[j] == if base + sx <= j < p then 1 else old(tileBuffer[j])
      {
        tileBuffer[p] := 1;
        p, count := p + 1, count - 1;
      }
    }

    /** One pass of the pair loop of `render_tile`: pair `n` of the sorted
        row `y` is filled into the buffer row `32 * y` unless it is
        degenerate. */
    method FillPair(y: int, i: nat, ghost n: nat, ghost b0: seq<int>)
      requires Valid() && 0 <= y < RowCount && i == 2 * n
      requires 2 * n + 2 <= |table.rows[y]| && Sorted(table.rows[y])
      requires forall i :: 0 <= i < |table.rows[y]| ==> 0 <= table.rows[y][i] <= TileSize
      requires tileBuffer[..] == RowFilled(b0, table.rows[y], n, TileSize * y)
      modifies tileBuffer
      ensures Valid()
      ensures tileBuffer[..] == RowFilled(b0, table.rows[y], n + 1, TileSize * y)
    {
      ghost var row := table.rows[y];
      ghost var b1 := tileBuffer[..];
      var sx := table.nodes[y, i];
      var ex := table.nodes[y, i + 1];
      assert row[2 * n] <= row[2 * n + 1];
      if sx != ex {
        FillSpan(TileSize * y, sx, ex);
      }
      ghost var want := RowFilled(b0, row, n + 1, TileSize * y);
      forall j | 0 <= j < |b0| ensures tileBuffer[j] == want[j] {
        RowFilledStep(b0, row, n, TileSize * y, j);
        assert b1[j] == RowFilled(b0, row, n, TileSize * y)[j];
      }
      assert tileBuffer[..] == want;
    }

    /** The pair loop of `render_tile` for the sorted row `y`: the covered
        sub-samples of buffer row `32 * y` are set to 1. */
    method FillRow(y: int)
      requires Valid() && 0 <= y < RowCount
      requires |table.rows[y]| % 2 == 0 && Sorted(table.rows[y])
      requires forall i :: 0 <= i < |table.rows[y]| ==> 0 <= table.rows[y][i] <= TileSize
      modifies tileBuffer
      ensures Valid()
      ensures tileBuffer[..] == RowFilled(old(tileBuffer[..]), table.rows[y], |table.rows[y]| / 2, TileSize * y)
    {
      ghost var row := table.rows[y];
      ghost var b0 := tileBuffer[..];
      RowFilledNone(b0, row, TileSize * y);
      var i := 0;
      ghost var n: nat := 0;
      while i < table.counts[y]
        invariant 0 <= i <= |row| && i == 2 * n && Valid()
        invariant tileBuffer[..] == RowFilled(b0, row, n, TileSize * y)
      {
        FillPair(y, i, n, b0);
        i, n := i + 2, n + 1;
      }
    }

    /** One row of `render_tile`: an empty row is skipped, any other is
        sorted and its pairs filled into buffer row `32 * y`. */
    method RenderLine(y: int)
      requires Valid() && 0 <= y < RowCount && |table.rows[y]| % 2 == 0
      requires forall i :: 0 <= i < |table.rows[y]| ==> 0 <= table.rows[y][i] <= TileSize
      modifies table, table.nodes, tileBuffer
      ensures Valid()
      ensures table.rows == old(table.rows)[y := SortSeq(old(table.rows[y]))]
      ensures tileBuffer[..] == RowFilled(old(tileBuffer[..]), SortSeq(old(table.rows[y])), |old(table.rows[y])| / 2, TileSize * y)
    {
      if table.counts[y] == 0 {
        assert SortSeq(table.rows[y]) == [] && table.rows == table.rows[y := []];
        RowFilledNone(tileBuffer[..], [], TileSize * y);
      } else {
        SortSeqBounds(table.rows[y], 0, TileSize);
        SortSeqSpec(table.rows[y]);
        table.SortRow(y);
        FillRow(y);
      }
    }

    /** One pass of `render_tile`'s row loop, stated against the rows as
        built (`rows`) and the rows already rendered (`done`). */
    method RenderNextLine(y: int, ghost rows: seq<seq<int>>, ghost done: seq<seq<int>>, ghost b0: seq<int>)
      returns (ghost done': seq<seq<int>>)
      requires Valid() && 0 <= y < RowCount
      requires SrcLinesDone(rows, y, done, b0, table.rows, tileBuffer[..])
      requires |rows[y]| % 2 == 0 && forall i :: 0 <= i < |rows[y]| ==> 0 <= rows[y][i] <= TileSize
      modifies table, table.nodes, tileBuffer
      ensures Valid()
      ensures SrcLinesDone(rows, y + 1, done', b0, table.rows, tileBuffer[..])
    {
      ghost var row := SortSeq(rows[y]);
      ghost var cur := table.rows;
      assert cur[y] == rows[y];
      RenderLine(y);
      ghost var cur' := table.rows;
      assert cur' == cur[y := row];
      MaskDoneFrame(b0, cur, cur', y);
      MaskDoneStep(b0, cur', y);
      RowsUpdate(done, rows, row);
      SortedRowsSnoc(rows, y);
      done' := done + [row];
    }

    /** `render_tile` for a cell `h` rows high: the first `32 * h` bytes are
        cleared, rows `0 .. h - 1` sorted, and those bytes become the mask
        of the sorted rows; rows below the cell and later bytes are untouched. */
    method RenderTile(h: int)
      requires Valid() && 0 <= h <= RowCount
      requires forall y :: 0 <= y < RowCount ==> |table.rows[y]| % 2 == 0
      requires RowsInRange(table.rows, TileSize)
      modifies table, table.nodes, tileBuffer
      ensures Valid()
      ensures table.rows == SortedRows(old(table.rows)[..h]) + old(table.rows)[h..]
      ensures tileBuffer[..TileSize * h] == SrcMask(table.rows, h)
      ensures tileBuffer[TileSize * h..] == old(tileBuffer[TileSize * h..])
    {
      ghost var rows := table.rows;
      ghost var old' := tileBuffer[..];
      ClearBytes(TileSize * h);
      ghost var b0 := tileBuffer[..];
      ghost var done: seq<seq<int>> := [];
      assert MaskDone(b0, table.rows, 0) == b0;
      var y := 0;
      while y < h
        invariant 0 <= y <= h && Valid()
        invariant SrcLinesDone(rows, y, done, b0, table.rows, tileBuffer[..])
      {
        assert rows[y] == table.rows[y];
        done := RenderNextLine(y, rows, done, b0);
        y := y + 1;
      }
      MaskDoneIsMask(b0, table.rows, h);
      assert b0[TileSize * h..] == old'[TileSize * h..];
    }

    // ----- draw_polygon -----

    /** The body of `draw_polygon`'s tile loops for the cell at `(cx, cy)`:
        clip it by the clip rect in sub-samples, skip it when it has no
        width or no height, otherwise clear the node counts, build every
        contour's nodes, render them and hand the tile to the callback. */
    method DrawTile(cs: seq<seq<int>>, cx: int, cy: int)
      requires Valid() && AllWellFormed(cs) && XInRange(Contours(cs)) && NodeCapacity(Contours(cs), antialias)
      modifies this`log, table, table.nodes, table.counts, tileBuffer
      ensures Valid()
      ensures log == old(log) + SrcCellTile(Contours(cs), antialias, clip, cx, cy)
    {
      ghost var ps := Contours(cs);
      var S := Scale(antialias);
      var tb := RectIntersection(Rect(cx, cy, TileSize, TileSize), Rect(clip.x * S, clip.y * S, clip.w * S, clip.h * S));
      assert tb == SrcClippedCell(antialias, clip, cx, cy);
      if tb.w == 0 || tb.h == 0 {
        assert SrcCellTile(ps, antialias, clip, cx, cy) == [];
        return;
      }
      table.Clear();
      BuildContours(cs, tb);
      ghost var rows := table.rows;
      forall y | 0 <= y < RowCount ensures |rows[y]| % 2 == 0 {
        SrcPolygonRowEven(ps, antialias, tb, y);
      }
      RenderTile(tb.h);
      SortedRowsPrefix(rows, tb.h);
      SrcMaskFrame(table.rows, SortedRows(rows), tb.h);
      log := log + [Tile(tb, TileSize, tileBuffer[..TileSize * tb.h], 0)];
    }

    /** One pass of `draw_polygon`'s inner loop: the cell at `(x, y)` of a
        band whose tiles up to `x` are `done`. */
    method DrawCell(cs: seq<seq<int>>, pb: Rect, y: int, x: int, ghost cell: (int, int) -> seq<Tile>,
                    ghost aa: Level, ghost cl: Rect, ghost log0: seq<Tile>, ghost done: seq<Tile>)
      returns (ghost done': seq<Tile>)
      requires Valid() && aa == antialias && cl == clip
      requires AllWellFormed(cs) && XInRange(Contours(cs)) && NodeCapacity(Contours(cs), aa)
      requires SrcCellsOf(cell, Contours(cs), aa, cl)
      requires x < pb.x + pb.w && log == log0 + done && BandProgress(cell, pb, TileSize, y, x, done)
      modifies this`log, table, table.nodes, table.counts, tileBuffer
      ensures Valid() && antialias == aa && clip == cl
      ensures log == log0 + done' && BandProgress(cell, pb, TileSize, y, x + TileSize, done')
    {
      ghost var t := SrcCellTile(Contours(cs), aa, cl, x, y);
      assert cell(x, y) == t;
      ghost var next := ColumnsFrom(cell, pb, TileSize, y, x + TileSize);
      ColumnsFromStep(cell, pb, TileSize, y, x);
      AppendAssoc(done, t, next);
      AppendAssoc(log0, done, t);
      DrawTile(cs, x, y);
      done' := done + t;
    }

    /** `draw_polygon`'s inner loop: the cells of the band at `y`, from the
        left edge of the bounds `pb`, 32 sub-samples at a time. */
    method DrawBand(cs: seq<seq<int>>, pb: Rect, y: int, ghost cell: (int, int) -> seq<Tile>)
      requires Valid() && AllWellFormed(cs) && XInRange(Contours(cs)) && NodeCapacity(Contours(cs), antialias)
      requires SrcCellsOf(cell, Contours(cs), antialias, clip)
      modifies this`log, table, table.nodes, table.counts, tileBuffer
      ensures Valid() && antialias == old(antialias) && clip == old(clip)
      ensures log == old(log) + ColumnsFrom(cell, pb, TileSize, y, pb.x)
    {
      ghost var aa, cl, log0 := antialias, clip, log;
      var x := pb.x;
      ghost var done: seq<Tile> := [];
      assert BandProgress(cell, pb, TileSize, y, x, done);
      while x < pb.x + pb.w
        invariant Valid() && antialias == aa && clip == cl && log == log0 + done
        invariant BandProgress(cell, pb, TileSize, y, x, done)
        decreases pb.x + pb.w - x
      {
        done := DrawCell(cs, pb, y, x, cell, aa, cl, log0, done);
        x := x + TileSize;
      }
      ColumnsFromEnd(cell, pb, TileSize, y, x);
      PrefixOfWhole(done, ColumnsFrom(cell, pb, TileSize, y, x), ColumnsFrom(cell, pb, TileSize, y, pb.x));
    }

    /** `draw_polygon`'s outer loop: the bands of the bounds `pb`, from its
        top edge, 32 sub-samples at a time. */
    method DrawBands(cs: seq<seq<int>>, pb: Rect, ghost cell: (int, int) -> seq<Tile>)
      requires Valid() && AllWellFormed(cs) && XInRange(Contours(cs)) && NodeCapacity(Contours(cs), antialias)
      requires SrcCellsOf(cell, Contours(cs), antialias, clip)
      modifies this`log, table, table.nodes, table.counts, tileBuffer
      ensures Valid() && antialias == old(antialias) && clip == old(clip)
      ensures log == old(log) + BandsFrom(cell, pb, TileSize, TileSize, pb.y)
    {
      ghost var aa, cl, log0 := antialias, clip, log;
      var y := pb.y;
      ghost var done: seq<Tile> := [];
      assert BandsProgress(cell, pb, TileSize, TileSize, y, done);
      while y < pb.y + pb.h
        invariant Valid() && antialias == aa && clip == cl && log == log0 + done
        invariant BandsProgress(cell, pb, TileSize, TileSize, y, done)
        decreases pb.y + pb.h - y
      {
        ghost var band := ColumnsFrom(cell, pb, TileSize, y, pb.x);
        ghost var rest := BandsFrom(cell, pb, TileSize, TileSize, y + TileSize);
        BandsFromStep(cell, pb, TileSize, TileSize, y);
        AppendAssoc(done, band, rest);
        AppendAssoc(log0, done, band);
        DrawBand(cs, pb, y, cell);
        done := done + band;
        y := y + TileSize;
      }
      BandsFromEnd(cell, pb, TileSize, TileSize, y);
      PrefixOfWhole(done, BandsFrom(cell, pb, TileSize, TileSize, y), BandsFrom(cell, pb, TileSize, TileSize, pb.y));
    }

    /** `draw_polygon(std::vector<contour_t>)` with every point of every
        contour read for the bounds: the bounds are scaled to sub-samples
        and the callback receives the tile of every cell of them that the
        clip leaves non-empty, in raster order. */
    method DrawPolygon(cs: seq<seq<int>>)
      requires Valid() && |cs| >= 1 && AllWellFormed(cs)
      requires XInRange(Contours(cs)) && NodeCapacity(Contours(cs), antialias)
      modifies this`log, table, table.nodes, table.counts, tileBuffer
      ensures Valid() && antialias == old(antialias) && clip == old(clip)
      ensures log == old(log) + SrcPolygonTiles(cs, antialias, clip)
    {
      var r := SrcBounds.PolygonBounds(cs);
      var S := Scale(antialias);
      var minx, miny, maxx, maxy := r.x * S, r.y * S, (r.x + r.w) * S, (r.y + r.h) * S;
      var pb := Rect(minx, miny, maxx - minx, maxy - miny);
      assert pb == ScaledRect(PolygonBox(Contours(cs)), antialias);
      ghost var cell := SrcCellTiles(Contours(cs), antialias, clip);
      SrcCellTilesAreCells(Contours(cs), antialias, clip);
      DrawBands(cs, pb, cell);
    }

    /** `draw_polygon(T *points, unsigned count)`: one contour, drawn as a
        polygon of that contour alone. */
    method DrawContour(c: seq<int>)
      requires Valid() && WellFormed(c)
      requires XInRange(Contours([c])) && NodeCapacity(Contours([c]), antialias)
      modifies this`log, table, table.nodes, table.counts, tileBuffer
      ensures Valid()
      ensures log == old(log) + SrcPolygonTiles([c], antialias, clip)
    {
      DrawPolygon([c]);
    }
  }
}
