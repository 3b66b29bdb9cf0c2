/**
  The rasteriser of the C++ header `pretty-poly.hpp` as a class over its
  globals: `settings::clip`, `settings::callback`, `settings::antialias`,
  `tile_bounds`, the node table and the 1024-byte `tile_buffer`. The callback
  is recorded in the ghost `log`. Every method is proved against the
  functions of `HppGeometry`, `PrettyPolyRender` and `Coverage`.

  Compared with `pretty-poly.h` the walker has no jump and no early exits,
  the span code adds one to the byte of every sub-sample it covers, and
  `draw_polygon` hands each clipped cell to the callback whole, without
  trimming it to the rendered bounds.
*/
module HppRaster {
  import opened ScanMath
  import opened Edges
  import opened Coverage
  import opened NodeRows
  import opened PrettyPolyGeometry
  import opened PrettyPolyNodes
  import opened PrettyPolyRender
  import opened PrettyPolyRaster
  import opened SegmentWalk
  import opened HppGeometry

  /** Scaling by `1 << aa` keeps the order of two coordinates. */
  lemma ScaleOrder(a: int, b: int, aa: Level)
    ensures a <= b ==> a * Scale(aa) <= b * Scale(aa)
    ensures a < b ==> a * Scale(aa) < b * Scale(aa)
  {
    if a <= b {
      MulMono(a, b, Scale(aa));
    }
    if a < b {
      MulMono(a + 1, b, Scale(aa));
    }
  }

  /** One more sub-sample `x` of a span adds one to the byte of its pixel,
      `(x >> aa) + base`, which lies in the pixel row. */
  lemma SpanAddedStep(sx: int, x: int, aa: Level, base: int, w: int, j: int)
    requires 0 <= sx <= x < w * Scale(aa)
    ensures 0 <= x / Scale(aa) < w
    ensures SpanAdded(sx, x + 1, aa, base, w, j) ==
      SpanAdded(sx, x, aa, base, w, j) + (if j == base + x / Scale(aa) then 1 else 0)
  {
    var S := Scale(aa);
    SpanCoverStep(sx, x, aa, j - base);
    DivMono(x, w * S - 1, S);
    DivModUnique(w - 1, S, S - 1);
    assert w * S - 1 == (w - 1) * S + (S - 1);
  }

  /** `for (x = sx; x < ex; x++) data[(x >> aa) + (y >> aa) * stride]++` on
      the pixel row starting at `base`: every byte gains the span's
      sub-sample coverage of its pixel. */
  method CountSpan(buf: array<int>, base: int, sx: int, ex: int, aa: Level, w: int)
    requires 0 <= sx <= ex <= w * Scale(aa) && 0 <= base && base + w <= buf.Length
    modifies buf
    ensures forall j :: 0 <= j < buf.Length ==> buf[j] == old(buf[j]) + SpanAdded(sx, ex, aa, base, w, j)
  {
    var x := sx;
    while x < ex
      invariant sx <= x <= ex
      invariant forall j :: 0 <= j < buf.Length ==> buf[j] == old(buf[j]) + SpanAdded(sx, x, aa, base, w, j)
    {
      forall j | 0 <= j < buf.Length
        ensures SpanAdded(sx, x + 1, aa, base, w, j) ==
          SpanAdded(sx, x, aa, base, w, j) + (if j == base + x / Scale(aa) then 1 else 0)
      {
        SpanAddedStep(sx, x, aa, base, w, j);
      }
      SpanAddedStep(sx, x, aa, base, w, 0);
      var p := x / Scale(aa) + base;
      buf[p] := buf[p] + 1;
      x := x + 1;
    }
  }

  /** The state of `render_nodes`' row loop after the first `y` of the node
      rows `rows`: those rows sorted as `done`, the rest as they were, and
      the bytes `b0` with the coverage of `done` added. */
  predicate HppLinesDone(rows: seq<seq<int>>, y: nat, done: seq<seq<int>>, aa: Level, stride: int,
                         b0: seq<int>, cur: seq<seq<int>>, b: seq<int>)
  {
    y <= |rows| && |done| == y && stride > 0
    && done == SortedRows(rows[..y]) && cur == done + rows[y..]
    && b == CoverAdded(b0, done, aa, stride)
  }

  /** A buffer cleared to 0 and then rendered holds exactly the coverage. */
  lemma HppBufferIsCover(b0: seq<int>, rows: seq<seq<int>>, aa: Level, stride: int)
    requires stride > 0 && |b0| == TileBufferSize
    requires forall j :: 0 <= j < |b0| ==> b0[j] == 0
    ensures CoverAdded(b0, rows, aa, stride) == HppBuffer(rows, aa, stride)
  {
  }

  /** The tile of a clipped cell that `rect_t::empty` does not skip. */
  lemma HppCellTileOf(ps: seq<seq<Point>>, aa: Level, clip: Rect, cx: int, cy: int, tb: Rect)
    requires ContoursNonEmpty(ps) && tb == HppClippedCell(aa, clip, cx, cy)
    ensures HppEmpty(tb) ==> HppCellTile(ps, aa, clip, cx, cy) == []
    ensures !HppEmpty(tb) ==>
      HppCellTile(ps, aa, clip, cx, cy) == [Tile(tb, TileBoundsFor(aa).w, HppBuffer(TileRows(ps, aa, tb), aa, TileBoundsFor(aa).w), 0)]
  {
  }

  /** Edge `i` of a contour moved into the cell `tb` and scaled, as
      `build_nodes` and `add_line_segment_to_nodes` form it: its points less
      the cell origin, then scaled; its x extent stays within 30 bits. */
  lemma CellEdge(q: seq<Point>, aa: Level, tb: Rect, i: nat, lx: int, ly: int, x: int, y: int)
    requires i < |q|
    requires var j := if i == 0 then |q| - 1 else i - 1;
      -0x1000_0000 < q[i].x < 0x1000_0000 && -0x1000_0000 < q[j].x < 0x1000_0000
      && lx == q[j].x - tb.x && ly == q[j].y - tb.y && x == q[i].x - tb.x && y == q[i].y - tb.y
    ensures ContourEdges(TileSpace(q, aa, tb.x, tb.y))[i]
         == (Point(lx * Scale(aa), ly * Scale(aa)), Point(x * Scale(aa), y * Scale(aa)))
    ensures -0x2000_0000 < x - lx < 0x2000_0000
  {
    var j := if i == 0 then |q| - 1 else i - 1;
    var S := Scale(aa);
    TileSpacePoint(q, aa, tb.x, tb.y, i, j);
    TileSpacePoint(q, aa, tb.x, tb.y, j, j);
    assert lx * S == q[j].x * S - tb.x * S && ly * S == q[j].y * S - tb.y * S;
    assert x * S == q[i].x * S - tb.x * S && y * S == q[i].y * S - tb.y * S;
  }

  class HppRasterizer {
    /** `settings::clip` */
    var clip: Rect
    /** `settings::callback`, as an opaque id. */
    var callback: nat
    /** `settings::antialias` */
    var antialias: Level
    /** `tile_bounds` */
    var tileBounds: Rect
    /** `nodes` and `node_counts` */
    const table: NodeTable
    /** `tile_buffer`, 1024 bytes */
    const tileBuffer: array<int>
    /** Every tile handed to the callback, in call order. */
    ghost var log: seq<Tile>

    ghost predicate Valid()
      reads this`antialias, this`tileBounds, table, table.nodes, table.counts, tileBuffer
    {
      table.Valid() && tileBuffer != table.counts && tileBuffer.Length == TileBufferSize
      && tileBounds == TileBoundsFor(antialias)
    }

    /** `tile_bounds.w << settings::antialias`: the tile width in sub-samples. */
    function FullWidth(): nat
      reads this
      requires tileBounds.w >= 0
    {
      tileBounds.w * Scale(antialias)
    }

    /** The initialised globals: clip `(0, 0, 320, 240)`, no anti-aliasing,
        a 32 by 32 tile, empty node rows and a zero buffer. */
    constructor ()
      ensures Valid() && fresh(table) && fresh(tileBuffer)
      ensures clip == Rect(0, 0, 320, 240) && callback == 0 && antialias == 0
      ensures tileBounds == Rect(0, 0, 32, 32)
      ensures forall y :: 0 <= y < RowCount ==> table.rows[y] == []
      ensures forall j :: 0 <= j < tileBuffer.Length ==> tileBuffer[j] == 0
      ensures log == []
    {
      clip := Rect(0, 0, 320, 240);
      callback := 0;
      antialias := 0;
      tileBounds := Rect(0, 0, TileBufferSize / RowCount, RowCount);
      table := new NodeTable();
      tileBuffer := new int[TileBufferSize](_ => 0);
      log := [];
    }

    /** `set_options`: stores the callback, the level and the clip, and
        resizes the tile to `32 >> aa` rows of `1024 / (32 >> aa)` pixels, so
        that its sub-sample rows fill the node table and its pixels the buffer. */
    method SetOptions(cb: nat, aa: Level, c: Rect)
      requires Valid()
      modifies this`callback, this`antialias, this`clip, this`tileBounds
      ensures Valid()
      ensures callback == cb && antialias == aa && clip == c
      ensures tileBounds.w * tileBounds.h == TileBufferSize && tileBounds.h * Scale(aa) == RowCount
    {
      callback := cb;
      antialias := aa;
      clip := c;
      var tileHeight := RowCount / Scale(aa);
      tileBounds := Rect(0, 0, TileBufferSize / tileHeight, tileHeight);
      assert tileBounds == TileBoundsFor(aa);
    }

    // ----- add_line_segment_to_nodes and build_nodes -----

    /** `add_line_segment_to_nodes` for a segment given in the tile's pixel
        coordinates: put it in downward order, scale it to sub-samples
        (`<<= aa`) and walk it. Every row gains the scaled segment's nodes,
        clamped to the tile width in sub-samples. */
    method AddLineSegmentToNodes(sx: int, sy: int, ex: int, ey: int)
      requires Valid() && -0x2000_0000 < ex - sx < 0x2000_0000
      requires forall r ::
        (0 <= r < RowCount && Crosses(Point(sx * Scale(antialias), sy * Scale(antialias)), Point(ex * Scale(antialias), ey * Scale(antialias)), r))
        ==> |table.rows[r]| < Capacity
      modifies table, table.nodes, table.counts
      ensures Valid()
      ensures forall r :: 0 <= r < RowCount ==>
        table.rows[r] == old(table.rows[r]) + EdgeNodes(Point(sx * Scale(antialias), sy * Scale(antialias)), Point(ex * Scale(antialias), ey * Scale(antialias)), FullWidth(), r)
    {
      var S := Scale(antialias);
      var x0, y0, x1, y1 := sx, sy, ex, ey;
      if y1 < y0 {
        y0, y1 := y1, y0;
        x0, x1 := x1, x0;
      }
      ScaleOrder(y0, y1, antialias);
      ScaleOrder(ey, sy, antialias);
      ScaledDifference(x1 - x0, antialias);
      assert (x1 - x0) * S == x1 * S - x0 * S;
      x0, x1, y0, y1 := x0 * S, x1 * S, y0 * S, y1 * S;
      WalkSegment(table, x0, y0, x1, y1, FullWidth());
    }

    /** One pass of `build_nodes`' loop: the segment from `(lx, ly)` to
        `(x, y)`, scaled, is edge `i` of `es`, and the rows, `base` plus the
        nodes of the edges before it, gain its nodes. */
    method AddEdge(lx: int, ly: int, x: int, y: int, ghost es: seq<(Point, Point)>, ghost i: nat, ghost base: seq<seq<int>>)
      requires Valid() && i < |es| && |base| == RowCount
      requires es[i] == (Point(lx * Scale(antialias), ly * Scale(antialias)), Point(x * Scale(antialias), y * Scale(antialias)))
      requires -0x2000_0000 < x - lx < 0x2000_0000
      requires EdgesAdded(base, table.rows, es, i, FullWidth())
      requires forall r :: 0 <= r < RowCount ==> |base[r]| + |NodesOf(es, FullWidth(), r)| <= Capacity
      modifies table, table.nodes, table.counts
      ensures Valid()
      ensures EdgesAdded(base, table.rows, es, i + 1, FullWidth())
    {
      ghost var fw := FullWidth();
      forall r | 0 <= r < RowCount
        ensures NodesOf(es[..i + 1], fw, r) == NodesOf(es[..i], fw, r) + EdgeNodes(es[i].0, es[i].1, fw, r)
        ensures |NodesOf(es[..i + 1], fw, r)| <= |NodesOf(es, fw, r)|
      {
        NodesOfStep(es, i, fw, r);
      }
      AddLineSegmentToNodes(lx, ly, x, y);
    }

    /** `build_nodes` for the clipped cell `tb`: every point is moved so the
        cell's origin is `(0, 0)` and the edges are walked, starting with the
        closing edge from the last point. Every row gains the contour's
        nodes in edge order. */
    method BuildNodes(c: seq<int>, tb: Rect)
      requires Valid() && WellFormed(c)
      requires XInRange([PointsOf(c)])
      requires forall r :: 0 <= r < RowCount ==>
        |table.rows[r]| + |ContourRow(PointsOf(c), antialias, tb.x, tb.y, FullWidth(), r)| <= Capacity
      modifies table, table.nodes, table.counts
      ensures Valid()
      ensures forall r :: 0 <= r < RowCount ==>
        table.rows[r] == old(table.rows[r]) + ContourRow(PointsOf(c), antialias, tb.x, tb.y, FullWidth(), r)
    {
      ghost var q := PointsOf(c);
      ghost var es := ContourEdges(TileSpace(q, antialias, tb.x, tb.y));
      ghost var base := table.rows;
      var n := |c|;
      PointAt(c, |q| - 1, n - 2);
      var lx := c[n - 2] - tb.x;
      var ly := c[n - 1] - tb.y;
      ghost var fw := FullWidth();
      var i := 0;
      ghost var k, j := 0, |q| - 1;
      while i < n
        invariant 0 <= k <= |q| && i == 2 * k && Valid() && fw == FullWidth()
        invariant j == if k == 0 then |q| - 1 else k - 1
        invariant lx == q[j].x - tb.x && ly == q[j].y - tb.y
        invariant EdgesAdded(base, table.rows, es, k, fw)
      {
        PointAt(c, k, i);
        var x := c[i] - tb.x;
        var y := c[i + 1] - tb.y;
        XInRangeAt(q, k);
        XInRangeAt(q, j);
        CellEdge(q, antialias, tb, k, lx, ly, x, y);
        AddEdge(lx, ly, x, y, es, k, base);
        lx, ly := x, y;
        i, k, j := i + 2, k + 1, k;
      }
      assert es[..|q|] == es;
      assert EdgesAdded(base, table.rows, es, |q|, fw);
    }

    /** `draw_polygon`'s loop over the contours, `build_nodes` for each,
        starting from an empty node table: row `y` ends up holding the nodes
        of every contour, contour by contour. */
    method BuildContours(cs: seq<seq<int>>, tb: Rect)
      requires Valid() && AllWellFormed(cs) && XInRange(Contours(cs)) && NodeCapacity(Contours(cs), antialias)
      requires forall y :: 0 <= y < RowCount ==> table.rows[y] == []
      modifies table, table.nodes, table.counts
      ensures Valid()
      ensures table.rows == PolygonRows(Contours(cs), antialias, tb.x, tb.y, FullWidth())
    {
      ghost var ps := Contours(cs);
      ghost var fw := FullWidth();
      var k := 0;
      while k < |cs|
        invariant 0 <= k <= |cs| && Valid() && fw == FullWidth() && ContoursNonEmpty(ps[..k])
        invariant forall y :: 0 <= y < RowCount ==> table.rows[y] == PolygonRow(ps[..k], antialias, tb.x, tb.y, fw, y)
      {
        forall y | 0 <= y < RowCount
          ensures PolygonRow(ps[..k + 1], antialias, tb.x, tb.y, fw, y)
               == PolygonRow(ps[..k], antialias, tb.x, tb.y, fw, y) + ContourRow(ps[k], antialias, tb.x, tb.y, fw, y)
          ensures |PolygonRow(ps[..k], antialias, tb.x, tb.y, fw, y)| + |ContourRow(ps[k], antialias, tb.x, tb.y, fw, y)| <= Capacity
        {
          ContourRoom(ps, k, antialias, tb.x, tb.y, fw, y);
        }
        BuildNodes(cs[k], tb);
        k := k + 1;
      }
      assert ps[..|ps|] == ps;
    }

    // ----- render_nodes -----

    /** One pass of the pair loop of `render_nodes`: pair `n` of the sorted
        row `y` is counted into the pixel row at `base` unless it is
        degenerate; the bytes move on from the first `n` pairs to `n + 1`. */
    method DrawPair(y: int, n: nat, base: int, w: int, ghost b0: seq<int>)
      requires Valid() && 0 <= y < RowCount && w == tileBounds.w
      requires 2 * n + 2 <= |table.rows[y]| && Sorted(table.rows[y])
      requires forall i :: 0 <= i < |table.rows[y]| ==> 0 <= table.rows[y][i] <= FullWidth()
      requires 0 <= base && base + w <= tileBuffer.Length
      requires tileBuffer[..] == PairsDrawn(b0, table.rows[y], n, antialias, base, w)
      modifies tileBuffer
      ensures Valid()
      ensures tileBuffer[..] == PairsDrawn(b0, table.rows[y], n + 1, antialias, base, w)
    {
      ghost var row := table.rows[y];
      ghost var b1 := tileBuffer[..];
      var sx := table.nodes[y, 2 * n];
      var ex := table.nodes[y, 2 * n + 1];
      if sx != ex {
        assert row[2 * n] <= row[2 * n + 1];
        CountSpan(tileBuffer, base, sx, ex, antialias, w);
      }
      PairsDrawnStep(b0, b1, tileBuffer[..], row, n, antialias, base, w);
    }

    /** The pair loop of `render_nodes` for the sorted row `y`: every byte of
        the pixel row `y >> aa` gains the row's coverage of its pixel. */
    method RenderRow(y: int)
      requires Valid() && 0 <= y < RowCount
      requires |table.rows[y]| % 2 == 0 && Sorted(table.rows[y])
      requires forall i :: 0 <= i < |table.rows[y]| ==> 0 <= table.rows[y][i] <= FullWidth()
      modifies tileBuffer
      ensures Valid()
      ensures tileBuffer[..] == LineDrawn(old(tileBuffer[..]), table.rows[y], y, antialias, tileBounds.w)
    {
      ghost var row := table.rows[y];
      ghost var b0 := tileBuffer[..];
      var w := tileBounds.w;
      var base := (y / Scale(antialias)) * w;
      RowBase(y, antialias);
      PairsDrawnNone(b0, row, antialias, base, w);
      var i := 0;
      while i < table.counts[y]
        invariant 0 <= i <= |row| && i % 2 == 0 && Valid() && w == tileBounds.w
        invariant tileBuffer[..] == PairsDrawn(b0, row, i / 2, antialias, base, w)
      {
        DrawPair(y, i / 2, base, w, b0);
        i := i + 2;
      }
      PairsToLine(b0, row, y, antialias, w);
    }

    /** One row of `render_nodes`: an empty row is skipped, any other is
        sorted and its pairs counted into the pixel row `y >> aa`. */
    method RenderLine(y: int)
      requires Valid() && 0 <= y < RowCount && |table.rows[y]| % 2 == 0
      requires forall i :: 0 <= i < |table.rows[y]| ==> 0 <= table.rows[y][i] <= FullWidth()
      modifies table, table.nodes, tileBuffer
      ensures Valid()
      ensures table.rows == old(table.rows)[y := SortSeq(old(table.rows[y]))]
      ensures tileBuffer[..] == LineDrawn(old(tileBuffer[..]), SortSeq(old(table.rows[y])), y, antialias, tileBounds.w)
    {
      if table.counts[y] == 0 {
        assert SortSeq(table.rows[y]) == [] && table.rows == table.rows[y := []];
        LineDrawnEmpty(tileBuffer[..], y, antialias, tileBounds.w);
      } else {
        SortSeqBounds(table.rows[y], 0, FullWidth());
        SortSeqSpec(table.rows[y]);
        table.SortRow(y);
        RenderRow(y);
      }
    }

    /** One pass of `render_nodes`' loop, stated against the rows as built
        (`rows`) and the rows already rendered (`done`). */
    method RenderNextLine(y: int, ghost rows: seq<seq<int>>, ghost done: seq<seq<int>>, ghost b0: seq<int>)
      returns (ghost done': seq<seq<int>>)
      requires Valid() && 0 <= y < RowCount && |rows| == RowCount
      requires |rows[y]| % 2 == 0 && forall i :: 0 <= i < |rows[y]| ==> 0 <= rows[y][i] <= FullWidth()
      requires HppLinesDone(rows, y, done, antialias, tileBounds.w, b0, table.rows, tileBuffer[..])
      modifies table, table.nodes, tileBuffer
      ensures Valid()
      ensures HppLinesDone(rows, y + 1, done', antialias, tileBounds.w, b0, table.rows, tileBuffer[..])
    {
      ghost var row := SortSeq(rows[y]);
      ghost var b1 := tileBuffer[..];
      assert table.rows[y] == rows[y];
      RenderLine(y);
      CoverStep(b0, b1, tileBuffer[..], done, row, antialias, tileBounds.w);
      RowsUpdate(done, rows, row);
      SortedRowsSnoc(rows, y);
      done' := done + [row];
    }

    /** `render_nodes`: every row ends up sorted and every byte of the tile
        buffer gains the coverage of its pixel by the sorted rows. */
    method RenderNodes()
      requires Valid()
      requires forall y :: 0 <= y < RowCount ==> |table.rows[y]| % 2 == 0
      requires RowsInRange(table.rows, FullWidth())
      modifies table, table.nodes, tileBuffer
      ensures Valid()
      ensures table.rows == SortedRows(old(table.rows))
      ensures tileBuffer[..] == CoverAdded(old(tileBuffer[..]), table.rows, antialias, tileBounds.w)
    {
      ghost var rows := table.rows;
      ghost var done: seq<seq<int>> := [];
      ghost var b0 := tileBuffer[..];
      var y := 0;
      while y < RowCount
        invariant 0 <= y <= RowCount && Valid()
        invariant HppLinesDone(rows, y, done, antialias, tileBounds.w, b0, table.rows, tileBuffer[..])
      {
        done := RenderNextLine(y, rows, done, b0);
        y := y + 1;
      }
      assert rows[..RowCount] == rows && table.rows == done;
    }

    // ----- draw_polygon -----

    /** `memset(tile.data, 0, tile_buffer_size)` */
    method ClearBuffer()
      requires Valid()
      modifies tileBuffer
      ensures Valid()
      ensures forall j :: 0 <= j < tileBuffer.Length ==> tileBuffer[j] == 0
    {
      var j := 0;
      while j < TileBufferSize
        invariant 0 <= j <= TileBufferSize && Valid()
        invariant forall k :: 0 <= k < j ==> tileBuffer[k] == 0
      {
        tileBuffer[j] := 0;
        j := j + 1;
      }
    }

    /** The body of `draw_polygon`'s tile loops for the cell at `(cx, cy)`:
        clip it, skip it when `rect_t::empty`, otherwise clear the node counts
        and the buffer, build every contour's nodes, render them and hand the
        clipped cell to the callback. */
    method DrawTile(cs: seq<seq<int>>, cx: int, cy: int)
      requires Valid() && AllWellFormed(cs) && XInRange(Contours(cs)) && NodeCapacity(Contours(cs), antialias)
      modifies this`log, table, table.nodes, table.counts, tileBuffer
      ensures Valid()
      ensures log == old(log) + HppCellTile(Contours(cs), antialias, clip, cx, cy)
    {
      ghost var ps := Contours(cs);
      var tb := RectIntersection(Rect(cx, cy, tileBounds.w, tileBounds.h), clip);
      HppCellTileOf(ps, antialias, clip, cx, cy, tb);
      if HppEmpty(tb) {
        AppendAssoc(log, [], []);
        return;
      }
      table.Clear();
      ClearBuffer();
      ghost var cleared := tileBuffer[..];
      BuildContours(cs, tb);
      ghost var fw := FullWidth();
      forall y | 0 <= y < RowCount
        ensures |PolygonRow(ps, antialias, tb.x, tb.y, fw, y)| % 2 == 0
      {
        PolygonRowEven(ps, antialias, tb.x, tb.y, fw, y);
      }
      RenderNodes();
      assert table.rows == TileRows(ps, antialias, tb);
      HppBufferIsCover(cleared, table.rows, antialias, tileBounds.w);
      log := log + [Tile(tb, tileBounds.w, tileBuffer[..], 0)];
    }

    /** One pass of `draw_polygon`'s inner loop: the cell at `(x, y)` of a
        band whose tiles up to `x` are `done`. */
    method DrawCell(cs: seq<seq<int>>, pb: Rect, y: int, x: int, w: int, ghost cell: (int, int) -> seq<Tile>,
                    ghost aa: Level, ghost cl: Rect, ghost log0: seq<Tile>, ghost done: seq<Tile>)
      returns (ghost done': seq<Tile>)
      requires Valid() && aa == antialias && cl == clip && w == tileBounds.w
      requires AllWellFormed(cs) && XInRange(Contours(cs)) && NodeCapacity(Contours(cs), aa)
      requires HppCellsOf(cell, Contours(cs), aa, cl)
      requires x < pb.x + pb.w && log == log0 + done && BandProgress(cell, pb, w, y, x, done)
      modifies this`log, table, table.nodes, table.counts, tileBuffer
      ensures Valid() && antialias == aa && clip == cl
      ensures log == log0 + done' && BandProgress(cell, pb, w, y, x + w, done')
    {
      ghost var t := HppCellTile(Contours(cs), aa, cl, x, y);
      assert cell(x, y) == t;
      ghost var next := ColumnsFrom(cell, pb, w, y, x + w);
      ColumnsFromStep(cell, pb, w, y, x);
      AppendAssoc(done, t, next);
      AppendAssoc(log0, done, t);
      DrawTile(cs, x, y);
      done' := done + t;
    }

    /** `draw_polygon`'s inner loop: the cells of the band at `y`, from the
        left edge of the polygon bounds `pb`, one tile width at a time. */
    method DrawBand(cs: seq<seq<int>>, pb: Rect, y: int, ghost cell: (int, int) -> seq<Tile>)
      requires Valid() && AllWellFormed(cs) && XInRange(Contours(cs)) && NodeCapacity(Contours(cs), antialias)
      requires HppCellsOf(cell, Contours(cs), antialias, clip)
      modifies this`log, table, table.nodes, table.counts, tileBuffer
      ensures Valid() && antialias == old(antialias) && clip == old(clip)
      ensures log == old(log) + ColumnsFrom(cell, pb, tileBounds.w, y, pb.x)
    {
      ghost var aa, cl, log0 := antialias, clip, log;
      var w := tileBounds.w;
      var x := pb.x;
      ghost var done: seq<Tile> := [];
      assert BandProgress(cell, pb, w, y, x, done);
      while x < pb.x + pb.w
        invariant Valid() && w == tileBounds.w
        invariant antialias == aa && clip == cl && log == log0 + done
        invariant BandProgress(cell, pb, w, y, x, done)
        decreases pb.x + pb.w - x
      {
        done := DrawCell(cs, pb, y, x, w, cell, aa, cl, log0, done);
        x := x + w;
      }
      ColumnsFromEnd(cell, pb, w, y, x);
      PrefixOfWhole(done, ColumnsFrom(cell, pb, w, y, x), ColumnsFrom(cell, pb, w, y, pb.x));
    }

    /** `draw_polygon`'s outer loop: the bands of the polygon bounds `pb`,
        from its top edge, one tile height at a time. */
    method DrawBands(cs: seq<seq<int>>, pb: Rect, ghost cell: (int, int) -> seq<Tile>)
      requires Valid() && AllWellFormed(cs) && XInRange(Contours(cs)) && NodeCapacity(Contours(cs), antialias)
      requires HppCellsOf(cell, Contours(cs), antialias, clip)
      modifies this`log, table, table.nodes, table.counts, tileBuffer
      ensures Valid() && antialias == old(antialias) && clip == old(clip)
      ensures log == old(log) + BandsFrom(cell, pb, tileBounds.w, tileBounds.h, pb.y)
    {
      ghost var aa, cl, log0 := antialias, clip, log;
      var w, h := tileBounds.w, tileBounds.h;
      var y := pb.y;
      ghost var done: seq<Tile> := [];
      assert BandsProgress(cell, pb, w, h, y, done);
      while y < pb.y + pb.h
        invariant Valid() && w == tileBounds.w && h == tileBounds.h
        invariant antialias == aa && clip == cl && log == log0 + done
        invariant BandsProgress(cell, pb, w, h, y, done)
        decreases pb.y + pb.h - y
      {
        ghost var band := ColumnsFrom(cell, pb, w, y, pb.x);
        ghost var rest := BandsFrom(cell, pb, w, h, y + h);
        BandsFromStep(cell, pb, w, h, y);
        AppendAssoc(done, band, rest);
        AppendAssoc(log0, done, band);
        DrawBand(cs, pb, y, cell);
        done := done + band;
        y := y + h;
      }
      BandsFromEnd(cell, pb, w, h, y);
      PrefixOfWhole(done, BandsFrom(cell, pb, w, h, y), BandsFrom(cell, pb, w, h, pb.y));
    }

    /** `draw_polygon(std::vector<contour_t>)`: the callback receives the
        tile of every cell of the polygon bounds that `rect_t::empty` does
        not skip, in raster order. */
    method DrawPolygon(cs: seq<seq<int>>)
      requires Valid() && |cs| >= 1 && AllWellFormed(cs)
      requires XInRange(Contours(cs)) && NodeCapacity(Contours(cs), antialias)
      modifies this`log, table, table.nodes, table.counts, tileBuffer
      ensures Valid() && antialias == old(antialias) && clip == old(clip)
      ensures log == old(log) + HppPolygonTiles(cs, antialias, clip)
    {
      var pb := HppGeometry.PolygonBounds(cs);
      ghost var cell := HppCellTiles(Contours(cs), antialias, clip);
      HppCellTilesAreCells(Contours(cs), antialias, clip);
      DrawBands(cs, pb, cell);
    }

    /** `draw_polygon(T *points, unsigned count)`: one contour, drawn as a
        polygon of that contour alone. */
    method DrawContour(c: seq<int>)
      requires Valid() && WellFormed(c)
      requires XInRange(Contours([c])) && NodeCapacity(Contours([c]), antialias)
      modifies this`log, table, table.nodes, table.counts, tileBuffer
      ensures Valid()
      ensures log == old(log) + HppPolygonTiles([c], antialias, clip)
    {
      DrawPolygon([c]);
    }
  }
}
