/**
  The rasteriser state of `pretty-poly.h` and the operations that change it.

  The header keeps its state in globals: the clip rect, the tile callback,
  the anti-alias level, `tile_bounds`, the node table and the tile buffer
  (1024 bytes plus one byte of padding). `Rasterizer` holds them as fields;
  the callback is an opaque id, and every tile handed to it is appended to
  the ghost `log`. Each method is proved against the functions of
  `PrettyPolyNodes` and `PrettyPolyRender`, so what is proved about those
  functions holds of what the methods compute.
*/
module PrettyPolyRaster {
  import opened ScanMath
  import opened Edges
  import opened Coverage
  import opened NodeRows
  import opened PrettyPolyGeometry
  import opened PrettyPolyNodes
  import opened PrettyPolyRender

  /** The x steps the scanline loop has taken on row `y` when it entered its
      first row having already taken `k0`. */
  function LoopSteps(sx: int, sy: int, ex: int, ey: int, k0: nat, y: int): nat
    requires sy <= y < ey
  {
    Max(k0, Steps(Times(Abs(ex - sx) + 1, y - sy), ey - sy))
  }

  /** The node the scanline loop records on row `y`. */
  function LoopNode(sx: int, sy: int, ex: int, ey: int, k0: nat, fw: nat, y: int): int
    requires sy <= y < ey
  {
    Clamp(sx + Times(Signum(ex - sx), LoopSteps(sx, sy, ex, ey, k0, y)), 0, fw)
  }

  /** The walker's inner loop `while (e > dy) { e -= dy; x += xinc; }`:
      with `e == t - k * dy` it takes x steps until `k` reaches `Steps(t, dy)`. */
  method ConsumeError(x: int, e: int, xinc: int, dy: int, ghost t: nat, ghost k: nat)
    returns (x': int, e': int, ghost k': nat)
    requires dy > 0 && e == t - Times(dy, k)
    ensures k' == Max(k, Steps(t, dy)) && e' <= dy
    ensures x' == x + Times(xinc, k' - k) && e' == t - Times(dy, k')
  {
    x', e', k' := x, e, k;
    while e' > dy
      invariant k <= k' && x' == x + Times(xinc, k' - k) && e' == t - Times(dy, k')
      invariant k' <= Max(k, Steps(t, dy))
    {
      TimesMul(dy, k');
      StepsLeast(t, dy, k');
      e' := e' - dy;
      x' := x' + xinc;
      k' := k' + 1;
    }
    TimesMul(dy, k');
    StepsLeast(t, dy, k');
  }

  /** Splitting a running sum: `a * (m + n) == a * m + a * n`. */
  lemma {:induction false} TimesAdd(a: int, m: nat, n: nat)
    ensures Times(a, m + n) == Times(a, m) + Times(a, n)
  {
    if n > 0 {
      TimesAdd(a, m, n - 1);
    }
  }

  /** The steps the corrected walker has taken when it reaches row 0: those
      the scanline loop would have taken (none when the segment starts inside). */
  function JumpSteps(sx: int, sy: int, ex: int, ey: int): nat
    requires sy < ey
  {
    if sy < 0 then Steps(Times(Abs(ex - sx) + 1, -sy), ey - sy) else 0
  }

  /** The steps the walker as written has taken when it reaches row 0:
      `einc * -sy / dy`. */
  function JumpStepsAsWritten(sx: int, sy: int, ex: int, ey: int): nat
    requires sy < ey
  {
    if sy < 0 then Times(Abs(ex - sx) + 1, -sy) / (ey - sy) else 0
  }

  /** `(sx, sy)`–`(ex, ey)` is the segment from `a` to `b` turned to point down. */
  predicate Ordered(a: Point, b: Point, sx: int, sy: int, ex: int, ey: int)
  {
    (if b.y < a.y then (b, a) else (a, b)) == (Point(sx, sy), Point(ex, ey))
  }

  /** Read through the downward ordering, `EdgeNodes` is the node on each
      row of `sy .. ey - 1`. */
  lemma OrderedEdgeNodes(a: Point, b: Point, sx: int, sy: int, ex: int, ey: int, fw: nat, r: int)
    requires Ordered(a, b, sx, sy, ex, ey)
    ensures EdgeNodes(a, b, fw, r) == if sy <= r < ey then [NodeX(sx, sy, ex, ey, fw, r)] else []
    ensures EdgeNodesAsWritten(a, b, fw, r) ==
      if sy <= r < ey && 0 <= r then [NodeXAsWritten(sx, sy, ex, ey, fw, r)] else []
  {
  }

  /** From the corrected jump, the walker's step count on every row it
      writes is the one the scanline definition prescribes. */
  lemma LoopStepsExact(sx: int, sy: int, ex: int, ey: int, r: int)
    requires Max(0, sy) <= r < ey
    ensures LoopSteps(sx, sy, ex, ey, JumpSteps(sx, sy, ex, ey), r) ==
      Steps((Abs(ex - sx) + 1) * (r - sy), ey - sy)
  {
    var einc, dy := Abs(ex - sx) + 1, ey - sy;
    TimesMul(einc, r - sy);
    if sy < 0 {
      TimesMul(einc, -sy);
      MulMono(-sy, r - sy, einc);
      StepsMono(Times(einc, -sy), Times(einc, r - sy), dy);
    }
  }

  /** From the jump as written, the walker's step count is `StepsAsWritten`. */
  lemma LoopStepsAsWritten(sx: int, sy: int, ex: int, ey: int, r: int)
    requires Max(0, sy) <= r < ey
    ensures LoopSteps(sx, sy, ex, ey, JumpStepsAsWritten(sx, sy, ex, ey), r) ==
      StepsAsWritten(sx, sy, ex, ey, r)
  {
    var einc := Abs(ex - sx) + 1;
    TimesMul(einc, r - sy);
    if sy < 0 {
      TimesMul(einc, -sy);
    }
  }

  /** The corrected walker writes exactly `EdgeNodes`: the walk's node on each
      row of `max(0, sy) .. min(32, ey) - 1` and nothing elsewhere. */
  lemma WalkIsEdgeNodes(a: Point, b: Point, sx: int, sy: int, ex: int, ey: int, fw: nat, r: int)
    requires Ordered(a, b, sx, sy, ex, ey) && sy < ey && 0 <= r < RowCount
    ensures EdgeNodes(a, b, fw, r) ==
      if Max(0, sy) <= r < Min(RowCount, ey) then [LoopNode(sx, sy, ex, ey, JumpSteps(sx, sy, ex, ey), fw, r)] else []
  {
    OrderedEdgeNodes(a, b, sx, sy, ex, ey, fw, r);
    if Max(0, sy) <= r < Min(RowCount, ey) {
      var k := LoopSteps(sx, sy, ex, ey, JumpSteps(sx, sy, ex, ey), r);
      LoopStepsExact(sx, sy, ex, ey, r);
      TimesMul(Signum(ex - sx), k);
    }
  }

  /** A segment entirely left of the tile writes 0 on each row it covers, one
      entirely right of it writes the full width: both are `EdgeNodes`. */
  lemma OffSideIsEdgeNodes(a: Point, b: Point, sx: int, sy: int, ex: int, ey: int, fw: nat, v: int, r: int)
    requires Ordered(a, b, sx, sy, ex, ey) && sy < ey && 0 <= r < RowCount
    requires (Max(sx, ex) <= 0 && v == 0) || (Min(sx, ex) >= fw && v == fw)
    ensures EdgeNodes(a, b, fw, r) == if Max(0, sy) <= r < Min(RowCount, ey) then [v] else []
  {
    if Max(0, sy) <= r < Min(RowCount, ey) {
      NodeXOffSide(sx, sy, ex, ey, fw, r);
    }
  }

  /** The walker as written writes exactly `EdgeNodesAsWritten`. */
  lemma WalkIsEdgeNodesAsWritten(a: Point, b: Point, sx: int, sy: int, ex: int, ey: int, fw: nat, r: int)
    requires Ordered(a, b, sx, sy, ex, ey) && sy < ey && 0 <= r < RowCount
    requires Max(sx, ex) > 0 && Min(sx, ex) < fw
    ensures EdgeNodesAsWritten(a, b, fw, r) ==
      if Max(0, sy) <= r < Min(RowCount, ey) then [LoopNode(sx, sy, ex, ey, JumpStepsAsWritten(sx, sy, ex, ey), fw, r)] else []
  {
    OrderedEdgeNodes(a, b, sx, sy, ex, ey, fw, r);
    if Max(0, sy) <= r < Min(RowCount, ey) {
      var k := LoopSteps(sx, sy, ex, ey, JumpStepsAsWritten(sx, sy, ex, ey), r);
      LoopStepsAsWritten(sx, sy, ex, ey, r);
      TimesMul(Signum(ex - sx), k);
    }
  }

  /** The early exits of the walker as written also give `EdgeNodesAsWritten`. */
  lemma OffSideIsEdgeNodesAsWritten(a: Point, b: Point, sx: int, sy: int, ex: int, ey: int, fw: nat, v: int, r: int)
    requires Ordered(a, b, sx, sy, ex, ey) && sy < ey && 0 <= r < RowCount
    requires (Max(sx, ex) <= 0 && v == 0) || (Max(sx, ex) > 0 && Min(sx, ex) >= fw && v == fw)
    ensures EdgeNodesAsWritten(a, b, fw, r) == if Max(0, sy) <= r < Min(RowCount, ey) then [v] else []
  {
    OrderedEdgeNodes(a, b, sx, sy, ex, ey, fw, r);
  }

  /** The jump a segment starting above the tile (`sy < 0`) makes to row 0,
      rounded the way the scanline loop steps: `(e - 1) / dy` steps for the
      error `e = einc * -sy`, the remainder left in the error term. */
  method JumpToTop(x0: int, einc: int, sy: int, dy: int, xinc: int) returns (x: int, e: int, ghost k: nat)
    requires einc > 0 && sy < 0 && dy > 0
    ensures k == Steps(Times(einc, -sy), dy)
    ensures x == x0 + Times(xinc, k) && e == Times(einc, -sy) - Times(dy, k)
  {
    e := einc * -sy;
    var xjump := (e - 1) / dy;
    TimesMul(einc, -sy);
    StepsDiv(e, dy);
    k := xjump;
    e := e - dy * xjump;
    x := x0 + xinc * xjump;
    TimesMul(xinc, xjump);
    TimesMul(dy, xjump);
  }

  /** The same jump as written: `e / dy` steps. */
  method JumpToTopAsWritten(x0: int, einc: int, sy: int, dy: int, xinc: int) returns (x: int, e: int, ghost k: nat)
    requires einc > 0 && sy < 0 && dy > 0
    ensures k == Times(einc, -sy) / dy
    ensures x == x0 + Times(xinc, k) && e == Times(einc, -sy) - Times(dy, k)
  {
    e := einc * -sy;
    var xjump := e / dy;
    TimesMul(einc, -sy);
    k := xjump;
    e := e - dy * xjump;
    x := x0 + xinc * xjump;
    TimesMul(xinc, xjump);
    TimesMul(dy, xjump);
  }

  /** Byte `j` lies in pixel row `py` of a buffer with the given stride
      exactly when it lies in the window `[py * stride, py * stride + stride)`. */
  lemma RowWindow(py: int, stride: int, j: int)
    requires stride > 0
    ensures py * stride <= j < py * stride + stride <==> j / stride == py
    ensures py * stride <= j < py * stride + stride ==> j % stride == j - py * stride
  {
    var q, r := j / stride, j % stride;
    assert j == q * stride + r && 0 <= r < stride;
    if q < py {
      MulMono(q + 1, py, stride);
    } else if q > py {
      MulMono(py + 1, q, stride);
    }
  }

  /** What the anti-aliased span code adds to byte `px` of its pixel row:
      the whole span in one pixel, or a partial first pixel, whole pixels and
      a partial last pixel. */
  function SpanBytes(sx: int, ex: int, aa: Level, px: int): int
  {
    var S := Scale(aa);
    if sx / S == ex / S then (if px == sx / S then ex - sx else 0)
    else CellAdd(px, sx / S, ex / S, S - sx % S, ex % S, S)
  }

  /** `row_data[ax] += first`, `S` for each pixel strictly between, and `last` at `aex`. */
  function CellAdd(px: int, ax: int, aex: int, first: int, last: int, S: int): int
  {
    if px == ax then first else if ax < px < aex then S else if px == aex then last else 0
  }

  /** Within its pixel row the bytes the span code adds are the span's
      sub-sample coverage; outside the row they add nothing, except the byte
      right after the row, which receives `ex & mask`. */
  lemma SpanWindow(sx: int, ex: int, aa: Level, w: int, px: int)
    requires 0 <= sx < ex <= w * Scale(aa)
    ensures (if 0 <= px < w then SpanCover(sx, ex, aa, px) else 0) ==
      (if px == w then 0 else SpanBytes(sx, ex, aa, px)) 
    ensures px == w ==> SpanBytes(sx, ex, aa, px) == 0
  {
    var S := Scale(aa);
    var ax, aex := sx / S, ex / S;
    SpanCoverCells(sx, ex, aa, px);
    SpanLastByte(ex, aa, w);
    DivMono(0, sx, S);
    if px < 0 || px > w {
      assert px < ax || px > aex;
      assert SpanBytes(sx, ex, aa, px) == 0;
    } else if px == w {
      assert SpanBytes(sx, ex, aa, px) == (if ax == aex then 0 else CellAdd(px, ax, aex, S - sx % S, ex % S, S));
    }
  }

  /** A span ends at most one pixel past the row, and only with no sub-samples there. */
  lemma SpanLastByte(ex: int, aa: Level, w: int)
    requires 0 <= ex <= w * Scale(aa)
    ensures ex / Scale(aa) <= w
    ensures ex / Scale(aa) == w ==> ex % Scale(aa) == 0
  {
    var S := Scale(aa);
    DivMono(ex, w * S, S);
    DivModUnique(w, S, 0);
    assert ex == (ex / S) * S + ex % S;
  }

  /** `row_data[ax] += first; for (ax++; ax < aex; ax++) row_data[ax] += S;
      row_data[ax] += last;` on the pixel row starting at `base`. */
  method AddCells(buf: array<int>, base: int, ax: int, aex: int, first: int, last: int, S: int)
    requires 0 <= base + ax && ax < aex && base + aex < buf.Length
    modifies buf
    ensures forall j :: 0 <= j < buf.Length ==>
      buf[j] == old(buf[j]) + CellAdd(j - base, ax, aex, first, last, S)
  {
    buf[base + ax] := buf[base + ax] + first;
    var x := ax + 1;
    while x < aex
      invariant ax < x <= aex
      invariant forall j :: 0 <= j < buf.Length ==>
        buf[j] == old(buf[j]) + (if j - base == ax then first else if ax < j - base < x then S else 0)
    {
      buf[base + x] := buf[base + x] + S;
      x := x + 1;
    }
    buf[base + x] := buf[base + x] + last;
  }

  /** What drawing the span `[sx, ex)` into the pixel row of width `w` that
      starts at byte `base` adds to byte `j`: the span's sub-sample coverage
      of the byte's pixel, nothing outside the row. */
  function SpanAdded(sx: int, ex: int, aa: Level, base: int, w: int, j: int): nat
  {
    if base <= j < base + w then SpanCover(sx, ex, aa, j - base) else 0
  }

  /** The span code of `render_nodes` for one span `[sx, ex)` of a sorted
      row, into the pixel row starting at `base`. With anti-aliasing: the
      sub-samples of a partial first pixel (`S - (sx & mask)`, the mask being
      the remainder for the non-negative `sx`), `S` for each whole pixel, and
      `ex & mask` for the last pixel, which is the byte after the row
      (receiving 0) when the span ends on the row's right edge. Without: one
      per pixel. Either way every byte gains exactly `SpanAdded`. */
  method AddSpan(buf: array<int>, base: int, sx: int, ex: int, aa: Level, w: int)
    requires 0 <= sx < ex <= w * Scale(aa) && 0 <= base && base + w < buf.Length
    modifies buf
    ensures forall j :: 0 <= j < buf.Length ==> buf[j] == old(buf[j]) + SpanAdded(sx, ex, aa, base, w, j)
  {
    var S := Scale(aa);
    if aa != 0 {
      var ax := sx / S;
      var aex := ex / S;
      SpanLastByte(ex, aa, w);
      if ax == aex {
        buf[base + ax] := buf[base + ax] + (ex - sx);
      } else {
        AddCells(buf, base, ax, aex, S - sx % S, ex % S, S);
      }
      forall j | 0 <= j < buf.Length
        ensures SpanAdded(sx, ex, aa, base, w, j) == SpanBytes(sx, ex, aa, j - base)
      {
        SpanWindow(sx, ex, aa, w, j - base);
      }
    } else {
      var x := sx;
      while x < ex
        invariant sx <= x <= ex
        invariant forall j :: 0 <= j < buf.Length ==>
          buf[j] == old(buf[j]) + (if base + sx <= j < base + x then 1 else 0)
      {
        buf[base + x] := buf[base + x] + 1;
        x := x + 1;
      }
      forall j | 0 <= j < buf.Length
        ensures SpanAdded(sx, ex, aa, base, w, j) == (if base + sx <= j < base + ex then 1 else 0)
      {
      }
    }
  }

  /** What drawing the first `n` pairs of `row` into the pixel row of width
      `w` starting at byte `base` adds to byte `j`. */
  function PairsAdded(row: seq<int>, n: nat, aa: Level, base: int, w: int, j: int): nat
    requires 2 * n <= |row|
  {
    if base <= j < base + w then PairsCover(row, n, aa, j - base) else 0
  }

  /** The bytes `b` with the first `n` pairs of `row` drawn into the pixel
      row of width `w` starting at byte `base`. */
  function PairsDrawn(b: seq<int>, row: seq<int>, n: nat, aa: Level, base: int, w: int): (r: seq<int>)
    requires 2 * n <= |row|
    ensures |r| == |b|
  {
    seq(|b|, j requires 0 <= j < |b| => b[j] + PairsAdded(row, n, aa, base, w, j))
  }

  /** The state of the pair loop of `render_nodes` after the first `n` pairs
      of `row`: the bounds accumulators started from `bx0` and `maxx0`, the
      rendered flag, and the bytes `b0` with those pairs drawn. */
  predicate PairsDone(row: seq<int>, n: nat, aa: Level, base: int, w: int, bx0: int, maxx0: int, b0: seq<int>,
                      bx: int, maxx: int, rendered: bool, b: seq<int>)
  {
    2 * n <= |row|
    && bx == PairsMinX(row, n, aa, bx0) && maxx == PairsMaxX(row, n, aa, maxx0)
    && rendered == PairsRendered(row, n) && b == PairsDrawn(b0, row, n, aa, base, w)
  }

  /** No pairs draw nothing. */
  lemma PairsDrawnNone(b: seq<int>, row: seq<int>, aa: Level, base: int, w: int)
    ensures PairsDrawn(b, row, 0, aa, base, w) == b
  {
  }

  /** Drawing pair `n` (when it is not degenerate) after the pairs before it. */
  lemma PairsDrawnStep(b0: seq<int>, b1: seq<int>, b2: seq<int>, row: seq<int>, n: nat, aa: Level, base: int, w: int)
    requires 2 * n + 2 <= |row| && b1 == PairsDrawn(b0, row, n, aa, base, w) && |b2| == |b0|
    requires row[2 * n] != row[2 * n + 1] ==>
      forall j :: 0 <= j < |b0| ==> b2[j] == b1[j] + SpanAdded(row[2 * n], row[2 * n + 1], aa, base, w, j)
    requires row[2 * n] == row[2 * n + 1] ==> b2 == b1
    ensures b2 == PairsDrawn(b0, row, n + 1, aa, base, w)
  {
    forall j | 0 <= j < |b0| ensures b2[j] == b0[j] + PairsAdded(row, n + 1, aa, base, w, j) {
      if row[2 * n] == row[2 * n + 1] {
        assert SpanCover(row[2 * n], row[2 * n + 1], aa, j - base) == 0;
      }
    }
  }

  /** The pixel row of sub-sample row `y` lies inside the tile buffer. */
  lemma RowBase(y: int, aa: Level)
    requires 0 <= y < RowCount
    ensures 0 <= (y / Scale(aa)) * TileBoundsFor(aa).w
    ensures (y / Scale(aa)) * TileBoundsFor(aa).w + TileBoundsFor(aa).w <= TileBufferSize
  {
    var S, t := Scale(aa), TileBoundsFor(aa);
    DivMono(y, t.h * S - 1, S);
    DivModUnique(t.h - 1, S, S - 1);
    assert t.h * S - 1 == (t.h - 1) * S + (S - 1);
    MulMono(y / S + 1, t.h, t.w);
  }

  /** The bounds accumulators of `render_nodes` after one more row. */
  lemma RowsSnoc(done: seq<seq<int>>, row: seq<int>, aa: Level, w: int)
    ensures LeadingEmpty(done + [row]) ==
      if LeadingEmpty(done) == |done| && !Rendered(row) then |done| + 1 else LeadingEmpty(done)
    ensures LastRendered(done + [row]) == if Rendered(row) then |done| else LastRendered(done)
    ensures RowsMinX(done + [row], aa, w) == PairsMinX(row, |row| / 2, aa, RowsMinX(done, aa, w))
    ensures RowsMaxX(done + [row], aa) == PairsMaxX(row, |row| / 2, aa, RowsMaxX(done, aa))
  {
    assert (done + [row])[..|done|] == done;
  }

  /** What node row `y` (sorted as `row`) adds to tile byte `j`: its coverage
      of the byte's column when the byte lies in the row's pixel row. */
  function LineCover(row: seq<int>, y: int, aa: Level, stride: int, j: int): nat
    requires stride > 0
  {
    if y / Scale(aa) == j / stride then RowCover(row, aa, j % stride) else 0
  }

  /** The bytes `b` with node row `y` (sorted as `row`) drawn into them. */
  function LineDrawn(b: seq<int>, row: seq<int>, y: int, aa: Level, stride: int): (r: seq<int>)
    requires stride > 0
    ensures |r| == |b|
  {
    seq(|b|, j requires 0 <= j < |b| => b[j] + LineCover(row, y, aa, stride, j))
  }

  /** An empty row draws nothing. */
  lemma LineDrawnEmpty(b: seq<int>, y: int, aa: Level, stride: int)
    requires stride > 0
    ensures LineDrawn(b, [], y, aa, stride) == b
  {
  }

  /** The coverage of a tile byte after one more row. */
  lemma TileCoverSnoc(done: seq<seq<int>>, row: seq<int>, aa: Level, stride: int, j: int)
    requires stride > 0
    ensures TileCover(done + [row], aa, stride, j) == TileCover(done, aa, stride, j) + LineCover(row, |done|, aa, stride, j)
  {
    assert (done + [row])[..|done|] == done;
  }

  /** The bytes `b` with the coverage of `rows` added to each. */
  function CoverAdded(b: seq<int>, rows: seq<seq<int>>, aa: Level, stride: int): (r: seq<int>)
    requires stride > 0
    ensures |r| == |b|
  {
    seq(|b|, j requires 0 <= j < |b| => b[j] + TileCover(rows, aa, stride, j))
  }

  /** The buffer after one more row: what it held before the rows plus the
      coverage of the rows so far and of the new row. */
  lemma CoverStep(b0: seq<int>, b1: seq<int>, b2: seq<int>, done: seq<seq<int>>, row: seq<int>, aa: Level, stride: int)
    requires stride > 0 && b1 == CoverAdded(b0, done, aa, stride) && b2 == LineDrawn(b1, row, |done|, aa, stride)
    ensures b2 == CoverAdded(b0, done + [row], aa, stride)
  {
    forall j | 0 <= j < |b0| ensures b2[j] == b0[j] + TileCover(done + [row], aa, stride, j) {
      TileCoverSnoc(done, row, aa, stride, j);
    }
  }

  /** A row drawn at the start of its pixel row adds `LineCover` to every byte. */
  lemma PairsToLine(b0: seq<int>, row: seq<int>, y: int, aa: Level, stride: int)
    requires stride > 0 && |row| % 2 == 0
    ensures PairsDrawn(b0, row, |row| / 2, aa, (y / Scale(aa)) * stride, stride) == LineDrawn(b0, row, y, aa, stride)
  {
    forall j | 0 <= j < |b0|
      ensures PairsAdded(row, |row| / 2, aa, (y / Scale(aa)) * stride, stride, j) == LineCover(row, y, aa, stride, j)
    {
      RowWindow(y / Scale(aa), stride, j);
    }
  }

  /** Sorting row `|done|` in place moves it from the rows still to do to the rows done. */
  lemma RowsUpdate(done: seq<seq<int>>, rows: seq<seq<int>>, row: seq<int>)
    requires |done| < |rows|
    ensures (done + rows[|done|..])[|done| := row] == (done + [row]) + rows[|done| + 1..]
  {
  }

  /** One cell of a band, then the rest of the band. */
  lemma ColumnsFromStep(cell: (int, int) -> seq<Tile>, pb: Rect, w: int, y: int, x: int)
    requires w > 0 && x < pb.x + pb.w
    ensures ColumnsFrom(cell, pb, w, y, x) == cell(x, y) + ColumnsFrom(cell, pb, w, y, x + w)
  {
  }

  /** One band, then the bands below it. */
  lemma BandsFromStep(cell: (int, int) -> seq<Tile>, pb: Rect, w: int, h: int, y: int)
    requires w > 0 && h > 0 && y < pb.y + pb.h
    ensures BandsFrom(cell, pb, w, h, y) == ColumnsFrom(cell, pb, w, y, pb.x) + BandsFrom(cell, pb, w, h, y + h)
  {
  }

  lemma ColumnsFromEnd(cell: (int, int) -> seq<Tile>, pb: Rect, w: int, y: int, x: int)
    requires w > 0 && x >= pb.x + pb.w
    ensures ColumnsFrom(cell, pb, w, y, x) == []
  {
  }

  lemma BandsFromEnd(cell: (int, int) -> seq<Tile>, pb: Rect, w: int, h: int, y: int)
    requires w > 0 && h > 0 && y >= pb.y + pb.h
    ensures BandsFrom(cell, pb, w, h, y) == []
  {
  }

  /** The tiles of the band at `y` left of column `x` are `done`. */
  predicate BandProgress(cell: (int, int) -> seq<Tile>, pb: Rect, w: int, y: int, x: int, done: seq<Tile>)
    requires w > 0
  {
    done + ColumnsFrom(cell, pb, w, y, x) == ColumnsFrom(cell, pb, w, y, pb.x)
  }

  /** The tiles of the bands above row `y` are `done`. */
  predicate BandsProgress(cell: (int, int) -> seq<Tile>, pb: Rect, w: int, h: int, y: int, done: seq<Tile>)
    requires w > 0 && h > 0
  {
    done + BandsFrom(cell, pb, w, h, y) == BandsFrom(cell, pb, w, h, pb.y)
  }
  /** A split whose right part is empty leaves the whole on the left. */
  lemma PrefixOfWhole<T>(done: seq<T>, rest: seq<T>, all: seq<T>)
    requires done + rest == all && rest == []
    ensures done == all
  {
    assert done + [] == done;
  }

  lemma AppendAssoc<T>(a: seq<T>, b: seq<T>, c: seq<T>)
    ensures (a + b) + c == a + (b + c)
    ensures a + [] == a
  {
  }

  /** The tile of a non-empty clipped cell comes from that cell's rows. */
  lemma TileAtCell(ps: seq<seq<Point>>, aa: Level, clip: Rect, cx: int, cy: int, tb: Rect)
    requires ContoursNonEmpty(ps)
    requires tb == RectIntersection(Rect(cx, cy, TileBoundsFor(aa).w, TileBoundsFor(aa).h), clip)
    ensures RectEmpty(tb) ==> TileAt(ps, aa, clip, cx, cy) == None
    ensures !RectEmpty(tb) ==> TileAt(ps, aa, clip, cx, cy) == TileFromRows(TileRows(ps, aa, tb), aa, tb)
  {
  }

  /** When the rendered bounds, moved to the cell and clipped to it, are
      empty there is no tile; otherwise the tile is those bounds over the
      coverage buffer, starting at the rendered origin. */
  lemma TileFromRowsVisible(rows: seq<seq<int>>, aa: Level, tb: Rect, rb: Rect,
                            stride: int, visible: Rect, offset: int)
    requires rb == RenderBounds(rows, aa, tb.w) && stride == TileBoundsFor(aa).w
    requires visible == RectIntersection(Rect(rb.x + tb.x, rb.y + tb.y, rb.w, rb.h), tb)
    requires offset == rb.x + stride * rb.y
    ensures RectEmpty(visible) ==> TileFromRows(rows, aa, tb) == None
    ensures !RectEmpty(visible) ==>
      TileFromRows(rows, aa, tb) == Some(Tile(visible, stride, CoverBuffer(rows, aa, stride), offset))
  {
  }

  /** A buffer cleared to 0 and then rendered holds exactly the coverage. */
  lemma BufferIsCover(b0: seq<int>, rows: seq<seq<int>>, aa: Level, stride: int)
    requires stride > 0 && |b0| == TileBufferSize + 1
    requires forall j :: 0 <= j < |b0| ==> b0[j] == 0
    ensures CoverAdded(b0, rows, aa, stride) == CoverBuffer(rows, aa, stride)
  {
  }

  /** The state of the row loop of `render_nodes` after the first `y` of
      the node rows `rows`: those rows sorted as `done` and the rest as they
      were, the bounds accumulators, and the bytes `b0` with the coverage of
      `done` added. */
  predicate LinesDone(rows: seq<seq<int>>, y: nat, done: seq<seq<int>>, aa: Level, w: int, stride: int, b0: seq<int>,
                      minY: int, maxY: int, minX: int, maxX: int, cur: seq<seq<int>>, b: seq<int>)
  {
    y <= |rows| && |done| == y && stride > 0
    && done == SortedRows(rows[..y]) && cur == done + rows[y..]
    && minY == LeadingEmpty(done) && maxY == LastRendered(done)
    && minX == RowsMinX(done, aa, w) && maxX == RowsMaxX(done, aa)
    && b == CoverAdded(b0, done, aa, stride)
  }

  /** Sorting one more row extends the sorted prefix. */
  lemma SortedRowsSnoc(rows: seq<seq<int>>, y: nat)
    requires y < |rows|
    ensures SortedRows(rows[..y]) + [SortSeq(rows[y])] == SortedRows(rows[..y + 1])
  {
  }

  class Rasterizer {
    /** `_pp_clip` */
    var clip: Rect
    /** `_pp_tile_callback`, as an opaque id. */
    var callback: nat
    /** `_pp_antialias` */
    var antialias: Level
    /** `tile_bounds` */
    var tileBounds: Rect
    /** `nodes` and `node_counts` */
    const table: NodeTable
    /** `tile_buffer`, `tile_buffer_size + 1` bytes */
    const tileBuffer: array<int>
    /** Every tile handed to the callback, in call order. */
    ghost var log: seq<Tile>

    ghost predicate Valid()
      reads this`tileBounds, table, table.nodes, table.counts, tileBuffer
    {
      table.Valid() && tileBuffer != table.counts
      && tileBuffer.Length == TileBufferSize + 1 && tileBuffer[TileBufferSize] == 0
      && tileBounds.w >= 0
    }

    /** `tile_bounds.w << _pp_antialias`: the tile width in sub-samples. */
    function FullWidth(): nat
      reads this
      requires tileBounds.w >= 0
    {
      tileBounds.w * Scale(antialias)
    }

    /** The zero-initialised globals: everything 0, no tile drawn yet. */
    constructor ()
      ensures Valid() && fresh(table) && fresh(tileBuffer)
      ensures clip == Rect(0, 0, 0, 0) && callback == 0 && antialias == 0 && tileBounds == Rect(0, 0, 0, 0)
      ensures forall y :: 0 <= y < RowCount ==> table.rows[y] == []
      ensures log == []
    {
      clip := Rect(0, 0, 0, 0);
      callback := 0;
      antialias := 0;
      tileBounds := Rect(0, 0, 0, 0);
      table := new NodeTable();
      tileBuffer := new int[TileBufferSize + 1](_ => 0);
      log := [];
    }

    /** `pp_clip` */
    method SetClip(c: Rect)
      modifies this`clip
      ensures clip == c
    {
      clip := c;
    }

    /** `pp_tile_callback` */
    method SetTileCallback(cb: nat)
      modifies this`callback
      ensures callback == cb
    {
      callback := cb;
    }

    /** `pp_antialias`: stores the level and resizes the tile so that its
        sub-sample rows fill the node table and its pixels the tile buffer. */
    method SetAntialias(aa: Level)
      requires Valid()
      modifies this`antialias, this`tileBounds
      ensures Valid() && antialias == aa
      ensures tileBounds == TileBoundsFor(aa)
      ensures tileBounds.h * Scale(aa) == RowCount && tileBounds.w * tileBounds.h == TileBufferSize
    {
      antialias := aa;
      var tileHeight := RowCount / Scale(aa);
      tileBounds := Rect(0, 0, TileBufferSize / tileHeight, tileHeight);
    }

    // ----- add_line_segment_to_nodes -----

    /** Room in the node table for the nodes the segment from `a` to `b` adds. */
    ghost predicate RoomFor(a: Point, b: Point)
      reads this, table
    {
      |table.rows| == RowCount
      && forall y :: 0 <= y < RowCount && Crosses(a, b, y) ==> |table.rows[y]| < Capacity
    }

    /** The same value appended to rows `y .. y + count - 1` (the two early exits). */
    method FillRows(y: int, count: int, v: int)
      requires Valid() && 0 <= y && 0 <= count && y + count <= RowCount
      requires forall r :: y <= r < y + count ==> |table.rows[r]| < Capacity
      modifies table, table.nodes, table.counts
      ensures Valid()
      ensures forall r :: 0 <= r < RowCount ==>
        table.rows[r] == old(table.rows[r]) + (if y <= r < y + count then [v] else [])
    {
      var i := 0;
      while i < count
        invariant 0 <= i <= count && Valid()
        invariant forall r :: 0 <= r < RowCount ==>
          table.rows[r] == old(table.rows[r]) + (if y <= r < y + i then [v] else [])
      {
        table.Append(y + i, v);
        i := i + 1;
      }
    }

    /** One pass of the scanline loop on row `y`: consume the error term,
        append the clamped x to the row, add `einc` to the error. */
    method EmitRow(sx: int, sy: int, ex: int, ey: int, xinc: int, einc: int, dy: int,
                   y: int, x: int, e: int, ghost k0: nat, ghost k: nat)
      returns (x': int, e': int, ghost k': nat)
      requires Valid() && 0 <= y < RowCount && sy <= y < ey && |table.rows[y]| < Capacity
      requires xinc == Signum(ex - sx) && einc == Abs(ex - sx) + 1 && dy == ey - sy
      requires x == sx + Times(xinc, k) && e == Times(einc, y - sy) - Times(dy, k)
      requires k0 <= k <= LoopSteps(sx, sy, ex, ey, k0, y)
      modifies table, table.nodes, table.counts
      ensures Valid()
      ensures table.rows == old(table.rows)[y := old(table.rows[y]) + [LoopNode(sx, sy, ex, ey, k0, FullWidth(), y)]]
      ensures x' == sx + Times(xinc, k') && e' == Times(einc, y + 1 - sy) - Times(dy, k')
      ensures k0 <= k' && (y + 1 < ey ==> k' <= LoopSteps(sx, sy, ex, ey, k0, y + 1))
    {
      ghost var t := Times(einc, y - sy);
      x', e', k' := ConsumeError(x, e, xinc, dy, t, k);
      TimesAdd(xinc, k, k' - k);
      var nx := Max(Min(x', tileBounds.w * Scale(antialias)), 0);
      table.Append(y, nx);
      StepsMono(t, t + einc, dy);
      e' := e' + einc;
    }

    /** The scanline loop of the portable walker, entered at row `y` having
        taken `k0` steps: on each row of `y .. min(32, ey) - 1` it records the
        walk's clamped x, and no other row changes. */
    method StepRows(sx: int, sy: int, ex: int, ey: int, y: int, x: int, e: int, ghost k0: nat)
      requires Valid() && sy <= y && 0 <= y <= ey && y < RowCount
      requires -0x8000_0000 < ex - sx < 0x8000_0000
      requires x == sx + Times(Signum(ex - sx), k0)
      requires e == Times(Abs(ex - sx) + 1, y - sy) - Times(ey - sy, k0)
      requires forall r :: y <= r < Min(RowCount, ey) ==> |table.rows[r]| < Capacity
      modifies table, table.nodes, table.counts
      ensures Valid()
      ensures forall r :: 0 <= r < RowCount ==>
        table.rows[r] == old(table.rows[r])
          + (if y <= r < Min(RowCount, ey) then [LoopNode(sx, sy, ex, ey, k0, FullWidth(), r)] else [])
    {
      var xinc := Sign(ex - sx);
      var einc := Abs(ex - sx) + 1;
      var dy := ey - sy;
      var y0, count := y, Min(RowCount, ey) - y;
      var y, x, e := y, x, e;
      ghost var k: nat := k0;
      ghost var added: seq<int> := [];
      while count > 0
        invariant y0 <= y <= Min(RowCount, ey) && count == Min(RowCount, ey) - y && Valid()
        invariant x == sx + Times(xinc, k) && e == Times(einc, y - sy) - Times(dy, k)
        invariant k0 <= k && (y < ey ==> k <= LoopSteps(sx, sy, ex, ey, k0, y))
        invariant |added| == y - y0
        invariant forall i :: 0 <= i < |added| ==> added[i] == LoopNode(sx, sy, ex, ey, k0, FullWidth(), y0 + i)
        invariant forall r :: 0 <= r < RowCount ==>
          table.rows[r] == old(table.rows[r]) + (if y0 <= r < y then [added[r - y0]] else [])
      {
        x, e, k := EmitRow(sx, sy, ex, ey, xinc, einc, dy, y, x, e, k0, k);
        added := added + [LoopNode(sx, sy, ex, ey, k0, FullWidth(), y)];
        y, count := y + 1, count - 1;
      }
    }

    /** The scanline walk of `add_line_segment_to_nodes` for a segment put
        in downward order (`sy < ey`) that reaches the rows of the tile and
        lies neither wholly left nor wholly right of it: the jump to row 0
        when it starts above, then one node per row. */
    method WalkRows(start: Point, end: Point, sx: int, sy: int, ex: int, ey: int)
      requires Valid() && -0x8000_0000 < end.x - start.x < 0x8000_0000
      requires RoomFor(start, end)
      requires Ordered(start, end, sx, sy, ex, ey) && sy < ey && 0 <= ey && sy < RowCount
      requires Max(sx, ex) > 0 && Min(sx, ex) < FullWidth()
      modifies table, table.nodes, table.counts
      ensures Valid()
      ensures forall y :: 0 <= y < RowCount ==>
        table.rows[y] == old(table.rows[y]) + EdgeNodes(start, end, FullWidth(), y)
    {
      var fw := FullWidth();
      var y := Max(0, sy);
      var x, e := sx, 0;
      var xinc := Sign(ex - sx);
      var einc := Abs(ex - sx) + 1;
      var dy := ey - sy;
      ghost var k0: nat := 0;
      if sy < 0 {
        x, e, k0 := JumpToTop(x, einc, sy, dy, xinc);
      }
      forall r | 0 <= r < RowCount
        ensures EdgeNodes(start, end, fw, r) ==
          if y <= r < Min(RowCount, ey) then [LoopNode(sx, sy, ex, ey, k0, fw, r)] else []
      {
        WalkIsEdgeNodes(start, end, sx, sy, ex, ey, fw, r);
      }
      assert x == sx + Times(Signum(ex - sx), k0) && e == Times(einc, y - sy) - Times(dy, k0);
      forall r | y <= r < Min(RowCount, ey) ensures |table.rows[r]| < Capacity {
        assert Crosses(start, end, r);
      }
      StepRows(sx, sy, ex, ey, y, x, e, k0);
    }

    /** The scanline walk of `add_line_segment_to_nodes` as written, with the
        jump `einc * -sy / dy`. */
    method WalkRowsAsWritten(start: Point, end: Point, sx: int, sy: int, ex: int, ey: int)
      requires Valid() && -0x8000_0000 < end.x - start.x < 0x8000_0000
      requires RoomFor(start, end)
      requires Ordered(start, end, sx, sy, ex, ey) && sy < ey && 0 <= ey && sy < RowCount
      requires Max(sx, ex) > 0 && Min(sx, ex) < FullWidth()
      modifies table, table.nodes, table.counts
      ensures Valid()
      ensures forall y :: 0 <= y < RowCount ==>
        table.rows[y] == old(table.rows[y]) + EdgeNodesAsWritten(start, end, FullWidth(), y)
    {
      var fw := FullWidth();
      var y := Max(0, sy);
      var x, e := sx, 0;
      var xinc := Sign(ex - sx);
      var einc := Abs(ex - sx) + 1;
      var dy := ey - sy;
      ghost var k0: nat := 0;
      if sy < 0 {
        x, e, k0 := JumpToTopAsWritten(x, einc, sy, dy, xinc);
      }
      forall r | 0 <= r < RowCount
        ensures EdgeNodesAsWritten(start, end, fw, r) ==
          if y <= r < Min(RowCount, ey) then [LoopNode(sx, sy, ex, ey, k0, fw, r)] else []
      {
        WalkIsEdgeNodesAsWritten(start, end, sx, sy, ex, ey, fw, r);
      }
      forall r | y <= r < Min(RowCount, ey) ensures Crosses(start, end, r) {
        WalkIsEdgeNodes(start, end, sx, sy, ex, ey, fw, r);
      }
      StepRows(sx, sy, ex, ey, y, x, e, k0);
    }

    /** `add_line_segment_to_nodes`, portable branch, with the jump for a
        segment that starts above the tile taking the steps the scanline loop
        would have taken by row 0 (`(e - 1) / dy` rather than `e / dy`):
        every row the segment covers in `0 .. 31` receives the walk's node,
        and no other row changes. */
    method AddLineSegmentToNodes(start: Point, end: Point)
      requires Valid() && -0x8000_0000 < end.x - start.x < 0x8000_0000
      requires RoomFor(start, end)
      modifies table, table.nodes, table.counts
      ensures Valid()
      ensures forall y :: 0 <= y < RowCount ==>
        table.rows[y] == old(table.rows[y]) + EdgeNodes(start, end, FullWidth(), y)
    {
      var sx, sy, ex, ey := start.x, start.y, end.x, end.y;
      if ey < sy {
        sy, ey := ey, sy;
        sx, ex := ex, sx;
      }
      var fw := FullWidth();
      if ey < 0 || sy >= RowCount || sy == ey {
        forall r | 0 <= r < RowCount ensures table.rows[r] + EdgeNodes(start, end, fw, r) == table.rows[r] {
          assert !Crosses(start, end, r);
        }
        return;
      }
      var y := Max(0, sy);
      var count := Min(RowCount, ey) - y;
      if Max(sx, ex) <= 0 || Min(sx, ex) >= fw {
        var v := if Max(sx, ex) <= 0 then 0 else fw;
        forall r | 0 <= r < RowCount
          ensures EdgeNodes(start, end, fw, r) == if y <= r < y + count then [v] else []
        {
          OffSideIsEdgeNodes(start, end, sx, sy, ex, ey, fw, v, r);
        }
        FillRows(y, count, v);
        return;
      }
      WalkRows(start, end, sx, sy, ex, ey);
    }

    /** `add_line_segment_to_nodes` as written: a segment that starts above
        the tile jumps `einc * -sy / dy` steps before its first row. */
    method AddLineSegmentToNodesAsWritten(start: Point, end: Point)
      requires Valid() && -0x8000_0000 < end.x - start.x < 0x8000_0000
      requires RoomFor(start, end)
      modifies table, table.nodes, table.counts
      ensures Valid()
      ensures forall y :: 0 <= y < RowCount ==>
        table.rows[y] == old(table.rows[y]) + EdgeNodesAsWritten(start, end, FullWidth(), y)
    {
      var sx, sy, ex, ey := start.x, start.y, end.x, end.y;
      if ey < sy {
        sy, ey := ey, sy;
        sx, ex := ex, sx;
      }
      var fw := FullWidth();
      if ey < 0 || sy >= RowCount || sy == ey {
        forall r | 0 <= r < RowCount ensures table.rows[r] + EdgeNodesAsWritten(start, end, fw, r) == table.rows[r] {
          assert !Crosses(start, end, r);
        }
        return;
      }
      var y := Max(0, sy);
      var count := Min(RowCount, ey) - y;
      if Max(sx, ex) <= 0 || Min(sx, ex) >= fw {
        var v := if Max(sx, ex) <= 0 then 0 else fw;
        forall r | 0 <= r < RowCount
          ensures EdgeNodesAsWritten(start, end, fw, r) == if y <= r < y + count then [v] else []
        {
          OffSideIsEdgeNodesAsWritten(start, end, sx, sy, ex, ey, fw, v, r);
        }
        forall r | y <= r < y + count ensures Crosses(start, end, r) {
          WalkIsEdgeNodes(start, end, sx, sy, ex, ey, fw, r);
        }
        FillRows(y, count, v);
        return;
      }
      WalkRowsAsWritten(start, end, sx, sy, ex, ey);
    }

    // ----- render_nodes -----

    /** One non-degenerate pair `(sx, ex)` of the pair loop: `maxx` grows to
        the pixel of `ex - 1`, `bounds->x` shrinks to the pixel of `sx`, and
        the span is drawn. */
    method RenderPair(base: int, sx: int, ex: int, bx: int, maxx: int) returns (bx': int, maxx': int)
      requires Valid() && 0 <= base && base + tileBounds.w < tileBuffer.Length
      requires 0 <= sx < ex <= FullWidth()
      modifies tileBuffer
      ensures Valid()
      ensures bx' == Min(sx / Scale(antialias), bx) && maxx' == Max((ex - 1) / Scale(antialias), maxx)
      ensures forall j :: 0 <= j < tileBuffer.Length ==>
        tileBuffer[j] == old(tileBuffer[j]) + SpanAdded(sx, ex, antialias, base, tileBounds.w, j)
    {
      var S := Scale(antialias);
      maxx' := Max((ex - 1) / S, maxx);
      if antialias != 0 {
        bx' := Min(sx / S, bx);
      } else {
        bx' := Min(sx, bx);
      }
      AddSpan(tileBuffer, base, sx, ex, antialias, tileBounds.w);
    }

    /** One pass of the pair loop of `render_nodes`: pair `n` of the sorted
        row `y` widens the bounds and is drawn when it is not degenerate;
        the accumulators move on from the first `n` pairs to the first `n + 1`. */
    method DrawPair(y: int, n: nat, base: int, w: int, bx: int, maxx: int, rendered: bool,
                    ghost bx0: int, ghost maxx0: int, ghost b0: seq<int>)
      returns (bx': int, maxx': int, rendered': bool)
      requires Valid() && 0 <= y < RowCount && w == tileBounds.w
      requires 2 * n + 2 <= |table.rows[y]| && Sorted(table.rows[y])
      requires forall i :: 0 <= i < |table.rows[y]| ==> 0 <= table.rows[y][i] <= FullWidth()
      requires 0 <= base && base + w < tileBuffer.Length
      requires PairsDone(table.rows[y], n, antialias, base, w, bx0, maxx0, b0, bx, maxx, rendered, tileBuffer[..])
      modifies tileBuffer
      ensures Valid()
      ensures PairsDone(table.rows[y], n + 1, antialias, base, w, bx0, maxx0, b0, bx', maxx', rendered', tileBuffer[..])
    {
      ghost var row := table.rows[y];
      ghost var b1 := tileBuffer[..];
      var sx := table.nodes[y, 2 * n];
      var ex := table.nodes[y, 2 * n + 1];
      bx', maxx', rendered' := bx, maxx, rendered;
      if sx != ex {
        assert sx < ex by {
          assert row[2 * n] <= row[2 * n + 1];
        }
        rendered' := true;
        bx', maxx' := RenderPair(base, sx, ex, bx, maxx);
      }
      PairsDrawnStep(b0, b1, tileBuffer[..], row, n, antialias, base, w);
    }

    /** The pair loop of `render_nodes` for the sorted row `y`, drawn into
        the pixel row `y >> aa` (`row_data`): every non-degenerate pair widens
        the bounds (`bounds->x`, `maxx`) and is drawn; the row counts as
        rendered when one was. */
    method RenderRow(y: int, bx: int, maxx: int) returns (bx': int, maxx': int, rendered: bool)
      requires Valid() && tileBounds == TileBoundsFor(antialias) && 0 <= y < RowCount
      requires |table.rows[y]| % 2 == 0 && Sorted(table.rows[y])
      requires forall i :: 0 <= i < |table.rows[y]| ==> 0 <= table.rows[y][i] <= FullWidth()
      modifies tileBuffer
      ensures Valid()
      ensures bx' == PairsMinX(table.rows[y], |table.rows[y]| / 2, antialias, bx)
      ensures maxx' == PairsMaxX(table.rows[y], |table.rows[y]| / 2, antialias, maxx)
      ensures rendered == Rendered(table.rows[y])
      ensures tileBuffer[..] == LineDrawn(old(tileBuffer[..]), table.rows[y], y, antialias, tileBounds.w)
    {
      ghost var row := table.rows[y];
      ghost var b0 := tileBuffer[..];
      var S := Scale(antialias);
      var w := tileBounds.w;
      var base := (y / S) * w;
      RowBase(y, antialias);
      bx', maxx', rendered := bx, maxx, false;
      PairsDrawnNone(b0, row, antialias, base, w);
      var i := 0;
      while i < table.counts[y]
        invariant 0 <= i <= |row| && i % 2 == 0 && Valid() && w == tileBounds.w
        invariant PairsDone(row, i / 2, antialias, base, w, bx, maxx, b0, bx', maxx', rendered, tileBuffer[..])
      {
        bx', maxx', rendered := DrawPair(y, i / 2, base, w, bx', maxx', rendered, bx, maxx, b0);
        i := i + 2;
      }
      PairsToLine(b0, row, y, antialias, w);
    }

    /** One row of `render_nodes`: an empty row is skipped, any other is
        sorted and its pairs drawn into the pixel row `y >> aa`. The bounds
        accumulators move on by this row: `bounds->y` passes it when it is
        the first row still counted and it drew nothing, `maxy` becomes it
        when it drew something, and `bounds->x` and `maxx` take in its pairs.
        The row ends up sorted and every byte gains its coverage by the row. */
    method RenderLine(y: int, minY: int, maxY: int, minX: int, maxX: int)
      returns (minY': int, maxY': int, minX': int, maxX': int)
      requires Valid() && tileBounds == TileBoundsFor(antialias) && 0 <= y < RowCount
      requires |table.rows[y]| % 2 == 0
      requires forall i :: 0 <= i < |table.rows[y]| ==> 0 <= table.rows[y][i] <= FullWidth()
      modifies table, table.nodes, tileBuffer
      ensures Valid()
      ensures table.rows == old(table.rows)[y := SortSeq(old(table.rows[y]))]
      ensures var row := SortSeq(old(table.rows[y]));
        minY' == (if y == minY && !Rendered(row) then minY + 1 else minY)
        && maxY' == (if Rendered(row) then y else maxY)
        && minX' == PairsMinX(row, |row| / 2, antialias, minX)
        && maxX' == PairsMaxX(row, |row| / 2, antialias, maxX)
      ensures tileBuffer[..] == LineDrawn(old(tileBuffer[..]), SortSeq(old(table.rows[y])), y, antialias, tileBounds.w)
    {
      minY', maxY', minX', maxX' := minY, maxY, minX, maxX;
      if table.counts[y] == 0 {
        assert SortSeq(table.rows[y]) == [] && table.rows == table.rows[y := []];
        if y == minY {
          minY' := minY + 1;
        }
        LineDrawnEmpty(tileBuffer[..], y, antialias, tileBounds.w);
      } else {
        SortSeqBounds(table.rows[y], 0, FullWidth());
        SortSeqSpec(table.rows[y]);
        table.SortRow(y);
        var rendered;
        minX', maxX', rendered := RenderRow(y, minX, maxX);
        if rendered {
          maxY' := y;
        } else if y == minY {
          minY' := minY + 1;
        }
      }
    }

    /** One pass of `render_nodes`' loop, stated against the rows before it:
        with `done` the rows already rendered (sorted) and `rows` the rows as
        built, everything the loop keeps moves on from `done` to `done` plus
        this sorted row. */
    method RenderNextLine(y: int, minY: int, maxY: int, minX: int, maxX: int, w: int,
                          ghost rows: seq<seq<int>>, ghost done: seq<seq<int>>, ghost b0: seq<int>)
      returns (minY': int, maxY': int, minX': int, maxX': int, ghost done': seq<seq<int>>)
      requires Valid() && tileBounds == TileBoundsFor(antialias) && 0 <= y < RowCount && |rows| == RowCount
      requires |rows[y]| % 2 == 0 && forall i :: 0 <= i < |rows[y]| ==> 0 <= rows[y][i] <= FullWidth()
      requires LinesDone(rows, y, done, antialias, w, tileBounds.w, b0, minY, maxY, minX, maxX, table.rows, tileBuffer[..])
      modifies table, table.nodes, tileBuffer
      ensures Valid()
      ensures LinesDone(rows, y + 1, done', antialias, w, tileBounds.w, b0, minY', maxY', minX', maxX', table.rows, tileBuffer[..])
    {
      ghost var row := SortSeq(rows[y]);
      ghost var b1 := tileBuffer[..];
      assert table.rows[y] == rows[y];
      minY', maxY', minX', maxX' := RenderLine(y, minY, maxY, minX, maxX);
      RowsSnoc(done, row, antialias, w);
      CoverStep(b0, b1, tileBuffer[..], done, row, antialias, tileBounds.w);
      RowsUpdate(done, rows, row);
      SortedRowsSnoc(rows, y);
      done' := done + [row];
    }

    /** `render_nodes` for the clipped tile `tb`: sorts every non-empty row,
        draws its pairs into the pixel row `y >> aa`, and reports the bounds
        of what it drew. The buffer gains each pixel's coverage by the sorted
        rows, and the bounds are `RenderBounds` of those rows. */
    method RenderNodes(tb: Rect) returns (bounds: Rect)
      requires Valid() && tileBounds == TileBoundsFor(antialias)
      requires forall y :: 0 <= y < RowCount ==> |table.rows[y]| % 2 == 0
      requires RowsInRange(table.rows, FullWidth())
      modifies table, table.nodes, tileBuffer
      ensures Valid()
      ensures table.rows == SortedRows(old(table.rows))
      ensures tileBuffer[..] == CoverAdded(old(tileBuffer[..]), table.rows, antialias, tileBounds.w)
      ensures bounds == RenderBounds(table.rows, antialias, tb.w)
    {
      var S := Scale(antialias);
      var maxY := -1;
      var minY := 0;
      var minX := tb.w;
      var maxX := 0;
      ghost var rows := table.rows;
      ghost var done: seq<seq<int>> := [];
      ghost var b0 := tileBuffer[..];
      var y := 0;
      while y < RowCount
        invariant 0 <= y <= RowCount && Valid()
        invariant LinesDone(rows, y, done, antialias, tb.w, tileBounds.w, b0, minY, maxY, minX, maxX, table.rows, tileBuffer[..])
      {
        minY, maxY, minX, maxX, done := RenderNextLine(y, minY, maxY, minX, maxX, tb.w, rows, done, b0);
        y := y + 1;
      }
      assert rows[..RowCount] == rows && table.rows == done;
      minY := minY / S;
      maxY := maxY / S;
      bounds := Rect(minX, minY, if maxX >= minX then maxX + 1 - minX else 0, if maxY >= minY then maxY + 1 - minY else 0);
    }

    // ----- build_nodes and draw_polygon -----

    /** One pass of `build_nodes`' loop: the segment from `a` to `b` is
        edge `i` of `es`, and the rows, `base` plus the nodes of the edges
        before it, gain its nodes. */
    method AddEdge(a: Point, b: Point, ghost es: seq<(Point, Point)>, ghost i: nat, ghost base: seq<seq<int>>)
      requires Valid() && i < |es| && es[i] == (a, b) && |base| == RowCount
      requires -0x8000_0000 < b.x - a.x < 0x8000_0000
      requires forall y :: 0 <= y < RowCount ==> table.rows[y] == base[y] + NodesOf(es[..i], FullWidth(), y)
      requires forall y :: 0 <= y < RowCount ==> |base[y]| + |NodesOf(es, FullWidth(), y)| <= Capacity
      modifies table, table.nodes, table.counts
      ensures Valid()
      ensures forall y :: 0 <= y < RowCount ==> table.rows[y] == base[y] + NodesOf(es[..i + 1], FullWidth(), y)
    {
      ghost var fw := FullWidth();
      forall y | 0 <= y < RowCount
        ensures NodesOf(es[..i + 1], fw, y) == NodesOf(es[..i], fw, y) + EdgeNodes(a, b, fw, y)
        ensures |NodesOf(es[..i + 1], fw, y)| <= |NodesOf(es, fw, y)|
      {
        NodesOfStep(es, i, fw, y);
      }
      AddLineSegmentToNodes(a, b);
    }

    /** `build_nodes` for the tile whose clipped bounds are `tb`: each point
        is scaled to sub-samples and moved so the tile's origin is `(0, 0)`,
        and the edges are walked starting with the closing edge from the last
        point. Every row gains the contour's nodes in edge order. */
    method BuildNodes(q: seq<Point>, tb: Rect)
      requires Valid() && |q| > 0
      requires forall i :: 0 <= i < |q| ==> -0x1000_0000 < q[i].x < 0x1000_0000
      requires forall y :: 0 <= y < RowCount ==>
        |table.rows[y]| + |ContourRow(q, antialias, tb.x, tb.y, FullWidth(), y)| <= Capacity
      modifies table, table.nodes, table.counts
      ensures Valid()
      ensures forall y :: 0 <= y < RowCount ==>
        table.rows[y] == old(table.rows[y]) + ContourRow(q, antialias, tb.x, tb.y, FullWidth(), y)
    {
      ghost var es := ContourEdges(TileSpace(q, antialias, tb.x, tb.y));
      ghost var base := table.rows;
      var n := |q|;
      var last := TilePoint(q[n - 1], antialias, tb.x, tb.y);
      var i := 0;
      while i < n
        invariant 0 <= i <= n && Valid()
        invariant last == TilePoint(q[if i == 0 then n - 1 else i - 1], antialias, tb.x, tb.y)
        invariant forall y :: 0 <= y < RowCount ==> table.rows[y] == base[y] + NodesOf(es[..i], FullWidth(), y)
      {
        var point := TilePoint(q[i], antialias, tb.x, tb.y);
        ghost var j := if i == 0 then n - 1 else i - 1;
        TileSpacePoint(q, antialias, tb.x, tb.y, i, j);
        TileSpacePoint(q, antialias, tb.x, tb.y, j, j);
        AddEdge(last, point, es, i, base);
        last := point;
        i := i + 1;
      }
      assert es[..n] == es;
    }

    /** `memset(tile.data, 0, tile_buffer_size)`: every byte of the tile
        buffer becomes 0 (the padding byte already is). */
    method ClearBuffer()
      requires Valid()
      modifies tileBuffer
      ensures Valid()
      ensures forall j :: 0 <= j < tileBuffer.Length ==> tileBuffer[j] == 0
    {
      var j := 0;
      while j < TileBufferSize
        invariant 0 <= j <= TileBufferSize && Valid()
        invariant forall k :: 0 <= k < j ==> tileBuffer[k] == 0
      {
        tileBuffer[j] := 0;
        j := j + 1;
      }
    }

    /** `draw_polygon`'s loop over the contours, `build_nodes` for each,
        starting from an empty node table: row `y` ends up holding the nodes
        of every contour, contour by contour. */
    method BuildContours(ps: seq<seq<Point>>, tb: Rect)
      requires Valid() && ContoursNonEmpty(ps) && XInRange(ps) && NodeCapacity(ps, antialias)
      requires forall y :: 0 <= y < RowCount ==> table.rows[y] == []
      modifies table, table.nodes, table.counts
      ensures Valid()
      ensures table.rows == PolygonRows(ps, antialias, tb.x, tb.y, FullWidth())
    {
      ghost var fw := FullWidth();
      var k := 0;
      while k < |ps|
        invariant 0 <= k <= |ps| && Valid() && fw == FullWidth() && ContoursNonEmpty(ps[..k])
        invariant forall y :: 0 <= y < RowCount ==> table.rows[y] == PolygonRow(ps[..k], antialias, tb.x, tb.y, fw, y)
      {
        forall y | 0 <= y < RowCount
          ensures PolygonRow(ps[..k + 1], antialias, tb.x, tb.y, fw, y)
               == PolygonRow(ps[..k], antialias, tb.x, tb.y, fw, y) + ContourRow(ps[k], antialias, tb.x, tb.y, fw, y)
          ensures |PolygonRow(ps[..k], antialias, tb.x, tb.y, fw, y)| + |ContourRow(ps[k], antialias, tb.x, tb.y, fw, y)| <= Capacity
        {
          ContourRoom(ps, k, antialias, tb.x, tb.y, fw, y);
        }
        BuildNodes(ps[k], tb);
        k := k + 1;
      }
      assert ps[..|ps|] == ps;
    }

    /** One clipped, non-empty cell `tb` rendered from scratch: the node
        counts and the buffer are cleared, every contour's nodes built, and
        `render_nodes` run. The rows end up sorted, the buffer holds each
        pixel's coverage and the bounds are those of the rendered rows. */
    method RenderTile(ps: seq<seq<Point>>, tb: Rect) returns (bounds: Rect)
      requires Valid() && tileBounds == TileBoundsFor(antialias)
      requires ContoursNonEmpty(ps) && XInRange(ps) && NodeCapacity(ps, antialias)
      modifies table, table.nodes, table.counts, tileBuffer
      ensures Valid()
      ensures table.rows == TileRows(ps, antialias, tb)
      ensures tileBuffer[..] == CoverBuffer(TileRows(ps, antialias, tb), antialias, tileBounds.w)
      ensures bounds == RenderBounds(TileRows(ps, antialias, tb), antialias, tb.w)
    {
      table.Clear();
      ClearBuffer();
      ghost var cleared := tileBuffer[..];
      BuildContours(ps, tb);
      ghost var fw := FullWidth();
      forall y | 0 <= y < RowCount
        ensures |PolygonRow(ps, antialias, tb.x, tb.y, fw, y)| % 2 == 0
      {
        PolygonRowEven(ps, antialias, tb.x, tb.y, fw, y);
      }
      bounds := RenderNodes(tb);
      assert table.rows == TileRows(ps, antialias, tb);
      BufferIsCover(cleared, table.rows, antialias, tileBounds.w);
    }

    /** The body of `draw_polygon`'s tile loops for the cell at `(cx, cy)`:
        clip the cell, render it, and hand the callback the rendered bounds
        moved to the cell and clipped to it, with the data pointer moved to
        the rendered origin. The callback receives exactly the tile `TileAt`
        describes, or nothing. */
    method DrawTile(ps: seq<seq<Point>>, cx: int, cy: int)
      requires Valid() && tileBounds == TileBoundsFor(antialias)
      requires ContoursNonEmpty(ps) && XInRange(ps) && NodeCapacity(ps, antialias)
      modifies this`log, table, table.nodes, table.counts, tileBuffer
      ensures Valid()
      ensures log == old(log) + TileSeq(TileAt(ps, antialias, clip, cx, cy))
    {
      ghost var want := TileSeq(TileAt(ps, antialias, clip, cx, cy));
      var tb := RectIntersection(Rect(cx, cy, tileBounds.w, tileBounds.h), clip);
      TileAtCell(ps, antialias, clip, cx, cy, tb);
      if RectEmpty(tb) {
        AppendAssoc(log, [], []);
        return;
      }
      var bounds := RenderTile(ps, tb);
      ghost var rows := TileRows(ps, antialias, tb);
      var offset := bounds.x + tileBounds.w * bounds.y;
      var moved := Rect(bounds.x + tb.x, bounds.y + tb.y, bounds.w, bounds.h);
      var visible := RectIntersection(moved, tb);
      TileFromRowsVisible(rows, antialias, tb, bounds, tileBounds.w, visible, offset);
      if RectEmpty(visible) {
        AppendAssoc(log, [], []);
        return;
      }
      var data := tileBuffer[..];
      ghost var t := Tile(visible, tileBounds.w, data, offset);
      assert want == [t];
      log := log + [t];
    }

    /** One pass of `draw_polygon`'s inner loop: the cell at `(x, y)` of a
        band whose tiles from its left edge up to `x` are `done`; `done'`
        adds the cell's tile, if any. */
    method DrawCell(ps: seq<seq<Point>>, pb: Rect, y: int, x: int, w: int, ghost cell: (int, int) -> seq<Tile>,
                    ghost aa: Level, ghost cl: Rect, ghost log0: seq<Tile>, ghost done: seq<Tile>)
      returns (ghost done': seq<Tile>)
      requires Valid() && aa == antialias && cl == clip && tileBounds == TileBoundsFor(aa) && w == tileBounds.w
      requires ContoursNonEmpty(ps) && XInRange(ps) && NodeCapacity(ps, aa) && CellsOf(cell, ps, aa, cl)
      requires x < pb.x + pb.w && log == log0 + done && BandProgress(cell, pb, w, y, x, done)
      modifies this`log, table, table.nodes, table.counts, tileBuffer
      ensures Valid() && antialias == aa && clip == cl && tileBounds == TileBoundsFor(aa)
      ensures log == log0 + done' && BandProgress(cell, pb, w, y, x + w, done')
    {
      ghost var t := TileSeq(TileAt(ps, aa, cl, x, y));
      assert cell(x, y) == t;
      ghost var next := ColumnsFrom(cell, pb, w, y, x + w);
      ColumnsFromStep(cell, pb, w, y, x);
      AppendAssoc(done, t, next);
      AppendAssoc(log0, done, t);
      DrawTile(ps, x, y);
      done' := done + t;
    }

    /** `draw_polygon`'s inner loop: the cells of the band at `y`, from the
        left edge of the polygon bounds `pb`, one tile width at a time. */
    method DrawBand(ps: seq<seq<Point>>, pb: Rect, y: int, ghost cell: (int, int) -> seq<Tile>)
      requires Valid() && tileBounds == TileBoundsFor(antialias)
      requires ContoursNonEmpty(ps) && XInRange(ps) && NodeCapacity(ps, antialias)
      requires CellsOf(cell, ps, antialias, clip)
      modifies this`log, table, table.nodes, table.counts, tileBuffer
      ensures Valid() && antialias == old(antialias) && clip == old(clip) && tileBounds == old(tileBounds)
      ensures log == old(log) + ColumnsFrom(cell, pb, tileBounds.w, y, pb.x)
    {
      ghost var aa, cl, log0 := antialias, clip, log;
      var w := tileBounds.w;
      var x := pb.x;
      ghost var done: seq<Tile> := [];
      assert BandProgress(cell, pb, w, y, x, done);
      while x < pb.x + pb.w
        invariant Valid() && tileBounds == TileBoundsFor(aa) && w == tileBounds.w
        invariant antialias == aa && clip == cl && log == log0 + done
        invariant BandProgress(cell, pb, w, y, x, done)
        decreases pb.x + pb.w - x
      {
        done := DrawCell(ps, pb, y, x, w, cell, aa, cl, log0, done);
        x := x + w;
      }
      ColumnsFromEnd(cell, pb, w, y, x);
      PrefixOfWhole(done, ColumnsFrom(cell, pb, w, y, x), ColumnsFrom(cell, pb, w, y, pb.x));
    }

    /** `draw_polygon`'s outer loop: the bands of the polygon bounds `pb`,
        from its top edge, one tile height at a time. */
    method DrawBands(ps: seq<seq<Point>>, pb: Rect, ghost cell: (int, int) -> seq<Tile>)
      requires Valid() && tileBounds == TileBoundsFor(antialias)
      requires ContoursNonEmpty(ps) && XInRange(ps) && NodeCapacity(ps, antialias)
      requires CellsOf(cell, ps, antialias, clip)
      modifies this`log, table, table.nodes, table.counts, tileBuffer
      ensures Valid()
      ensures log == old(log) + BandsFrom(cell, pb, tileBounds.w, tileBounds.h, pb.y)
    {
      ghost var aa, cl, log0 := antialias, clip, log;
      var w, h := tileBounds.w, tileBounds.h;
      var y := pb.y;
      ghost var done: seq<Tile> := [];
      assert BandsProgress(cell, pb, w, h, y, done);
      while y < pb.y + pb.h
        invariant Valid() && tileBounds == TileBoundsFor(aa) && w == tileBounds.w && h == tileBounds.h
        invariant antialias == aa && clip == cl && log == log0 + done
        invariant BandsProgress(cell, pb, w, h, y, done)
        decreases pb.y + pb.h - y
      {
        ghost var band := ColumnsFrom(cell, pb, w, y, pb.x);
        ghost var rest := BandsFrom(cell, pb, w, h, y + h);
        BandsFromStep(cell, pb, w, h, y);
        AppendAssoc(done, band, rest);
        AppendAssoc(log0, done, band);
        DrawBand(ps, pb, y, cell);
        done := done + band;
        y := y + h;
      }
      BandsFromEnd(cell, pb, w, h, y);
      PrefixOfWhole(done, BandsFrom(cell, pb, w, h, y), BandsFrom(cell, pb, w, h, pb.y));
    }

    /** `draw_polygon`: nothing for a polygon without contours; otherwise the
        tiles of every cell of the polygon bounds, in raster order. */
    method DrawPolygon(ps: seq<seq<Point>>)
      requires Valid() && tileBounds == TileBoundsFor(antialias)
      requires ContoursNonEmpty(ps) && XInRange(ps) && NodeCapacity(ps, antialias)
      modifies this`log, table, table.nodes, table.counts, tileBuffer
      ensures Valid()
      ensures log == old(log) + PolygonTiles(ps, antialias, clip)
    {
      if |ps| == 0 {
        AppendAssoc(log, [], []);
        return;
      }
      var pb := PolygonBounds(ps);
      ghost var cell := CellTiles(ps, antialias, clip);
      CellTilesAreCells(ps, antialias, clip);
      DrawBands(ps, pb, cell);
    }
  }
}
