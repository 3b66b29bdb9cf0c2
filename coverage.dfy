/**
  Sub-sample coverage: what a sorted node row adds to the tile buffer.

  Nodes are x positions in sub-sample units; a pixel column `px` covers the
  sub-samples `[px * S, px * S + S)` with `S = 1 << aa`. The nodes of a row
  are read in pairs `(row[2i], row[2i + 1])` (even-odd fill), and each pair is
  a span `[sx, ex)` that adds its overlap with a pixel's sub-samples to that
  pixel. A tile pixel sums this over the `S` node rows that fall in its pixel row.
*/
module Coverage {
  import opened ScanMath

  /** Length of the intersection of the half-open intervals `[a, b)` and `[c, d)`. */
  function Overlap(a: int, b: int, c: int, d: int): (r: nat)
    ensures r <= Max(0, b - a) && r <= Max(0, d - c)
  {
    Max(0, Min(b, d) - Max(a, c))
  }

  lemma OverlapSplit(a: int, m: int, b: int, c: int, d: int)
    requires a <= m <= b
    ensures Overlap(a, m, c, d) + Overlap(m, b, c, d) == Overlap(a, b, c, d)
  {
  }

  lemma OverlapSplitCells(a: int, b: int, c: int, m: int, d: int)
    requires c <= m <= d
    ensures Overlap(a, b, c, m) + Overlap(a, b, m, d) == Overlap(a, b, c, d)
  {
  }

  /** Sub-samples of the span `[sx, ex)` that fall in pixel column `px`. */
  function SpanCover(sx: int, ex: int, aa: Level, px: int): (r: nat)
    ensures r <= Scale(aa)
  {
    Overlap(sx, ex, px * Scale(aa), px * Scale(aa) + Scale(aa))
  }

  /** `x >> aa == px` exactly when `x` is one of pixel `px`'s sub-samples. */
  lemma ShiftPixel(x: int, aa: Level, px: int)
    ensures x / Scale(aa) == px <==> px * Scale(aa) <= x < px * Scale(aa) + Scale(aa)
  {
    var S := Scale(aa);
    var q, r := x / S, x % S;
    assert x == q * S + r && 0 <= r < S;
    if q < px {
      MulMono(q + 1, px, S);
    } else if q > px {
      MulMono(px + 1, q, S);
    }
  }

  /** One more sub-sample `x` adds one to the coverage of its own pixel and
      nothing to any other. */
  lemma SpanCoverStep(sx: int, x: int, aa: Level, px: int)
    requires sx <= x
    ensures SpanCover(sx, x + 1, aa, px) == SpanCover(sx, x, aa, px) + (if x / Scale(aa) == px then 1 else 0)
  {
    var c := px * Scale(aa);
    OverlapSplit(sx, x, x + 1, c, c + Scale(aa));
    ShiftPixel(x, aa, px);
  }

  /** The sub-samples a span gives each pixel, in the shape the anti-aliased
      renderer writes them: a partial first pixel, whole pixels, a partial last pixel. */
  lemma SpanCoverCells(sx: int, ex: int, aa: Level, px: int)
    requires 0 <= sx < ex
    ensures var S := Scale(aa);
      SpanCover(sx, ex, aa, px) ==
        if px < sx / S || px > ex / S then 0
        else if sx / S == ex / S then ex - sx
        else if px == sx / S then S - sx % S
        else if px == ex / S then ex % S
        else S
  {
    var S := Scale(aa);
    var ax, rs, aex, re := sx / S, sx % S, ex / S, ex % S;
    assert sx == ax * S + rs && ex == aex * S + re;
    if px < ax {
      MulMono(px + 1, ax, S);
    } else if px > aex {
      MulMono(aex + 1, px, S);
    } else {
      MulMono(ax, px, S);
      MulMono(px, aex, S);
      if ax < px {
        MulMono(ax + 1, px, S);
      }
      if px < aex {
        MulMono(px + 1, aex, S);
      }
    }
  }

  /** What a span adds to pixel columns `0 .. n - 1` of its row. */
  function SpanSum(sx: int, ex: int, aa: Level, n: nat): nat
  {
    if n == 0 then 0 else SpanSum(sx, ex, aa, n - 1) + SpanCover(sx, ex, aa, n - 1)
  }

  lemma {:induction false} SpanSumOverlap(sx: int, ex: int, aa: Level, n: nat)
    ensures SpanSum(sx, ex, aa, n) == Overlap(sx, ex, 0, n * Scale(aa))
  {
    if n > 0 {
      SpanSumOverlap(sx, ex, aa, n - 1);
      OverlapSplitCells(sx, ex, 0, (n - 1) * Scale(aa), n * Scale(aa));
    }
  }

  /** A span inside a row of `n` pixels adds exactly `ex - sx` to that row. */
  lemma SpanTotal(sx: int, ex: int, aa: Level, n: nat)
    requires 0 <= sx <= ex <= n * Scale(aa)
    ensures SpanSum(sx, ex, aa, n) == ex - sx
  {
    SpanSumOverlap(sx, ex, aa, n);
  }

  /** Coverage of pixel column `px` from the first `n` node pairs of `row`. */
  function PairsCover(row: seq<int>, n: nat, aa: Level, px: int): nat
    requires 2 * n <= |row|
  {
    if n == 0 then 0
    else PairsCover(row, n - 1, aa, px) + SpanCover(row[2 * n - 2], row[2 * n - 1], aa, px)
  }

  /** Coverage of pixel column `px` from a whole node row. */
  function RowCover(row: seq<int>, aa: Level, px: int): nat
  {
    PairsCover(row, |row| / 2, aa, px)
  }

  /** In a sorted row the spans are disjoint, so their coverage of one pixel is
      at most the overlap of the pixel with the hull of the spans. */
  lemma {:induction false} PairsCoverHull(row: seq<int>, n: nat, aa: Level, px: int)
    requires Sorted(row) && 1 <= n && 2 * n <= |row|
    ensures PairsCover(row, n, aa, px)
         <= Overlap(row[0], row[2 * n - 1], px * Scale(aa), px * Scale(aa) + Scale(aa))
  {
    var c, d := px * Scale(aa), px * Scale(aa) + Scale(aa);
    if n > 1 {
      PairsCoverHull(row, n - 1, aa, px);
      OverlapSplit(row[0], row[2 * n - 3], row[2 * n - 2], c, d);
      OverlapSplit(row[0], row[2 * n - 2], row[2 * n - 1], c, d);
    }
  }

  /** No pixel column receives more than `S` sub-samples from one sorted row. */
  lemma RowCoverBound(row: seq<int>, aa: Level, px: int)
    requires Sorted(row)
    ensures RowCover(row, aa, px) <= Scale(aa)
  {
    if |row| / 2 >= 1 {
      PairsCoverHull(row, |row| / 2, aa, px);
    }
  }

  /** Coverage of tile buffer byte `j` (pixel row `j / stride`, column
      `j % stride`) from node rows `0 .. |rows| - 1`. */
  function TileCover(rows: seq<seq<int>>, aa: Level, stride: int, j: int): nat
    requires stride > 0
  {
    if |rows| == 0 then 0
    else
      TileCover(rows[..|rows| - 1], aa, stride, j)
      + (if (|rows| - 1) / Scale(aa) == j / stride then RowCover(rows[|rows| - 1], aa, j % stride) else 0)
  }

  predicate AllSorted(rows: seq<seq<int>>)
  {
    forall y :: 0 <= y < |rows| ==> Sorted(rows[y])
  }

  lemma {:induction false} TileCoverRows(rows: seq<seq<int>>, aa: Level, stride: int, j: int)
    requires stride > 0 && AllSorted(rows)
    ensures TileCover(rows, aa, stride, j)
         <= Scale(aa) * Clamp(|rows| - (j / stride) * Scale(aa), 0, Scale(aa))
  {
    var S, py, n := Scale(aa), j / stride, |rows|;
    if n > 0 {
      TileCoverRows(rows[..n - 1], aa, stride, j);
      ShiftPixel(n - 1, aa, py);
      if (n - 1) / S == py {
        RowCoverBound(rows[n - 1], aa, j % stride);
        assert Clamp(n - py * S, 0, S) == Clamp(n - 1 - py * S, 0, S) + 1;
      } else {
        MulMono(Clamp(n - 1 - py * S, 0, S), Clamp(n - py * S, 0, S), S);
      }
    }
  }

  /** With sorted rows no tile pixel exceeds `S * S = 1 << (2 * aa)`. */
  lemma TileCoverBound(rows: seq<seq<int>>, aa: Level, stride: int, j: int)
    requires stride > 0 && AllSorted(rows)
    ensures TileCover(rows, aa, stride, j) <= Scale(aa) * Scale(aa)
  {
    TileCoverRows(rows, aa, stride, j);
    MulMono(Clamp(|rows| - (j / stride) * Scale(aa), 0, Scale(aa)), Scale(aa), Scale(aa));
  }

  // ----- which pixels a row touches, used by the tight-bounds results -----

  /** True when some non-degenerate pair among the first `n` exists. */
  predicate PairsRendered(row: seq<int>, n: nat)
    requires 2 * n <= |row|
  {
    n > 0 && (PairsRendered(row, n - 1) || row[2 * n - 2] != row[2 * n - 1])
  }

  /** A pixel that received coverage lies under a non-degenerate pair `k`. */
  lemma {:induction false} PairsCoverWitness(row: seq<int>, n: nat, aa: Level, px: int) returns (k: nat)
    requires 2 * n <= |row| && PairsCover(row, n, aa, px) > 0
    ensures k < n && SpanCover(row[2 * k], row[2 * k + 1], aa, px) > 0
  {
    if PairsCover(row, n - 1, aa, px) > 0 {
      k := PairsCoverWitness(row, n - 1, aa, px);
    } else {
      k := n - 1;
    }
  }

  lemma {:induction false} PairsRenderedWitness(row: seq<int>, n: nat, k: nat)
    requires 2 * n <= |row| && k < n && row[2 * k] != row[2 * k + 1]
    ensures PairsRendered(row, n)
  {
    if k < n - 1 {
      PairsRenderedWitness(row, n - 1, k);
    }
  }

  /** A tile byte with coverage has a node row in its pixel row that covers its column. */
  lemma {:induction false} TileCoverWitness(rows: seq<seq<int>>, aa: Level, stride: int, j: int) returns (y: nat)
    requires stride > 0 && TileCover(rows, aa, stride, j) > 0
    ensures y < |rows| && y / Scale(aa) == j / stride && RowCover(rows[y], aa, j % stride) > 0
  {
    var n := |rows|;
    if TileCover(rows[..n - 1], aa, stride, j) > 0 {
      y := TileCoverWitness(rows[..n - 1], aa, stride, j);
      assert rows[..n - 1][y] == rows[y];
    } else {
      y := n - 1;
    }
  }

  /** A span that covers pixel `px` starts at or before it and ends after its first sub-sample. */
  lemma SpanCoverPositive(sx: int, ex: int, aa: Level, px: int)
    requires SpanCover(sx, ex, aa, px) > 0
    ensures sx < ex && sx / Scale(aa) <= px <= (ex - 1) / Scale(aa)
  {
    var S := Scale(aa);
    DivMono(sx, px * S + (S - 1), S);
    DivModUnique(px, S, S - 1);
    DivMono(px * S + 0, ex - 1, S);
    DivModUnique(px, S, 0);
  }
}
