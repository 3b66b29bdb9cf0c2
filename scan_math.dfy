/**
  Integer helpers shared by the three rasteriser variants: the min/max/clamp
  arithmetic the walkers use, power-of-two shifts, and the row sort.

  Shifts by the anti-alias level are multiplications (`v << aa`) and floor
  divisions (`v >> aa`) by `Pow2(aa)`; Dafny's `/` on a positive divisor is
  floor division, which is what an arithmetic right shift computes.
*/
module ScanMath {

  /** A vertex with integer coordinates (the coordinate type is an integer here). */
  datatype Point = Point(x: int, y: int)

  datatype Option<T> = None | Some(value: T)

  /** Anti-alias levels 0 (none), 1 (4 samples) and 2 (16 samples). */
  type Level = a: int | 0 <= a <= 2

  function Min(a: int, b: int): int { if a < b then a else b }

  function Max(a: int, b: int): int { if a > b then a else b }

  function Abs(v: int): nat { if v < 0 then -v else v }

  /** Clamps `v` into `[lo, hi]` the way the walkers do, `max(min(v, hi), lo)`. */
  function Clamp(v: int, lo: int, hi: int): (r: int)
    requires lo <= hi
    ensures lo <= r <= hi
    ensures lo <= v <= hi ==> r == v
    ensures v < lo ==> r == lo
    ensures hi < v ==> r == hi
  {
    Max(Min(v, hi), lo)
  }

  /** The mathematical sign of `v`. */
  function Signum(v: int): int { if v > 0 then 1 else if v < 0 then -1 else 0 }

  /** The `sign()` helper shared by all three rasterisers: on 32-bit two's
      complement it computes `((uint32)-v >> 31) - ((uint32)v >> 31)`. The
      one input outside the mathematical sign is `INT32_MIN`: there `-v`
      is signed overflow, undefined in C, and the 0 given here is what
      wrapping hardware produces. The walkers' requires keep it out of
      reach. */
  function Sign(v: int): (r: int)
    requires -0x8000_0000 <= v < 0x8000_0000
    ensures v != -0x8000_0000 ==> r == Signum(v)
    ensures v == -0x8000_0000 ==> r == 0
  {
    var neg := (-v) % 0x1_0000_0000;
    var pos := v % 0x1_0000_0000;
    neg / 0x8000_0000 - pos / 0x8000_0000
  }

  /** `a * n` as `n` repeated additions: the walkers keep their products as
      running sums, and stating their loop invariants with `Times` keeps
      them linear. */
  function Times(a: int, n: nat): (r: int)
    ensures a >= 0 ==> r >= 0
  {
    if n == 0 then 0 else Times(a, n - 1) + a
  }

  lemma {:induction false} TimesMul(a: int, n: nat)
    ensures Times(a, n) == a * n
  {
    if n > 0 {
      TimesMul(a, n - 1);
      assert a * n == a * (n - 1) + a;
    }
  }

  /** `1 << n` */
  function Pow2(n: nat): (r: nat)
    ensures r >= 1
  {
    if n == 0 then 1 else 2 * Pow2(n - 1)
  }

  /** Sub-samples per pixel along one axis at level `aa`: `1 << aa`. */
  function Scale(aa: Level): (s: nat)
    ensures s == Pow2(aa)
    ensures aa == 0 ==> s == 1
    ensures aa == 1 ==> s == 2
    ensures aa == 2 ==> s == 4
  {
    Pow2(aa)
  }

  /** Euclidean division by a positive divisor is unique. */
  lemma DivModUnique(q: int, d: int, r: int)
    requires d > 0 && 0 <= r < d
    ensures (q * d + r) / d == q
    ensures (q * d + r) % d == r
  {
    var n := q * d + r;
    var q', r' := n / d, n % d;
    assert q' * d + r' == q * d + r;
    assert (q' - q) * d == r - r';
    MulAway(q' - q, d);
  }

  /** Floor division (an arithmetic right shift) is monotone. */
  lemma DivMono(a: int, b: int, d: int)
    requires a <= b && d > 0
    ensures a / d <= b / d
  {
    var qa, qb := a / d, b / d;
    assert qa * d + a % d == a && qb * d + b % d == b;
    assert (qa - qb) * d == (a - a % d) - (b - b % d);
    MulAway(qa - qb, d);
  }

  lemma MulMono(a: int, b: int, c: nat)
    requires a <= b
    ensures a * c <= b * c
  {
    assert b * c - a * c == (b - a) * c;
  }

  /** A non-zero multiple of `d` lies at least `d` away from 0. */
  lemma MulAway(k: int, d: int)
    requires d >= 0
    ensures k >= 1 ==> k * d >= d
    ensures k <= -1 ==> k * d <= -d
  {
    if k >= 1 {
      MulMono(1, k, d);
    } else if k <= -1 {
      MulMono(k, -1, d);
    }
  }

  // ----- sorting: the contract the node sorts (qsort / std::sort) are modelled by -----

  predicate Sorted(s: seq<int>)
  {
    forall i, j :: 0 <= i < j < |s| ==> s[i] <= s[j]
  }

  /** Inserts `x` before the first element of `s` not below it. */
  function Insert(x: int, s: seq<int>): (r: seq<int>)
    ensures |r| == |s| + 1
    decreases |s|
  {
    if |s| == 0 then [x]
    else if x <= s[0] then [x] + s
    else [s[0]] + Insert(x, s[1..])
  }

  /** Inserting into a sorted sequence keeps it sorted and adds exactly `x`. */
  lemma {:induction false} InsertSpec(x: int, s: seq<int>)
    requires Sorted(s)
    ensures Sorted(Insert(x, s))
    ensures multiset(Insert(x, s)) == multiset(s) + multiset{x}
    ensures Insert(x, s)[0] == (if |s| == 0 then x else Min(x, s[0]))
    decreases |s|
  {
    if |s| > 0 && x > s[0] {
      assert s == [s[0]] + s[1..];
      InsertSpec(x, s[1..]);
    }
  }

  /** Ascending sort of a node row (insertion sort as a reference definition). */
  function SortSeq(s: seq<int>): (r: seq<int>)
    ensures |r| == |s|
  {
    if |s| == 0 then []
    else Insert(s[0], SortSeq(s[1..]))
  }

  /** The sort's result is sorted and a permutation of its input. */
  lemma {:induction false} SortSeqSpec(s: seq<int>)
    ensures Sorted(SortSeq(s))
    ensures multiset(SortSeq(s)) == multiset(s)
  {
    if |s| > 0 {
      assert s == [s[0]] + s[1..];
      SortSeqSpec(s[1..]);
      InsertSpec(s[0], SortSeq(s[1..]));
    }
  }

  /** Sorting does not move values out of a range that held every input. */
  lemma SortSeqBounds(s: seq<int>, lo: int, hi: int)
    requires forall i :: 0 <= i < |s| ==> lo <= s[i] <= hi
    ensures forall i :: 0 <= i < |SortSeq(s)| ==> lo <= SortSeq(s)[i] <= hi
  {
    var r := SortSeq(s);
    SortSeqSpec(s);
    forall i | 0 <= i < |r| ensures lo <= r[i] <= hi {
      assert r[i] in multiset(r);
      assert r[i] in multiset(s);
      var j :| 0 <= j < |s| && s[j] == r[i];
    }
  }
}
