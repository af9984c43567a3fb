/** Squared Euclidean distance over idealised (real-valued) vectors, memvid/src/simd.rs. */
module Vectors {

  type Vector = seq<real>

  function Square(x: real): (r: real)
    ensures r >= 0.0
  {
    x * x
  }

  /** The sum of squared differences of coordinates lo, ..., hi - 1. */
  ghost function SquaresBetween(a: Vector, b: Vector, lo: nat, hi: nat): (r: real)
    requires |a| == |b| && lo <= hi <= |a|
    ensures r >= 0.0
    decreases hi
  {
    if lo == hi then 0.0 else SquaresBetween(a, b, lo, hi - 1) + Square(a[hi - 1] - b[hi - 1])
  }

  ghost function SqDist(a: Vector, b: Vector): (r: real)
    requires |a| == |b|
    ensures r >= 0.0
  {
    SquaresBetween(a, b, 0, |a|)
  }

  // ---------- The eight-lane loop ----------

  type Lanes = s: seq<real> | |s| == 8 witness [0.0, 0.0, 0.0, 0.0, 0.0, 0.0, 0.0, 0.0]

  const ZERO_LANES: Lanes := [0.0, 0.0, 0.0, 0.0, 0.0, 0.0, 0.0, 0.0]

  function HorizontalSum(s: Lanes): real {
    s[0] + s[1] + s[2] + s[3] + s[4] + s[5] + s[6] + s[7]
  }

  /** What one turn of the lane loop adds: the squared differences of the chunk at `offset`. */
  function AddSquaredChunk(s: Lanes, a: Vector, b: Vector, offset: nat): Lanes
    requires offset + 8 <= |a| <= |b|
  {
    seq(8, j requires 0 <= j < 8 => s[j] + Square(a[offset + j] - b[offset + j]))
  }

  lemma ChunkExtendsSum(s: Lanes, a: Vector, b: Vector, offset: nat)
    requires |a| == |b| && offset + 8 <= |a|
    ensures HorizontalSum(AddSquaredChunk(s, a, b, offset)) - HorizontalSum(s)
         == SquaresBetween(a, b, 0, offset + 8) - SquaresBetween(a, b, 0, offset)
  {
    SumSplits(a, b, 0, offset, offset + 8);
    assert SquaresBetween(a, b, offset, offset + 1) == Square(a[offset] - b[offset]);
    assert SquaresBetween(a, b, offset, offset + 4) == SquaresBetween(a, b, offset, offset + 1)
      + Square(a[offset + 1] - b[offset + 1]) + Square(a[offset + 2] - b[offset + 2]) + Square(a[offset + 3] - b[offset + 3]) by {
      assert SquaresBetween(a, b, offset, offset + 2) == SquaresBetween(a, b, offset, offset + 1) + Square(a[offset + 1] - b[offset + 1]);
      assert SquaresBetween(a, b, offset, offset + 3) == SquaresBetween(a, b, offset, offset + 2) + Square(a[offset + 2] - b[offset + 2]);
    }
    assert SquaresBetween(a, b, offset, offset + 6) == SquaresBetween(a, b, offset, offset + 4)
      + Square(a[offset + 4] - b[offset + 4]) + Square(a[offset + 5] - b[offset + 5]) by {
      assert SquaresBetween(a, b, offset, offset + 5) == SquaresBetween(a, b, offset, offset + 4) + Square(a[offset + 4] - b[offset + 4]);
    }
    assert SquaresBetween(a, b, offset, offset + 7) == SquaresBetween(a, b, offset, offset + 6) + Square(a[offset + 6] - b[offset + 6]);
  }

  lemma NothingSummed(a: Vector, b: Vector)
    requires |a| == |b|
    ensures HorizontalSum(ZERO_LANES) == 0.0 == SquaresBetween(a, b, 0, 0)
  {
  }

  lemma OneMoreSquare(a: Vector, b: Vector, k: nat)
    requires |a| == |b| && k < |a|
    ensures var diff := a[k] - b[k]; SquaresBetween(a, b, 0, k + 1) == SquaresBetween(a, b, 0, k) + diff * diff
  {
  }

  lemma PrefixChunk(s: Lanes, a: Vector, b: Vector, offset: nat)
    requires offset + 8 <= |a| <= |b|
    ensures AddSquaredChunk(s, a, b[..|a|], offset) == AddSquaredChunk(s, a, b, offset)
  {
  }

  /** l2_distance_squared_simd: eight lanes, a horizontal sum, then the scalar remainder. Of a longer second
      vector, which only a build with debug assertions rejects, the first |a| coordinates count. */
  method SimdSqDist(a: Vector, b: Vector) returns (total: real)
    requires |a| <= |b|
    ensures total == SqDist(a, b[..|a|])
    ensures |a| == |b| ==> total == SqDist(a, b)
  {
    hide HorizontalSum, AddSquaredChunk, SquaresBetween;
    ghost var c := b[..|a|];
    var chunks, remainder := |a| / 8, |a| % 8;
    var sum := ZERO_LANES;
    NothingSummed(a, c);
    for i := 0 to chunks
      invariant HorizontalSum(sum) == SquaresBetween(a, c, 0, i * 8)
    {
      ChunkExtendsSum(sum, a, c, i * 8);
      PrefixChunk(sum, a, b, i * 8);
      sum := AddSquaredChunk(sum, a, b, i * 8);
    }
    total := HorizontalSum(sum);
    var offset := chunks * 8;
    for i := 0 to remainder
      invariant total == SquaresBetween(a, c, 0, offset + i)
    {
      OneMoreSquare(a, c, offset + i);
      var diff := a[offset + i] - b[offset + i];
      total := total + diff * diff;
    }
    assert |a| == |b| ==> c == b;
  }

  // ---------- Laws of the squared distance ----------

  lemma {:induction false} SumSplits(a: Vector, b: Vector, lo: nat, mid: nat, hi: nat)
    requires |a| == |b| && lo <= mid <= hi <= |a|
    ensures SquaresBetween(a, b, lo, hi) == SquaresBetween(a, b, lo, mid) + SquaresBetween(a, b, mid, hi)
    decreases hi
  {
    if mid < hi {
      SumSplits(a, b, lo, mid, hi - 1);
    }
  }

  /** The sum over a window is the squared distance of the two sub-vectors. */
  lemma {:induction false} WindowIsSubvector(a: Vector, b: Vector, lo: nat, hi: nat)
    requires |a| == |b| && lo <= hi <= |a|
    ensures SquaresBetween(a, b, lo, hi) == SqDist(a[lo..hi], b[lo..hi])
  {
    WindowShifts(a, b, lo, hi, hi);
  }

  lemma {:induction false} WindowShifts(a: Vector, b: Vector, lo: nat, mid: nat, hi: nat)
    requires |a| == |b| && lo <= mid <= hi <= |a|
    ensures SquaresBetween(a, b, lo, mid) == SquaresBetween(a[lo..hi], b[lo..hi], 0, mid - lo)
    decreases mid
  {
    if lo < mid {
      WindowShifts(a, b, lo, mid - 1, hi);
    }
  }

  lemma {:induction false} SumSymmetric(a: Vector, b: Vector, n: nat)
    requires |a| == |b| && n <= |a|
    ensures SquaresBetween(a, b, 0, n) == SquaresBetween(b, a, 0, n)
  {
    if n > 0 {
      SumSymmetric(a, b, n - 1);
      assert Square(a[n - 1] - b[n - 1]) == Square(b[n - 1] - a[n - 1]);
    }
  }

  lemma DistSymmetric(a: Vector, b: Vector)
    requires |a| == |b|
    ensures SqDist(a, b) == SqDist(b, a)
  {
    SumSymmetric(a, b, |a|);
  }

  lemma {:induction false} SumZeroOnlyIfEqual(a: Vector, b: Vector, n: nat)
    requires |a| == |b| && n <= |a|
    ensures SquaresBetween(a, b, 0, n) == 0.0 <==> a[..n] == b[..n]
  {
    if n > 0 {
      SumZeroOnlyIfEqual(a, b, n - 1);
      SquareSign(a[n - 1] - b[n - 1]);
      assert a[..n] == a[..n - 1] + [a[n - 1]] && b[..n] == b[..n - 1] + [b[n - 1]];
    }
  }

  lemma SameSignProduct(x: real, y: real)
    requires (x > 0.0 && y > 0.0) || (x < 0.0 && y < 0.0)
    ensures x * y > 0.0
  {
  }

  lemma SquareSign(x: real)
    ensures x != 0.0 ==> Square(x) > 0.0
    ensures x == 0.0 ==> Square(x) == 0.0
  {
    if x != 0.0 {
      var y: real :| y == x;
      SameSignProduct(x, y);
      assert Square(x) == x * y;
    }
  }

  lemma DistZeroIffEqual(a: Vector, b: Vector)
    requires |a| == |b|
    ensures SqDist(a, b) == 0.0 <==> a == b
  {
    SumZeroOnlyIfEqual(a, b, |a|);
    assert a[..|a|] == a && b[..|b|] == b;
  }

  lemma RelaxedTriangleTerm(x: real, y: real, z: real)
    ensures Square(x - y) <= 2.0 * Square(x - z) + 2.0 * Square(y - z)
  {
    var p, q := x - z, z - y;
    assert (p - q) * (p - q) == p * p - 2.0 * (p * q) + q * q >= 0.0;
    assert (p + q) * (p + q) == p * p + 2.0 * (p * q) + q * q;
  }

  lemma {:induction false} RelaxedTriangleUpTo(a: Vector, b: Vector, c: Vector, n: nat)
    requires |a| == |b| == |c| && n <= |a|
    ensures SquaresBetween(a, b, 0, n) <= 2.0 * SquaresBetween(a, c, 0, n) + 2.0 * SquaresBetween(b, c, 0, n)
  {
    if n > 0 {
      RelaxedTriangleUpTo(a, b, c, n - 1);
      RelaxedTriangleTerm(a[n - 1], b[n - 1], c[n - 1]);
    }
  }

  /** Two points near a common centre are near each other, in squared distance up to a factor. */
  lemma RelaxedTriangle(a: Vector, b: Vector, c: Vector)
    requires |a| == |b| == |c|
    ensures SqDist(a, b) <= 2.0 * SqDist(a, c) + 2.0 * SqDist(b, c)
  {
    RelaxedTriangleUpTo(a, b, c, |a|);
  }

  // ---------- Cauchy-Schwarz, and the triangle inequality of the rooted distance ----------

  /** `root` is the square root on the non-negative reals. */
  ghost predicate IsRoot(root: real -> real) {
    forall x :: x >= 0.0 ==> root(x) >= 0.0 && Square(root(x)) == x
  }

  /** The inner product of a - c and c - b over the first n coordinates. */
  ghost function Cross(a: Vector, c: Vector, b: Vector, n: nat): real
    requires |a| == |b| == |c| && n <= |a|
  {
    if n == 0 then 0.0 else Cross(a, c, b, n - 1) + (a[n - 1] - c[n - 1]) * (c[n - 1] - b[n - 1])
  }

  lemma LargerSquare(x: real, y: real)
    requires 0.0 <= x < y
    ensures x * x < y * y
  {
    SameSignProduct(y - x, y + x);
    assert (y - x) * (y + x) == y * y - x * x;
  }

  /** A non-negative number is at least every number whose square it dominates. */
  lemma SquareMonotone(x: real, y: real)
    requires x >= 0.0 && y * y <= x * x
    ensures y <= x && -y <= x
  {
    if y > x {
      LargerSquare(x, y);
    } else if -y > x {
      LargerSquare(x, -y);
    }
  }

  lemma ProductMonotone(x: real, y: real, z: real)
    requires x <= y && z >= 0.0
    ensures x * z <= y * z
  {
    var d := y - x;
    assert d * z >= 0.0;
    assert d * z == y * z - x * z;
  }

  lemma AmGm(s: real, t: real)
    ensures 4.0 * (s * t) <= (s + t) * (s + t)
  {
    assert (s + t) * (s + t) - 4.0 * (s * t) == (s - t) * (s - t) >= 0.0;
  }

  /** The cross term of (r + u)^2, where u^2 = x^2 y^2 and r^2 <= p q, is at most p y^2 + q x^2. */
  lemma CrossTermBound(r: real, p: real, q: real, x: real, y: real)
    requires p >= 0.0 && q >= 0.0 && r * r <= p * q
    ensures 2.0 * (r * (x * y)) <= p * (y * y) + q * (x * x)
  {
    var xx, yy, u, rr, pq := x * x, y * y, x * y, r * r, p * q;
    var s, t, w := p * yy, q * xx, 2.0 * (r * u);
    ProductMonotone(rr, pq, u * u);
    assert w * w == 4.0 * (rr * (u * u));
    assert pq * (u * u) == s * t;
    AmGm(s, t);
    assert s >= 0.0 && t >= 0.0;
    SquareMonotone(s + t, w);
  }

  /** r^2 <= p q, named so that the induction below never multiplies sums out. */
  ghost predicate CrossBounded(r: real, p: real, q: real) {
    r * r <= p * q
  }

  lemma CauchyStep(r: real, p: real, q: real, x: real, y: real, rn: real, pn: real, qn: real)
    requires p >= 0.0 && q >= 0.0 && CrossBounded(r, p, q)
    requires rn == r + x * y && pn == p + Square(x) && qn == q + Square(y)
    ensures CrossBounded(rn, pn, qn)
  {
    CrossTermBound(r, p, q, x, y);
    assert (r + x * y) * (r + x * y) == r * r + 2.0 * (r * (x * y)) + (x * x) * (y * y);
    assert (p + x * x) * (q + y * y) == p * q + p * (y * y) + q * (x * x) + (x * x) * (y * y);
  }

  lemma {:induction false} CauchySchwarz(a: Vector, c: Vector, b: Vector, n: nat)
    requires |a| == |b| == |c| && n <= |a|
    ensures CrossBounded(Cross(a, c, b, n), SquaresBetween(a, c, 0, n), SquaresBetween(c, b, 0, n))
  {
    if n == 0 {
      assert Cross(a, c, b, n) == 0.0;
    } else {
      CauchySchwarz(a, c, b, n - 1);
      var x, y := a[n - 1] - c[n - 1], c[n - 1] - b[n - 1];
      var r, p, q := Cross(a, c, b, n - 1), SquaresBetween(a, c, 0, n - 1), SquaresBetween(c, b, 0, n - 1);
      var rn, pn, qn := Cross(a, c, b, n), SquaresBetween(a, c, 0, n), SquaresBetween(c, b, 0, n);
      CauchyStep(r, p, q, x, y, rn, pn, qn);
    }
  }

  lemma {:induction false} SquareExpands(a: Vector, c: Vector, b: Vector, n: nat)
    requires |a| == |b| == |c| && n <= |a|
    ensures SquaresBetween(a, b, 0, n)
         == SquaresBetween(a, c, 0, n) + 2.0 * Cross(a, c, b, n) + SquaresBetween(c, b, 0, n)
  {
    if n > 0 {
      SquareExpands(a, c, b, n - 1);
      var x, y := a[n - 1] - c[n - 1], c[n - 1] - b[n - 1];
      assert Square(a[n - 1] - b[n - 1]) == (x + y) * (x + y) == x * x + 2.0 * (x * y) + y * y;
    }
  }

  /** If the cross term is bounded by the two squared lengths, their roots bound the root of the whole. */
  lemma RootedSum(pp: real, qq: real, r: real, d: real, p: real, q: real)
    requires p >= 0.0 && q >= 0.0 && Square(p) == pp && Square(q) == qq
    requires CrossBounded(r, pp, qq) && Square(d) == pp + 2.0 * r + qq
    ensures d <= p + q
  {
    assert (p * q) * (p * q) == (p * p) * (q * q);
    ProductMonotone(0.0, p, q);
    SquareMonotone(p * q, r);
    assert (p + q) * (p + q) == p * p + 2.0 * (p * q) + q * q;
    SquareMonotone(p + q, d);
  }

  /** Euclidean distance obeys the triangle inequality. */
  lemma TriangleInequality(root: real -> real, a: Vector, c: Vector, b: Vector)
    requires IsRoot(root) && |a| == |b| == |c|
    ensures root(SqDist(a, b)) <= root(SqDist(a, c)) + root(SqDist(c, b))
  {
    CauchySchwarz(a, c, b, |a|);
    SquareExpands(a, c, b, |a|);
    RootedSum(SqDist(a, c), SqDist(c, b), Cross(a, c, b, |a|), root(SqDist(a, b)), root(SqDist(a, c)), root(SqDist(c, b)));
  }
}
