/** Farthest-first seeding and Lloyd iterations, the k-means of memvid/src/vec_pq.rs. */
module KMeans {
  import opened Basics
  import opened Vectors

  datatype KMeansError = EmptyVectorSet | InvalidInitialization

  /** Every vector has dimension dim. */
  ghost predicate Uniform(vectors: seq<Vector>, dim: nat) {
    forall i :: 0 <= i < |vectors| ==> |vectors[i]| == dim
  }

  // ---------- First minimum and last maximum ----------

  /** The FIRST of the least elements: a running minimum that only a strictly smaller element replaces. */
  ghost function FirstMin(s: seq<real>): (j: nat)
    requires s != []
    ensures j < |s|
    ensures forall i :: 0 <= i < |s| ==> s[j] <= s[i]
    ensures forall i :: 0 <= i < j ==> s[j] < s[i]
  {
    var n := |s| - 1;
    if n == 0 then 0
    else
      var j := FirstMin(s[..n]);
      if s[n] < s[j] then n else j
  }

  /** The LAST of the greatest elements, as `Iterator::max_by` selects it. */
  function LastMax(s: seq<real>): (j: nat)
    requires s != []
    ensures j < |s|
    ensures forall i :: 0 <= i < |s| ==> s[i] <= s[j]
    ensures forall i :: j < i < |s| ==> s[i] < s[j]
  {
    var n := |s| - 1;
    if n == 0 then 0
    else
      var j := LastMax(s[..n]);
      if s[j] <= s[n] then n else j
  }

  // ---------- Nearest centroid ----------

  ghost function DistancesTo(v: Vector, cs: seq<Vector>): (ds: seq<real>)
    requires Uniform(cs, |v|)
    ensures |ds| == |cs| && forall i :: 0 <= i < |cs| ==> ds[i] == SqDist(v, cs[i])
  {
    seq(|cs|, i requires 0 <= i < |cs| => SqDist(v, cs[i]))
  }

  ghost function Nearest(v: Vector, cs: seq<Vector>): (j: nat)
    requires cs != [] && Uniform(cs, |v|)
    ensures j < |cs|
    ensures forall i :: 0 <= i < |cs| ==> SqDist(v, cs[j]) <= SqDist(v, cs[i])
    ensures forall i :: 0 <= i < j ==> SqDist(v, cs[j]) < SqDist(v, cs[i])
  {
    var ds := DistancesTo(v, cs);
    assert forall i :: 0 <= i < |cs| ==> ds[i] == SqDist(v, cs[i]);
    FirstMin(ds)
  }

  ghost function MinDist(v: Vector, cs: seq<Vector>): (d: real)
    requires cs != [] && Uniform(cs, |v|)
    ensures d >= 0.0
    ensures forall i :: 0 <= i < |cs| ==> d <= SqDist(v, cs[i])
    ensures d == SqDist(v, cs[Nearest(v, cs)])
  {
    SqDist(v, cs[Nearest(v, cs)])
  }

  /** A running distance that starts at infinity. */
  datatype Distance = Finite(d: real) | Infinite

  predicate Closer(x: real, best: Distance) {
    best.Infinite? || x < best.d
  }

  lemma FirstMinStep(s: seq<real>, i: nat)
    requires i < |s|
    ensures FirstMin(s[..i + 1]) ==
      if i == 0 then 0 else if s[i] < s[FirstMin(s[..i])] then i else FirstMin(s[..i])
  {
    assert s[..i + 1][..i] == s[..i];
  }

  lemma NearestIsFirstMin(v: Vector, cs: seq<Vector>)
    requires cs != [] && Uniform(cs, |v|)
    ensures var ds := DistancesTo(v, cs);
      ds[..|cs|] == ds && Nearest(v, cs) == FirstMin(ds) && MinDist(v, cs) == ds[FirstMin(ds)]
  {
  }

  /** The assignment loop shared by `quantize` and by the assignment step of `kmeans`. */
  method FindNearest(v: Vector, cs: seq<Vector>) returns (best: nat)
    requires cs != [] && Uniform(cs, |v|)
    ensures best == Nearest(v, cs)
  {
    hide FirstMin, DistancesTo, SqDist;
    ghost var ds := DistancesTo(v, cs);
    NearestIsFirstMin(v, cs);
    best := 0;
    var bestDist := Infinite;
    for i := 0 to |cs|
      invariant i == 0 ==> bestDist == Infinite && best == 0
      invariant i > 0 ==> best == FirstMin(ds[..i]) && bestDist == Finite(ds[best])
    {
      var dist := SimdSqDist(v, cs[i]);
      FirstMinStep(ds, i);
      if Closer(dist, bestDist) {
        bestDist := Finite(dist);
        best := i;
      }
    }
  }

  // ---------- Farthest-first seeding ----------

  /** The distance of each vector to its nearest centroid. */
  ghost function Gaps(vectors: seq<Vector>, cs: seq<Vector>, dim: nat): (ds: seq<real>)
    requires Uniform(vectors, dim) && Uniform(cs, dim) && cs != []
    ensures |ds| == |vectors|
    ensures forall i :: 0 <= i < |vectors| ==> ds[i] == MinDist(vectors[i], cs)
  {
    seq(|vectors|, i requires 0 <= i < |vectors| => MinDist(vectors[i], cs))
  }

  /** The LAST of the vectors farthest from all of cs. */
  ghost function Farthest(vectors: seq<Vector>, cs: seq<Vector>, dim: nat): (far: nat)
    requires Uniform(vectors, dim) && Uniform(cs, dim) && cs != [] && vectors != []
    ensures far < |vectors|
    ensures forall i :: 0 <= i < |vectors| ==> MinDist(vectors[i], cs) <= MinDist(vectors[far], cs)
    ensures forall i :: far < i < |vectors| ==> MinDist(vectors[i], cs) < MinDist(vectors[far], cs)
  {
    LastMax(Gaps(vectors, cs, dim))
  }

  ghost function FarthestFirst(vectors: seq<Vector>, dim: nat, k: nat): (cs: seq<Vector>)
    requires Uniform(vectors, dim) && vectors != [] && k > 0
    ensures |cs| == k && Uniform(cs, dim)
  {
    if k == 1 then [vectors[0]]
    else
      var cs := FarthestFirst(vectors, dim, k - 1);
      cs + [vectors[Farthest(vectors, cs, dim)]]
  }

  method MinDistance(v: Vector, cs: seq<Vector>) returns (d: real)
    requires cs != [] && Uniform(cs, |v|)
    ensures d == MinDist(v, cs)
  {
    hide FirstMin, DistancesTo, SqDist;
    ghost var ds := DistancesTo(v, cs);
    NearestIsFirstMin(v, cs);
    var min := Infinite;
    for i := 0 to |cs|
      invariant i == 0 ==> min == Infinite
      invariant i > 0 ==> min == Finite(ds[FirstMin(ds[..i])])
    {
      var dist := SimdSqDist(v, cs[i]);
      FirstMinStep(ds, i);
      if Closer(dist, min) {
        min := Finite(dist);
      }
    }
    d := min.d;
  }

  method ComputeGaps(vectors: seq<Vector>, cs: seq<Vector>, ghost dim: nat) returns (distances: seq<real>)
    requires Uniform(vectors, dim) && Uniform(cs, dim) && cs != []
    ensures distances == Gaps(vectors, cs, dim)
  {
    distances := [];
    for i := 0 to |vectors|
      invariant |distances| == i
      invariant forall j :: 0 <= j < i ==> distances[j] == MinDist(vectors[j], cs)
    {
      var nearest := MinDistance(vectors[i], cs);
      distances := distances + [nearest];
    }
  }

  method KMeansPlusPlusInit(vectors: seq<Vector>, k: nat, ghost dim: nat)
    returns (r: Result<seq<Vector>, KMeansError>)
    requires Uniform(vectors, dim)
    ensures vectors == [] || k == 0 ==> r == Err(InvalidInitialization)
    ensures vectors != [] && k > 0 ==> r == Ok(FarthestFirst(vectors, dim, k))
  {
    if vectors == [] || k == 0 {
      return Err(InvalidInitialization);
    }
    var centroids := [vectors[0]];
    for n := 1 to k
      invariant centroids == FarthestFirst(vectors, dim, n)
    {
      var distances := ComputeGaps(vectors, centroids, dim);
      var maxIdx := LastMax(distances);
      centroids := centroids + [vectors[maxIdx]];
    }
    return Ok(centroids);
  }

  lemma SeedsStep(vectors: seq<Vector>, dim: nat, k: nat)
    requires Uniform(vectors, dim) && vectors != [] && k > 1
    ensures var before := FarthestFirst(vectors, dim, k - 1);
      FarthestFirst(vectors, dim, k) == before + [vectors[Farthest(vectors, before, dim)]]
  {
    hide Farthest;
  }

  lemma {:induction false} SeedsExtend(vectors: seq<Vector>, dim: nat, i: nat, k: nat)
    requires Uniform(vectors, dim) && vectors != [] && 0 < i <= k
    ensures FarthestFirst(vectors, dim, k)[..i] == FarthestFirst(vectors, dim, i)
  {
    hide FarthestFirst, Farthest;
    if i < k {
      SeedsExtend(vectors, dim, i, k - 1);
      SeedsStep(vectors, dim, k);
    }
  }

  /** c is the last of the vectors that are farthest from the nearest of cs. */
  ghost predicate IsLastFarthest(vectors: seq<Vector>, cs: seq<Vector>, dim: nat, far: nat)
    requires Uniform(vectors, dim) && Uniform(cs, dim) && cs != [] && far < |vectors|
  {
    forall u :: 0 <= u < |vectors| ==>
      && MinDist(vectors[u], cs) <= MinDist(vectors[far], cs)
      && (far < u ==> MinDist(vectors[u], cs) < MinDist(vectors[far], cs))
  }

  lemma FirstSeed(vectors: seq<Vector>, dim: nat)
    requires Uniform(vectors, dim) && vectors != []
    ensures FarthestFirst(vectors, dim, 1) == [vectors[0]]
  {
  }

  lemma NextSeed(vectors: seq<Vector>, dim: nat, i: nat) returns (far: nat)
    requires Uniform(vectors, dim) && vectors != [] && i > 0
    ensures far < |vectors| && IsLastFarthest(vectors, FarthestFirst(vectors, dim, i), dim, far)
    ensures FarthestFirst(vectors, dim, i + 1)[i] == vectors[far]
  {
    hide MinDist, FarthestFirst;
    SeedsStep(vectors, dim, i + 1);
    far := Farthest(vectors, FarthestFirst(vectors, dim, i), dim);
  }

  /** The seeds, one by one: the first vector, and then each time the last of those farthest from the seeds so far. */
  lemma SeedsMeaning(vectors: seq<Vector>, dim: nat, k: nat, i: nat)
    requires Uniform(vectors, dim) && vectors != [] && i < k
    ensures var cs := FarthestFirst(vectors, dim, k);
      if i == 0 then cs[0] == vectors[0]
      else exists far: nat :: far < |vectors| && IsLastFarthest(vectors, cs[..i], dim, far) && cs[i] == vectors[far]
  {
    hide FarthestFirst, IsLastFarthest;
    var cs := FarthestFirst(vectors, dim, k);
    SeedsExtend(vectors, dim, i + 1, k);
    assert cs[i] == cs[..i + 1][i];
    if i == 0 {
      FirstSeed(vectors, dim);
    } else {
      SeedsExtend(vectors, dim, i, k);
      var far := NextSeed(vectors, dim, i);
    }
  }

  // ---------- The covering guarantee of farthest-first seeding ----------

  /** Every vector has some centre within squared distance r. */
  ghost predicate Covers(vectors: seq<Vector>, dim: nat, centres: seq<Vector>, r: real)
    requires Uniform(vectors, dim) && Uniform(centres, dim)
  {
    forall i :: 0 <= i < |vectors| ==> Near(vectors[i], centres, r)
  }

  ghost predicate Near(v: Vector, centres: seq<Vector>, r: real)
    requires Uniform(centres, |v|)
  {
    exists j :: 0 <= j < |centres| && SqDist(v, centres[j]) <= r
  }

  /** The points are pairwise more than r apart. */
  ghost predicate Separated(points: seq<Vector>, dim: nat, r: real)
    requires Uniform(points, dim)
  {
    forall i, j :: 0 <= i < j < |points| ==> SqDist(points[j], points[i]) > r
  }

  /** A vector is far from all of cs exactly when its distance to the nearest of them is. */
  lemma FarIsMinDist(v: Vector, cs: seq<Vector>, r: real)
    requires cs != [] && Uniform(cs, |v|)
    ensures Near(v, cs, r) <==> MinDist(v, cs) <= r
  {
    var j := Nearest(v, cs);
    assert SqDist(v, cs[j]) == MinDist(v, cs);
  }

  lemma MoreCentresComeNearer(v: Vector, cs: seq<Vector>, c: Vector)
    requires cs != [] && Uniform(cs, |v|) && |c| == |v|
    ensures MinDist(v, cs + [c]) <= MinDist(v, cs)
  {
    var j := Nearest(v, cs);
    assert (cs + [c])[j] == cs[j];
  }

  lemma SeparatedGrows(points: seq<Vector>, dim: nat, r: real, p: Vector)
    requires points != [] && Uniform(points, dim) && |p| == dim && Separated(points, dim, r) && MinDist(p, points) > r
    ensures Separated(points + [p], dim, r)
  {
    forall i, j | 0 <= i < j < |points| + 1
      ensures SqDist((points + [p])[j], (points + [p])[i]) > r
    {
    }
  }

  /** Throughout the seeding, the picks are farther apart than any vector is still left uncovered. */
  lemma {:induction false} PicksAreSeparated(vectors: seq<Vector>, dim: nat, k: nat, r: real, v: nat)
    requires Uniform(vectors, dim) && vectors != [] && k > 0 && v < |vectors|
    requires MinDist(vectors[v], FarthestFirst(vectors, dim, k)) > r
    ensures Separated(FarthestFirst(vectors, dim, k), dim, r)
  {
    if k > 1 {
      var before := FarthestFirst(vectors, dim, k - 1);
      var far := Farthest(vectors, before, dim);
      hide Farthest, MinDist, Nearest, SqDist;
      MoreCentresComeNearer(vectors[v], before, vectors[far]);
      PicksAreSeparated(vectors, dim, k - 1, r, far);
      SeparatedGrows(before, dim, r, vectors[far]);
    }
  }

  /** Among more points than labels, two share a label. */
  lemma {:induction false} Pigeonhole(owner: seq<nat>, k: nat)
    requires |owner| > k && forall i :: 0 <= i < |owner| ==> owner[i] < k
    ensures exists i, j :: 0 <= i < j < |owner| && owner[i] == owner[j]
    decreases k
  {
    var n := |owner| - 1;
    assert owner[n] < k;
    if forall i :: 0 <= i < n ==> owner[i] != owner[n] {
      // rename the last label, which occurs nowhere else, away
      var rest := seq(n, i requires 0 <= i < n => if owner[i] == k - 1 then owner[n] else owner[i]);
      Pigeonhole(rest, k - 1);
      var i, j :| 0 <= i < j < n && rest[i] == rest[j];
      assert owner[i] == owner[j];
    }
  }

  /** k centres that cover all points within r cannot cover k + 1 points that are more than 4 r apart. */
  lemma SeparatedNeedMoreCentres(points: seq<Vector>, dim: nat, centres: seq<Vector>, r: real)
    requires Uniform(points, dim) && Uniform(centres, dim) && |points| > |centres|
    requires Covers(points, dim, centres, r)
    ensures !Separated(points, dim, 4.0 * r)
  {
    var owner: seq<nat> := seq(|points|, i requires 0 <= i < |points| =>
      assert Near(points[i], centres, r);
      var j :| 0 <= j < |centres| && SqDist(points[i], centres[j]) <= r; j);
    Pigeonhole(owner, |centres|);
    var i, j :| 0 <= i < j < |points| && owner[i] == owner[j];
    RelaxedTriangle(points[j], points[i], centres[owner[i]]);
  }

  /** Farthest-first seeding is a 4-approximation (in squared distance) of the best k-centre cover:
      whenever ANY k centres of the space cover the vectors within r, the k seeds cover them within 4 r. */
  lemma FarthestFirstCovers(vectors: seq<Vector>, dim: nat, k: nat, centres: seq<Vector>, r: real)
    requires Uniform(vectors, dim) && vectors != [] && k > 0
    requires Uniform(centres, dim) && |centres| == k && Covers(vectors, dim, centres, r)
    ensures Covers(vectors, dim, FarthestFirst(vectors, dim, k), 4.0 * r)
  {
    var cs := FarthestFirst(vectors, dim, k);
    forall v | 0 <= v < |vectors|
      ensures Near(vectors[v], cs, 4.0 * r)
    {
      if !Near(vectors[v], cs, 4.0 * r) {
        FarIsMinDist(vectors[v], cs, 4.0 * r);
        PicksAreSeparated(vectors, dim, k, 4.0 * r, v);
        SeparatedGrows(cs, dim, 4.0 * r, vectors[v]);
        SeedsAreCovered(vectors, dim, k, centres, r);
        SeparatedNeedMoreCentres(cs + [vectors[v]], dim, centres, r);
        assert false;
      }
    }
  }

  /** The seeds are data vectors, so what covers the data covers the seeds. */
  lemma {:induction false} SeedsAreCovered(vectors: seq<Vector>, dim: nat, k: nat, centres: seq<Vector>, r: real)
    requires Uniform(vectors, dim) && vectors != [] && k > 0
    requires Uniform(centres, dim) && Covers(vectors, dim, centres, r)
    ensures Covers(FarthestFirst(vectors, dim, k), dim, centres, r)
  {
    hide FarthestFirst, Farthest, Near;
    if k == 1 {
      FirstSeed(vectors, dim);
    } else {
      SeedsAreCovered(vectors, dim, k - 1, centres, r);
      SeedsStep(vectors, dim, k);
    }
  }

  // ---------- One Lloyd iteration ----------

  /** The vectors whose nearest centroid is number j, in order. */
  ghost function Members(vectors: seq<Vector>, cs: seq<Vector>, dim: nat, j: nat): (ms: seq<Vector>)
    requires Uniform(vectors, dim) && Uniform(cs, dim) && cs != []
    ensures Uniform(ms, dim)
  {
    if vectors == [] then []
    else
      var n := |vectors| - 1;
      var before := Members(vectors[..n], cs, dim, j);
      if Nearest(vectors[n], cs) == j then before + [vectors[n]] else before
  }

  ghost function CoordinateSum(vectors: seq<Vector>, dim: nat, d: nat): real
    requires Uniform(vectors, dim) && d < dim
  {
    if vectors == [] then 0.0
    else
      var n := |vectors| - 1;
      CoordinateSum(vectors[..n], dim, d) + vectors[n][d]
  }

  ghost function Mean(vectors: seq<Vector>, dim: nat): (m: Vector)
    requires Uniform(vectors, dim) && vectors != []
    ensures |m| == dim
  {
    seq(dim, d requires 0 <= d < dim => CoordinateSum(vectors, dim, d) / |vectors| as real)
  }

  /** The centroid that replaces number j: the mean of its members, or a data vector if it has none. */
  ghost function Updated(vectors: seq<Vector>, cs: seq<Vector>, dim: nat, j: nat): (c: Vector)
    requires Uniform(vectors, dim) && Uniform(cs, dim) && cs != [] && vectors != []
    ensures |c| == dim
  {
    var ms := Members(vectors, cs, dim, j);
    if ms == [] then vectors[j % |vectors|] else Mean(ms, dim)
  }

  ghost function LloydStep(vectors: seq<Vector>, cs: seq<Vector>, dim: nat): (next: seq<Vector>)
    requires Uniform(vectors, dim) && Uniform(cs, dim) && cs != [] && vectors != []
    ensures |next| == |cs| && Uniform(next, dim)
  {
    seq(|cs|, j requires 0 <= j < |cs| => Updated(vectors, cs, dim, j))
  }

  /** Some cluster was empty, or some centroid moved by more than the tolerance. */
  ghost predicate Moved(vectors: seq<Vector>, cs: seq<Vector>, dim: nat)
    requires Uniform(vectors, dim) && Uniform(cs, dim) && cs != [] && vectors != []
  {
    exists j :: 0 <= j < |cs| && MovedAt(vectors, cs, dim, j)
  }

  ghost predicate MovedAt(vectors: seq<Vector>, cs: seq<Vector>, dim: nat, j: nat)
    requires Uniform(vectors, dim) && Uniform(cs, dim) && cs != [] && vectors != [] && j < |cs|
  {
    Members(vectors, cs, dim, j) == [] || SqDist(cs[j], Updated(vectors, cs, dim, j)) > 0.000001
  }

  ghost function Lloyd(vectors: seq<Vector>, cs: seq<Vector>, dim: nat, maxIterations: nat): (r: seq<Vector>)
    requires Uniform(vectors, dim) && Uniform(cs, dim) && cs != [] && vectors != []
    ensures |r| == |cs| && Uniform(r, dim)
    decreases maxIterations
  {
    if maxIterations == 0 then cs
    else if Moved(vectors, cs, dim) then Lloyd(vectors, LloydStep(vectors, cs, dim), dim, maxIterations - 1)
    else LloydStep(vectors, cs, dim)
  }

  /** The assignment step: each vector is pushed onto the list of its nearest centroid. */
  method Assign(vectors: seq<Vector>, cs: seq<Vector>, ghost dim: nat) returns (assignments: seq<seq<Vector>>)
    requires Uniform(vectors, dim) && Uniform(cs, dim) && cs != []
    ensures |assignments| == |cs|
    ensures forall j :: 0 <= j < |cs| ==> assignments[j] == Members(vectors, cs, dim, j)
  {
    assignments := seq(|cs|, _ => []);
    for i := 0 to |vectors|
      invariant |assignments| == |cs|
      invariant forall j :: 0 <= j < |cs| ==> assignments[j] == Members(vectors[..i], cs, dim, j)
    {
      var best := FindNearest(vectors[i], cs);
      assert vectors[..i + 1][..i] == vectors[..i];
      assignments := assignments[best := assignments[best] + [vectors[i]]];
    }
    assert vectors[..|vectors|] == vectors;
  }

  method ComputeMean(vectors: seq<Vector>, dim: nat) returns (m: Vector)
    requires Uniform(vectors, dim) && vectors != []
    ensures m == Mean(vectors, dim)
  {
    m := seq(dim, _ => 0.0);
    for i := 0 to |vectors|
      invariant |m| == dim
      invariant forall d :: 0 <= d < dim ==> m[d] == CoordinateSum(vectors[..i], dim, d)
    {
      var v := vectors[i];
      ghost var before := m;
      assert vectors[..i + 1][..i] == vectors[..i];
      for d := 0 to dim
        invariant |m| == dim
        invariant forall e :: 0 <= e < d ==> m[e] == before[e] + v[e]
        invariant forall e :: d <= e < dim ==> m[e] == before[e]
      {
        m := m[d := m[d] + v[d]];
      }
    }
    assert vectors[..|vectors|] == vectors;
    ghost var sums := m;
    for d := 0 to dim
      invariant |m| == dim
      invariant forall e :: 0 <= e < d ==> m[e] == sums[e] / |vectors| as real
      invariant forall e :: d <= e < dim ==> m[e] == sums[e]
    {
      m := m[d := m[d] / |vectors| as real];
    }
  }

  lemma UpdatedIs(vectors: seq<Vector>, cs: seq<Vector>, dim: nat, j: nat)
    requires Uniform(vectors, dim) && Uniform(cs, dim) && cs != [] && vectors != [] && j < |cs|
    ensures var ms, c := Members(vectors, cs, dim, j), Updated(vectors, cs, dim, j);
      && c == (if ms == [] then vectors[j % |vectors|] else Mean(ms, dim))
      && (MovedAt(vectors, cs, dim, j) <==> ms == [] || SqDist(cs[j], c) > 0.000001)
  {
  }

  /** The update step: every centroid moves to the mean of its members; an empty cluster is reseeded. */
  method Update(vectors: seq<Vector>, cs: seq<Vector>, assignments: seq<seq<Vector>>, dim: nat)
    returns (centroids: seq<Vector>, changed: bool)
    requires Uniform(vectors, dim) && Uniform(cs, dim) && cs != [] && vectors != []
    requires |assignments| == |cs|
    requires forall j :: 0 <= j < |cs| ==> assignments[j] == Members(vectors, cs, dim, j)
    ensures centroids == LloydStep(vectors, cs, dim)
    ensures changed <==> Moved(vectors, cs, dim)
  {
    hide Updated, MovedAt, Members, Mean, SqDist;
    centroids, changed := cs, false;
    for j := 0 to |cs|
      invariant |centroids| == |cs|
      invariant forall i :: 0 <= i < j ==> centroids[i] == Updated(vectors, cs, dim, i)
      invariant forall i :: j <= i < |cs| ==> centroids[i] == cs[i]
      invariant changed <==> exists i :: 0 <= i < j && MovedAt(vectors, cs, dim, i)
    {
      UpdatedIs(vectors, cs, dim, j);
      if assignments[j] == [] {
        centroids := centroids[j := vectors[j % |vectors|]];
        changed := true;
      } else {
        var newCentroid := ComputeMean(assignments[j], dim);
        var shift := SimdSqDist(centroids[j], newCentroid);
        if shift > 0.000001 {
          changed := true;
        }
        centroids := centroids[j := newCentroid];
      }
    }
  }

  /** The Lloyd loop of `kmeans`: at most maxIterations iterations, stopping once nothing moves. */
  method Iterate(vectors: seq<Vector>, cs: seq<Vector>, maxIterations: nat, dim: nat) returns (centroids: seq<Vector>)
    requires Uniform(vectors, dim) && Uniform(cs, dim) && cs != [] && vectors != []
    ensures centroids == Lloyd(vectors, cs, dim, maxIterations)
  {
    hide LloydStep, Moved, Members;
    centroids := cs;
    ghost var target := Lloyd(vectors, cs, dim, maxIterations);
    for iteration := 0 to maxIterations
      invariant |centroids| == |cs| && Uniform(centroids, dim)
      invariant target == Lloyd(vectors, centroids, dim, maxIterations - iteration)
    {
      var assignments := Assign(vectors, centroids, dim);
      var changed;
      centroids, changed := Update(vectors, centroids, assignments, dim);
      if !changed {
        return;
      }
    }
  }

  /** `kmeans`: seed, then iterate. */
  method Cluster(vectors: seq<Vector>, k: nat, maxIterations: nat, ghost dim: nat)
    returns (r: Result<seq<Vector>, KMeansError>)
    requires Uniform(vectors, dim)
    ensures vectors == [] ==> r == Err(EmptyVectorSet)
    ensures vectors != [] && k == 0 ==> r == Err(InvalidInitialization)
    ensures vectors != [] && k > 0 ==>
      r == Ok(Lloyd(vectors, FarthestFirst(vectors, dim, k), dim, maxIterations))
  {
    if vectors == [] {
      return Err(EmptyVectorSet);
    }
    var width := |vectors[0]|;
    var seeds := KMeansPlusPlusInit(vectors, k, dim);
    if seeds.Err? {
      return seeds;
    }
    var centroids := Iterate(vectors, seeds.value, maxIterations, width);
    return Ok(centroids);
  }
}
