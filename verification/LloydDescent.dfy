/** Lloyd iterations, reseeding of empty clusters included, never increase the clustering cost. */
module LloydDescent {
  import opened Vectors
  import opened KMeans

  /** The objective: the total squared distance of the vectors to their nearest centroids. */
  ghost function TotalCost(vectors: seq<Vector>, cs: seq<Vector>, dim: nat): real
    requires Uniform(vectors, dim) && Uniform(cs, dim) && cs != []
  {
    if vectors == [] then 0.0
    else
      var n := |vectors| - 1;
      TotalCost(vectors[..n], cs, dim) + MinDist(vectors[n], cs)
  }

  /** The cost when every vector stays with the centroid that `cs` assigns it to, moved to `xs`. */
  ghost function AssignedCost(vectors: seq<Vector>, cs: seq<Vector>, xs: seq<Vector>, dim: nat): real
    requires Uniform(vectors, dim) && Uniform(cs, dim) && cs != [] && |xs| == |cs| && Uniform(xs, dim)
  {
    if vectors == [] then 0.0
    else
      var n := |vectors| - 1;
      AssignedCost(vectors[..n], cs, xs, dim) + SqDist(vectors[n], xs[Nearest(vectors[n], cs)])
  }

  /** The first n coordinates' share of the total squared distance from the vectors to x. */
  ghost function CostUpTo(vectors: seq<Vector>, x: Vector, n: nat): real
    requires Uniform(vectors, |x|) && n <= |x|
  {
    if vectors == [] then 0.0
    else
      var m := |vectors| - 1;
      CostUpTo(vectors[..m], x, n) + SquaresBetween(vectors[m], x, 0, n)
  }

  ghost function CostOf(vectors: seq<Vector>, x: Vector): real
    requires Uniform(vectors, |x|)
  {
    CostUpTo(vectors, x, |x|)
  }

  /** The assigned cost of the first k clusters, cluster by cluster. */
  ghost function GroupedCost(vectors: seq<Vector>, cs: seq<Vector>, xs: seq<Vector>, dim: nat, k: nat): real
    requires Uniform(vectors, dim) && Uniform(cs, dim) && cs != [] && |xs| == |cs| && Uniform(xs, dim) && k <= |cs|
  {
    if k == 0 then 0.0
    else GroupedCost(vectors, cs, xs, dim, k - 1) + CostOf(Members(vectors, cs, dim, k - 1), xs[k - 1])
  }

  // ---------- The mean is the best single centre of a cluster ----------

  ghost function CoordinateCost(vectors: seq<Vector>, dim: nat, d: nat, t: real): real
    requires Uniform(vectors, dim) && d < dim
  {
    if vectors == [] then 0.0
    else
      var n := |vectors| - 1;
      CoordinateCost(vectors[..n], dim, d, t) + Square(vectors[n][d] - t)
  }

  /** What moving the centre of n numbers with sum s from m to t adds to their squared distances. */
  ghost function MoveCost(s: real, n: real, t: real, m: real): real {
    2.0 * (s * (m - t)) + n * (t * t - m * m)
  }

  lemma MoveCostOfOneMore(s: real, n: real, v: real, t: real, m: real)
    ensures MoveCost(s + v, n + 1.0, t, m) == MoveCost(s, n, t, m) + Square(v - t) - Square(v - m)
  {
    var d, q := m - t, t * t - m * m;
    assert (s + v) * d == s * d + v * d;
    assert (n + 1.0) * q == n * q + q;
    assert (v - t) * (v - t) == (v - m) * (v - m) + 2.0 * (v * (m - t)) + t * t - m * m;
  }

  /** How the cost along one coordinate changes when its centre moves from m to t. */
  lemma {:induction false} CoordinateShift(vectors: seq<Vector>, dim: nat, d: nat, t: real, m: real)
    requires Uniform(vectors, dim) && d < dim
    ensures CoordinateCost(vectors, dim, d, t)
         == CoordinateCost(vectors, dim, d, m) + MoveCost(CoordinateSum(vectors, dim, d), |vectors| as real, t, m)
  {
    if vectors == [] {
      assert MoveCost(0.0, 0.0, t, m) == 0.0;
    } else {
      var n := |vectors| - 1;
      CoordinateShift(vectors[..n], dim, d, t, m);
      MoveCostOfOneMore(CoordinateSum(vectors[..n], dim, d), n as real, vectors[n][d], t, m);
    }
  }

  lemma MeanSquares(n: real, s: real, m: real, t: real)
    requires n > 0.0 && m == s / n
    ensures MoveCost(s, n, t, m) >= 0.0
  {
    assert s == n * m;
    assert 2.0 * ((n * m) * (m - t)) + n * (t * t - m * m) == n * ((m - t) * (m - t));
    assert (m - t) * (m - t) >= 0.0;
    assert n * ((m - t) * (m - t)) >= 0.0;
  }

  lemma CoordinateMeanIsBest(vectors: seq<Vector>, dim: nat, d: nat, t: real)
    requires Uniform(vectors, dim) && d < dim && vectors != []
    ensures CoordinateCost(vectors, dim, d, Mean(vectors, dim)[d]) <= CoordinateCost(vectors, dim, d, t)
  {
    var m := Mean(vectors, dim)[d];
    CoordinateShift(vectors, dim, d, t, m);
    MeanSquares(|vectors| as real, CoordinateSum(vectors, dim, d), m, t);
  }

  lemma {:induction false} CostSplitsByCoordinate(vectors: seq<Vector>, x: Vector, n: nat)
    requires Uniform(vectors, |x|) && 0 < n <= |x|
    ensures CostUpTo(vectors, x, n) == CostUpTo(vectors, x, n - 1) + CoordinateCost(vectors, |x|, n - 1, x[n - 1])
  {
    if vectors != [] {
      CostSplitsByCoordinate(vectors[..|vectors| - 1], x, n);
    }
  }

  lemma {:induction false} NoCoordinatesNoCost(vectors: seq<Vector>, x: Vector)
    requires Uniform(vectors, |x|)
    ensures CostUpTo(vectors, x, 0) == 0.0
  {
    if vectors != [] {
      NoCoordinatesNoCost(vectors[..|vectors| - 1], x);
    }
  }

  lemma {:induction false} MeanIsBestUpTo(vectors: seq<Vector>, x: Vector, n: nat)
    requires Uniform(vectors, |x|) && vectors != [] && n <= |x|
    ensures CostUpTo(vectors, Mean(vectors, |x|), n) <= CostUpTo(vectors, x, n)
  {
    var m := Mean(vectors, |x|);
    if n == 0 {
      NoCoordinatesNoCost(vectors, x);
      NoCoordinatesNoCost(vectors, m);
    } else {
      MeanIsBestUpTo(vectors, x, n - 1);
      CostSplitsByCoordinate(vectors, x, n);
      CostSplitsByCoordinate(vectors, m, n);
      CoordinateMeanIsBest(vectors, |x|, n - 1, x[n - 1]);
    }
  }

  /** No single centre serves a cluster better than its mean. */
  lemma MeanIsBest(vectors: seq<Vector>, x: Vector)
    requires Uniform(vectors, |x|) && vectors != []
    ensures CostOf(vectors, Mean(vectors, |x|)) <= CostOf(vectors, x)
  {
    MeanIsBestUpTo(vectors, x, |x|);
  }

  // ---------- Regrouping the cost by cluster ----------

  lemma {:induction false} CostIsAssignedCost(vectors: seq<Vector>, cs: seq<Vector>, dim: nat)
    requires Uniform(vectors, dim) && Uniform(cs, dim) && cs != []
    ensures TotalCost(vectors, cs, dim) == AssignedCost(vectors, cs, cs, dim)
  {
    if vectors != [] {
      CostIsAssignedCost(vectors[..|vectors| - 1], cs, dim);
    }
  }

  lemma {:induction false} ReassigningHelps(vectors: seq<Vector>, cs: seq<Vector>, xs: seq<Vector>, dim: nat)
    requires Uniform(vectors, dim) && Uniform(cs, dim) && cs != [] && |xs| == |cs| && Uniform(xs, dim)
    ensures TotalCost(vectors, xs, dim) <= AssignedCost(vectors, cs, xs, dim)
  {
    if vectors != [] {
      var n := |vectors| - 1;
      ReassigningHelps(vectors[..n], cs, xs, dim);
      assert MinDist(vectors[n], xs) <= SqDist(vectors[n], xs[Nearest(vectors[n], cs)]);
    }
  }

  /** Adding one vector changes the cost of the one cluster it joins. */
  lemma {:induction false} OneMoreVector(vectors: seq<Vector>, cs: seq<Vector>, xs: seq<Vector>, dim: nat, k: nat)
    requires Uniform(vectors, dim) && Uniform(cs, dim) && cs != [] && |xs| == |cs| && Uniform(xs, dim) && k <= |cs|
    requires vectors != []
    ensures var v := vectors[|vectors| - 1];
      GroupedCost(vectors, cs, xs, dim, k)
      == GroupedCost(vectors[..|vectors| - 1], cs, xs, dim, k)
         + (if Nearest(v, cs) < k then SqDist(v, xs[Nearest(v, cs)]) else 0.0)
  {
    if k > 0 {
      OneMoreVector(vectors, cs, xs, dim, k - 1);
      var n := |vectors| - 1;
      var ms, before := Members(vectors, cs, dim, k - 1), Members(vectors[..n], cs, dim, k - 1);
      if Nearest(vectors[n], cs) == k - 1 {
        assert ms == before + [vectors[n]] && ms[..|ms| - 1] == before;
      }
    }
  }

  lemma {:induction false} NoVectorsNoCost(cs: seq<Vector>, xs: seq<Vector>, dim: nat, k: nat)
    requires Uniform(cs, dim) && cs != [] && |xs| == |cs| && Uniform(xs, dim) && k <= |cs|
    ensures GroupedCost([], cs, xs, dim, k) == 0.0
  {
    if k > 0 {
      NoVectorsNoCost(cs, xs, dim, k - 1);
    }
  }

  lemma {:induction false} AssignedCostByCluster(vectors: seq<Vector>, cs: seq<Vector>, xs: seq<Vector>, dim: nat)
    requires Uniform(vectors, dim) && Uniform(cs, dim) && cs != [] && |xs| == |cs| && Uniform(xs, dim)
    ensures AssignedCost(vectors, cs, xs, dim) == GroupedCost(vectors, cs, xs, dim, |cs|)
  {
    if vectors == [] {
      NoVectorsNoCost(cs, xs, dim, |cs|);
    } else {
      AssignedCostByCluster(vectors[..|vectors| - 1], cs, xs, dim);
      OneMoreVector(vectors, cs, xs, dim, |cs|);
    }
  }

  // ---------- Descent ----------

  lemma {:induction false} EveryClusterImproves(vectors: seq<Vector>, cs: seq<Vector>, dim: nat, k: nat)
    requires Uniform(vectors, dim) && Uniform(cs, dim) && cs != [] && vectors != [] && k <= |cs|
    ensures GroupedCost(vectors, cs, LloydStep(vectors, cs, dim), dim, k) <= GroupedCost(vectors, cs, cs, dim, k)
  {
    hide LloydStep, Members, CostOf;
    if k > 0 {
      EveryClusterImproves(vectors, cs, dim, k - 1);
      ClusterImproves(vectors, cs, dim, k - 1);
    }
  }

  lemma ClusterImproves(vectors: seq<Vector>, cs: seq<Vector>, dim: nat, j: nat)
    requires Uniform(vectors, dim) && Uniform(cs, dim) && cs != [] && vectors != [] && j < |cs|
    ensures var ms := Members(vectors, cs, dim, j);
      CostOf(ms, LloydStep(vectors, cs, dim)[j]) <= CostOf(ms, cs[j])
  {
    hide Members, Mean;
    var ms := Members(vectors, cs, dim, j);
    if ms != [] {
      MeanIsBest(ms, cs[j]);
    }
  }

  /** One iteration never makes the clustering worse, even when it reseeds empty clusters. */
  lemma LloydStepDescends(vectors: seq<Vector>, cs: seq<Vector>, dim: nat)
    requires Uniform(vectors, dim) && Uniform(cs, dim) && cs != [] && vectors != []
    ensures TotalCost(vectors, LloydStep(vectors, cs, dim), dim) <= TotalCost(vectors, cs, dim)
  {
    var next := LloydStep(vectors, cs, dim);
    ReassigningHelps(vectors, cs, next, dim);
    AssignedCostByCluster(vectors, cs, next, dim);
    EveryClusterImproves(vectors, cs, dim, |cs|);
    AssignedCostByCluster(vectors, cs, cs, dim);
    CostIsAssignedCost(vectors, cs, dim);
  }

  /** However many iterations run, and whenever they stop, the result is no worse than the start. */
  lemma {:induction false} LloydDescends(vectors: seq<Vector>, cs: seq<Vector>, dim: nat, maxIterations: nat)
    requires Uniform(vectors, dim) && Uniform(cs, dim) && cs != [] && vectors != []
    ensures TotalCost(vectors, Lloyd(vectors, cs, dim, maxIterations), dim) <= TotalCost(vectors, cs, dim)
    decreases maxIterations
  {
    hide LloydStep, Moved, TotalCost;
    if maxIterations > 0 {
      LloydStepDescends(vectors, cs, dim);
      if Moved(vectors, cs, dim) {
        LloydDescends(vectors, LloydStep(vectors, cs, dim), dim, maxIterations - 1);
      }
    }
  }

  ghost function CostAfter(vectors: seq<Vector>, cs: seq<Vector>, dim: nat, n: nat): real
    requires Uniform(vectors, dim) && Uniform(cs, dim) && cs != [] && vectors != []
  {
    TotalCost(vectors, Lloyd(vectors, cs, dim, n), dim)
  }

  lemma CostAfterUnfolds(vectors: seq<Vector>, cs: seq<Vector>, dim: nat, n: nat)
    requires Uniform(vectors, dim) && Uniform(cs, dim) && cs != [] && vectors != [] && n > 0
    ensures var next := LloydStep(vectors, cs, dim);
      CostAfter(vectors, cs, dim, n)
      == if Moved(vectors, cs, dim) then CostAfter(vectors, next, dim, n - 1) else CostAfter(vectors, next, dim, 0)
  {
  }

  /** More iterations never end in a worse clustering than fewer. */
  lemma {:induction false} MoreIterationsNoWorse(vectors: seq<Vector>, cs: seq<Vector>, dim: nat, fewer: nat, more: nat)
    requires Uniform(vectors, dim) && Uniform(cs, dim) && cs != [] && vectors != [] && fewer <= more
    ensures CostAfter(vectors, cs, dim, more) <= CostAfter(vectors, cs, dim, fewer)
    decreases fewer
  {
    hide LloydStep, Moved, TotalCost;
    if fewer == 0 {
      LloydDescends(vectors, cs, dim, more);
    } else {
      CostAfterUnfolds(vectors, cs, dim, fewer);
      CostAfterUnfolds(vectors, cs, dim, more);
      if Moved(vectors, cs, dim) {
        MoreIterationsNoWorse(vectors, LloydStep(vectors, cs, dim), dim, fewer - 1, more - 1);
      }
    }
  }

  // ---------- What one iteration does, and how many there are ----------

  /** Members picks out the vectors whose first nearest centroid is number j, with every copy. */
  lemma {:induction false} MembersAre(vectors: seq<Vector>, cs: seq<Vector>, dim: nat, j: nat)
    requires Uniform(vectors, dim) && Uniform(cs, dim) && cs != []
    ensures forall v :: v in Members(vectors, cs, dim, j) ==> v in vectors && Nearest(v, cs) == j
    ensures forall v :: v in vectors && Nearest(v, cs) == j ==>
      multiset(Members(vectors, cs, dim, j))[v] == multiset(vectors)[v]
  {
    hide Nearest;
    if vectors != [] {
      var n := |vectors| - 1;
      MembersAre(vectors[..n], cs, dim, j);
      assert vectors == vectors[..n] + [vectors[n]];
      assert Uniform(vectors[..n], dim);
    }
  }

  /** One iteration in full: a centroid without vectors becomes a data vector, and any other the one point at the
      least total squared distance from its vectors. */
  lemma LloydStepMeaning(vectors: seq<Vector>, cs: seq<Vector>, dim: nat, j: nat)
    requires Uniform(vectors, dim) && Uniform(cs, dim) && cs != [] && vectors != [] && j < |cs|
    ensures var c := LloydStep(vectors, cs, dim)[j];
      if forall i :: 0 <= i < |vectors| ==> Nearest(vectors[i], cs) != j then c == vectors[j % |vectors|]
      else forall x: Vector :: |x| == dim ==>
        CostOf(Members(vectors, cs, dim, j), c) <= CostOf(Members(vectors, cs, dim, j), x)
  {
    hide Nearest, CostOf, Members, Mean;
    MembersAre(vectors, cs, dim, j);
    var ms := Members(vectors, cs, dim, j);
    assert ms != [] ==> ms[0] in ms;
    if i :| 0 <= i < |vectors| && Nearest(vectors[i], cs) == j {
      assert vectors[i] in vectors && multiset(ms)[vectors[i]] == multiset(vectors)[vectors[i]] > 0;
      assert vectors[i] in multiset(ms);
      forall x: Vector | |x| == dim ensures CostOf(ms, Mean(ms, dim)) <= CostOf(ms, x) {
        MeanIsBest(ms, x);
      }
    }
  }

  /** The centroids after m iterations. */
  ghost function Steps(vectors: seq<Vector>, cs: seq<Vector>, dim: nat, m: nat): (r: seq<Vector>)
    requires Uniform(vectors, dim) && Uniform(cs, dim) && cs != [] && vectors != []
    ensures |r| == |cs| && Uniform(r, dim)
    decreases m
  {
    if m == 0 then cs else Steps(vectors, LloydStep(vectors, cs, dim), dim, m - 1)
  }

  /** Of at most maxIterations iterations, m are made: all of them, or those up to the first that moves nothing. */
  ghost predicate StopsAfter(vectors: seq<Vector>, cs: seq<Vector>, dim: nat, maxIterations: nat, m: nat)
    requires Uniform(vectors, dim) && Uniform(cs, dim) && cs != [] && vectors != []
  {
    && m <= maxIterations
    && (m == maxIterations || (m > 0 && !IsUnsettled(vectors, Steps(vectors, cs, dim, m - 1), dim)))
    && (forall k: nat :: k + 1 < m ==> IsUnsettled(vectors, Steps(vectors, cs, dim, k), dim))
  }

  /** Some centroid is nearest to no vector, or the next iteration moves it by more than 1e-6 in squared distance. */
  ghost predicate IsUnsettled(vectors: seq<Vector>, cs: seq<Vector>, dim: nat)
    requires Uniform(vectors, dim) && Uniform(cs, dim) && cs != [] && vectors != []
  {
    exists j: nat :: j < |cs| && IsUnsettledAt(vectors, cs, dim, j)
  }

  ghost predicate IsUnsettledAt(vectors: seq<Vector>, cs: seq<Vector>, dim: nat, j: nat)
    requires Uniform(vectors, dim) && Uniform(cs, dim) && cs != [] && vectors != [] && j < |cs|
  {
    || (forall i :: 0 <= i < |vectors| ==> Nearest(vectors[i], cs) != j)
    || SqDist(cs[j], LloydStep(vectors, cs, dim)[j]) > 0.000001
  }

  lemma NoMembers(vectors: seq<Vector>, cs: seq<Vector>, dim: nat, j: nat)
    requires Uniform(vectors, dim) && Uniform(cs, dim) && cs != []
    ensures Members(vectors, cs, dim, j) == [] <==> forall i :: 0 <= i < |vectors| ==> Nearest(vectors[i], cs) != j
  {
    hide Nearest, Members;
    MembersAre(vectors, cs, dim, j);
    var ms := Members(vectors, cs, dim, j);
    assert ms != [] ==> ms[0] in ms;
    if i :| 0 <= i < |vectors| && Nearest(vectors[i], cs) == j {
      assert vectors[i] in vectors && multiset(ms)[vectors[i]] == multiset(vectors)[vectors[i]] > 0;
      assert vectors[i] in multiset(ms);
    }
  }

  lemma MovedIsUnsettled(vectors: seq<Vector>, cs: seq<Vector>, dim: nat)
    requires Uniform(vectors, dim) && Uniform(cs, dim) && cs != [] && vectors != []
    ensures Moved(vectors, cs, dim) <==> IsUnsettled(vectors, cs, dim)
  {
    hide Nearest, Members, Mean, SqDist;
    forall j: nat | j < |cs| ensures MovedAt(vectors, cs, dim, j) <==> IsUnsettledAt(vectors, cs, dim, j) {
      NoMembers(vectors, cs, dim, j);
    }
  }

  lemma {:induction false} LloydIsSteps(vectors: seq<Vector>, cs: seq<Vector>, dim: nat, maxIterations: nat) returns (m: nat)
    requires Uniform(vectors, dim) && Uniform(cs, dim) && cs != [] && vectors != []
    ensures StopsAfter(vectors, cs, dim, maxIterations, m)
    ensures Lloyd(vectors, cs, dim, maxIterations) == Steps(vectors, cs, dim, m)
    decreases maxIterations
  {
    hide LloydStep, Moved, IsUnsettled;
    MovedIsUnsettled(vectors, cs, dim);
    if maxIterations == 0 {
      m := 0;
    } else if Moved(vectors, cs, dim) {
      var next := LloydStep(vectors, cs, dim);
      var n := LloydIsSteps(vectors, next, dim, maxIterations - 1);
      m := n + 1;
      forall k: nat | k + 1 < m ensures IsUnsettled(vectors, Steps(vectors, cs, dim, k), dim) {
        assert k > 0 ==> Steps(vectors, cs, dim, k) == Steps(vectors, next, dim, k - 1);
      }
      assert n > 0 ==> Steps(vectors, cs, dim, m - 1) == Steps(vectors, next, dim, n - 1);
    } else {
      m := 1;
      assert Steps(vectors, cs, dim, 0) == cs;
      assert Steps(vectors, LloydStep(vectors, cs, dim), dim, 0) == LloydStep(vectors, cs, dim);
    }
  }

  /** The centroids that clustering has to end with: those after the iterations made, which no number of
      iterations within the limit betters. */
  ghost predicate IsClustered(vectors: seq<Vector>, seeds: seq<Vector>, dim: nat, maxIterations: nat, stored: seq<Vector>)
    requires Uniform(vectors, dim) && Uniform(seeds, dim) && seeds != [] && vectors != []
  {
    && |stored| == |seeds| && Uniform(stored, dim)
    && (exists m: nat :: StopsAfter(vectors, seeds, dim, maxIterations, m) && stored == Steps(vectors, seeds, dim, m))
    && (forall n: nat :: n <= maxIterations ==> TotalCost(vectors, stored, dim) <= CostAfter(vectors, seeds, dim, n))
  }

  lemma LloydIsClustered(vectors: seq<Vector>, seeds: seq<Vector>, dim: nat, maxIterations: nat)
    requires Uniform(vectors, dim) && Uniform(seeds, dim) && seeds != [] && vectors != []
    ensures IsClustered(vectors, seeds, dim, maxIterations, Lloyd(vectors, seeds, dim, maxIterations))
  {
    hide TotalCost, StopsAfter;
    var m := LloydIsSteps(vectors, seeds, dim, maxIterations);
    forall n: nat | n <= maxIterations
      ensures CostAfter(vectors, seeds, dim, maxIterations) <= CostAfter(vectors, seeds, dim, n)
    {
      MoreIterationsNoWorse(vectors, seeds, dim, n, maxIterations);
    }
  }
}
