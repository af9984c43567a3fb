/** Product quantisation: codebooks, training, encoding and asymmetric distance (memvid/src/vec_pq.rs). */
module Quantizer {
  import opened Basics
  import opened Vectors
  import opened KMeans
  import opened LloydDescent

  const NUM_SUBSPACES: nat := 96
  const SUBSPACE_DIM: nat := 4
  const NUM_CENTROIDS: nat := 256
  const TOTAL_DIM: nat := 384

  /** The flat array of one codebook: centroid i occupies positions 4 i, ..., 4 i + 3. */
  type Table = t: seq<real> | |t| == 1024 witness seq(1024, _ => 0.0)

  const ZERO_TABLE: Table := seq(1024, _ => 0.0)

  type Tables = ts: seq<Table> | |ts| == NUM_SUBSPACES witness seq(96, _ => ZERO_TABLE)

  type Codes = cs: seq<byte> | |cs| == NUM_SUBSPACES witness seq(96, _ => 0)

  type FullVector = v: Vector | |v| == TOTAL_DIM witness seq(384, _ => 0.0)

  function CentroidAt(t: Table, i: byte): (c: Vector)
    ensures |c| == SUBSPACE_DIM
  {
    t[i * SUBSPACE_DIM..i * SUBSPACE_DIM + SUBSPACE_DIM]
  }

  function Centroids(t: Table): (cs: seq<Vector>)
    ensures |cs| == NUM_CENTROIDS && Uniform(cs, SUBSPACE_DIM)
  {
    seq(NUM_CENTROIDS, i requires 0 <= i < NUM_CENTROIDS => CentroidAt(t, i))
  }

  /** The part of a vector that lies in subspace s. */
  function Sub(v: FullVector, s: nat): (w: Vector)
    requires s < NUM_SUBSPACES
    ensures |w| == SUBSPACE_DIM
  {
    v[s * SUBSPACE_DIM..s * SUBSPACE_DIM + SUBSPACE_DIM]
  }

  ghost function Encoded(tables: Tables, v: FullVector): Codes {
    seq(NUM_SUBSPACES, s requires 0 <= s < NUM_SUBSPACES => Nearest(Sub(v, s), Centroids(tables[s])))
  }

  ghost function Decoded(tables: Tables, codes: Codes): FullVector {
    seq(TOTAL_DIM, d requires 0 <= d < TOTAL_DIM => CentroidAt(tables[d / 4], codes[d / 4])[d % 4])
  }

  ghost function RowDist(w: Vector, t: Table, i: byte): real
    requires |w| == SUBSPACE_DIM
  {
    SqDist(w, t[4 * i..4 * i + 4])
  }

  /** No row of four numbers in the table is nearer to w, and every earlier one is farther. */
  ghost predicate IsNearestRow(w: Vector, t: Table, code: byte)
    requires |w| == SUBSPACE_DIM
  {
    forall i: byte :: RowDist(w, t, code) <= RowDist(w, t, i) && (i < code ==> RowDist(w, t, code) < RowDist(w, t, i))
  }

  lemma EncodedIsNearest(tables: Tables, v: FullVector, s: nat)
    requires s < NUM_SUBSPACES
    ensures IsNearestRow(v[4 * s..4 * s + 4], tables[s], Encoded(tables, v)[s])
  {
    hide SqDist;
    var w, t, code := Sub(v, s), tables[s], Encoded(tables, v)[s];
    var cs := Centroids(t);
    forall i: byte ensures RowDist(w, t, i) == SqDist(w, cs[i]) {
    }
    assert code == Nearest(w, cs);
  }

  // ---------- The classes ----------

  datatype QuantizerError =
    | UnsupportedDimension
    | EmptyTrainingSet
    | WrongTrainingDimension
    | VectorDimensionMismatch
    | InvalidCodesLength
    | TrainingFailed(reason: KMeansError)

  class SubspaceCodebook {
    var centroids: Table

    constructor ()
      ensures forall i :: 0 <= i < 1024 ==> centroids[i] == 0.0
    {
      centroids := seq(1024, _ => 0.0);
    }

    method SetCentroid(index: byte, values: Vector)
      requires |values| == SUBSPACE_DIM
      modifies this
      ensures forall e :: 0 <= e < SUBSPACE_DIM ==> centroids[4 * index + e] == values[e]
      ensures forall i :: 0 <= i < 1024 && i / 4 != index ==> centroids[i] == old(centroids[i])
      ensures CentroidAt(centroids, index) == values
      ensures forall i: byte :: i != index ==> CentroidAt(centroids, i) == old(CentroidAt(centroids, i))
    {
      var start := index * SUBSPACE_DIM;
      centroids := centroids[..start] + values + centroids[start + SUBSPACE_DIM..];
    }

    method Quantize(subspace: Vector) returns (code: byte)
      requires |subspace| == SUBSPACE_DIM
      ensures code == Nearest(subspace, Centroids(centroids))
    {
      code := FindNearest(subspace, Centroids(centroids));
    }
  }

  ghost function TablesOf(books: seq<SubspaceCodebook>): (ts: seq<Table>)
    reads books
    ensures |ts| == |books|
    ensures forall i :: 0 <= i < |books| ==> ts[i] == books[i].centroids
  {
    if books == [] then [] else TablesOf(books[..|books| - 1]) + [books[|books| - 1].centroids]
  }

  /** The vectors' parts in subspace s. */
  function Subspace(vectors: seq<FullVector>, s: nat): (subs: seq<Vector>)
    requires s < NUM_SUBSPACES
    ensures |subs| == |vectors| && Uniform(subs, SUBSPACE_DIM)
  {
    seq(|vectors|, i requires 0 <= i < |vectors| => Sub(vectors[i], s))
  }

  /** The centroids that k-means finds for one subspace. */
  ghost function Trained(vectors: seq<FullVector>, s: nat, maxIterations: nat): (cs: seq<Vector>)
    requires s < NUM_SUBSPACES && vectors != []
    ensures |cs| == NUM_CENTROIDS && Uniform(cs, SUBSPACE_DIM)
  {
    var subs := Subspace(vectors, s);
    Lloyd(subs, FarthestFirst(subs, SUBSPACE_DIM, NUM_CENTROIDS), SUBSPACE_DIM, maxIterations)
  }

  /** In every subspace, the stored centroids are those that clustering from the farthest-first seeds ends with. */
  ghost predicate IsTrained(tables: Tables, vectors: seq<FullVector>, maxIterations: nat)
    requires vectors != []
  {
    forall s :: 0 <= s < NUM_SUBSPACES ==>
      var subs := Subspace(vectors, s);
      IsClustered(subs, FarthestFirst(subs, SUBSPACE_DIM, NUM_CENTROIDS), SUBSPACE_DIM, maxIterations, Centroids(tables[s]))
  }

  lemma TrainedIsClustered(tables: Tables, vectors: seq<FullVector>, maxIterations: nat)
    requires vectors != []
    requires forall s :: 0 <= s < NUM_SUBSPACES ==> Centroids(tables[s]) == Trained(vectors, s, maxIterations)
    ensures IsTrained(tables, vectors, maxIterations)
  {
    hide IsClustered, FarthestFirst, Lloyd, Centroids, Subspace;
    forall s | 0 <= s < NUM_SUBSPACES
      ensures var subs := Subspace(vectors, s);
        IsClustered(subs, FarthestFirst(subs, SUBSPACE_DIM, NUM_CENTROIDS), SUBSPACE_DIM, maxIterations, Centroids(tables[s]))
    {
      var subs := Subspace(vectors, s);
      LloydIsClustered(subs, FarthestFirst(subs, SUBSPACE_DIM, NUM_CENTROIDS), SUBSPACE_DIM, maxIterations);
    }
  }

  class ProductQuantizer {
    const codebooks: seq<SubspaceCodebook>
    const dimension: nat

    /** 96 codebooks, no two of them the same object. No operation reads the recorded dimension, which in a
        decoded index may be any number. */
    ghost predicate Valid() {
      && |codebooks| == NUM_SUBSPACES
      && (forall i, j :: 0 <= i < j < |codebooks| ==> codebooks[i] != codebooks[j])
    }

    ghost function Model(): Tables
      reads codebooks
      requires Valid()
    {
      TablesOf(codebooks)
    }

    constructor (books: seq<SubspaceCodebook>, dimension: nat)
      requires |books| == NUM_SUBSPACES
      requires forall i, j :: 0 <= i < j < |books| ==> books[i] != books[j]
      ensures Valid() && codebooks == books && this.dimension == dimension
    {
      codebooks := books;
      this.dimension := dimension;
    }

    static method New(dimension: nat) returns (r: Result<ProductQuantizer, QuantizerError>)
      ensures r.Ok? <==> dimension == TOTAL_DIM
      ensures r.Err? ==> r.error == UnsupportedDimension
      ensures r.Ok? ==> r.value.Valid() && r.value.dimension == dimension && fresh(r.value) && fresh(r.value.codebooks)
    {
      if dimension != TOTAL_DIM {
        return Err(UnsupportedDimension);
      }
      var books: seq<SubspaceCodebook> := [];
      for i := 0 to NUM_SUBSPACES
        invariant |books| == i
        invariant fresh(books)
        invariant forall i, j :: 0 <= i < j < |books| ==> books[i] != books[j]
      {
        var book := new SubspaceCodebook();
        books := books + [book];
      }
      var pq := new ProductQuantizer(books, dimension);
      return Ok(pq);
    }

    method Train(vectors: seq<Vector>, maxIterations: nat) returns (r: Result<(), QuantizerError>)
      requires Valid()
      modifies codebooks
      ensures vectors == [] ==> r == Err(EmptyTrainingSet)
      ensures vectors != [] && !Uniform(vectors, TOTAL_DIM) ==> r == Err(WrongTrainingDimension)
      ensures r.Err? ==> Model() == old(Model())
      ensures vectors != [] && Uniform(vectors, TOTAL_DIM) ==>
        r.Ok? && forall s :: 0 <= s < NUM_SUBSPACES ==> Centroids(Model()[s]) == Trained(vectors, s, maxIterations)
      ensures r.Ok? ==> IsTrained(Model(), vectors, maxIterations)
    {
      if vectors == [] {
        return Err(EmptyTrainingSet);
      }
      for i := 0 to |vectors|
        invariant forall j :: 0 <= j < i ==> |vectors[j]| == TOTAL_DIM
      {
        if |vectors[i]| != TOTAL_DIM {
          return Err(WrongTrainingDimension);
        }
      }
      TrainAll(vectors, maxIterations);
      return Ok(());
    }

    method TrainAll(vectors: seq<FullVector>, maxIterations: nat)
      requires Valid() && vectors != []
      modifies codebooks
      ensures forall s :: 0 <= s < NUM_SUBSPACES ==> Centroids(Model()[s]) == Trained(vectors, s, maxIterations)
      ensures IsTrained(Model(), vectors, maxIterations)
    {
      hide Trained, Centroids, IsTrained;
      for s := 0 to NUM_SUBSPACES
        invariant forall t :: 0 <= t < s ==> Centroids(codebooks[t].centroids) == Trained(vectors, t, maxIterations)
      {
        TrainSubspace(codebooks[s], vectors, s, maxIterations);
      }
      TrainedIsClustered(Model(), vectors, maxIterations);
    }

    static method TrainSubspace(book: SubspaceCodebook, vectors: seq<FullVector>, s: nat, maxIterations: nat)
      requires vectors != [] && s < NUM_SUBSPACES
      modifies book
      ensures Centroids(book.centroids) == Trained(vectors, s, maxIterations)
    {
      hide Lloyd, FarthestFirst, Centroids;
      var subs := Subspace(vectors, s);
      var clustered := Cluster(subs, NUM_CENTROIDS, maxIterations, SUBSPACE_DIM);
      Fill(book, clustered.value);
    }

    static method Fill(book: SubspaceCodebook, cs: seq<Vector>)
      requires |cs| == NUM_CENTROIDS && Uniform(cs, SUBSPACE_DIM)
      modifies book
      ensures Centroids(book.centroids) == cs
    {
      for i := 0 to NUM_CENTROIDS
        invariant forall j: byte :: j < i ==> CentroidAt(book.centroids, j) == cs[j]
      {
        book.SetCentroid(i, cs[i]);
      }
    }

    method Encode(v: Vector) returns (r: Result<seq<byte>, QuantizerError>)
      requires Valid()
      ensures |v| != TOTAL_DIM ==> r == Err(VectorDimensionMismatch)
      ensures |v| == TOTAL_DIM ==> r == Ok(Encoded(Model(), v)) && |r.value| == NUM_SUBSPACES
      ensures |v| == TOTAL_DIM ==>
        forall s :: 0 <= s < NUM_SUBSPACES ==> IsNearestRow(v[4 * s..4 * s + 4], Model()[s], r.value[s])
    {
      hide IsNearestRow;
      if |v| != TOTAL_DIM {
        return Err(VectorDimensionMismatch);
      }
      var codes: seq<byte> := [];
      for s := 0 to NUM_SUBSPACES
        invariant |codes| == s
        invariant forall t :: 0 <= t < s ==> codes[t] == Nearest(Sub(v, t), Centroids(Model()[t]))
      {
        var code := codebooks[s].Quantize(Sub(v, s));
        codes := codes + [code];
      }
      assert codes == Encoded(Model(), v);
      forall s | 0 <= s < NUM_SUBSPACES ensures IsNearestRow(v[4 * s..4 * s + 4], Model()[s], codes[s]) {
        EncodedIsNearest(Model(), v, s);
      }
      return Ok(codes);
    }

    method Decode(codes: seq<byte>) returns (r: Result<Vector, QuantizerError>)
      requires Valid()
      ensures |codes| != NUM_SUBSPACES ==> r == Err(InvalidCodesLength)
      ensures |codes| == NUM_SUBSPACES ==> r == Ok(Decoded(Model(), codes)) && |r.value| == TOTAL_DIM
      ensures |codes| == NUM_SUBSPACES ==>
        forall d :: 0 <= d < TOTAL_DIM ==> r.value[d] == Model()[d / 4][4 * codes[d / 4] + d % 4]
    {
      if |codes| != NUM_SUBSPACES {
        return Err(InvalidCodesLength);
      }
      var vector: Vector := [];
      for s := 0 to NUM_SUBSPACES
        invariant |vector| == 4 * s
        invariant forall d :: 0 <= d < 4 * s ==> vector[d] == CentroidAt(Model()[d / 4], codes[d / 4])[d % 4]
      {
        vector := vector + CentroidAt(codebooks[s].centroids, codes[s]);
      }
      assert vector == Decoded(Model(), codes);
      return Ok(vector);
    }

    /** Reports the exact distance from the query to the DECODED vector, without decoding it. */
    method AsymmetricDistance(query: Vector, codes: seq<byte>, root: real -> real) returns (d: Distance)
      requires Valid()
      ensures |query| != TOTAL_DIM || |codes| != NUM_SUBSPACES ==> d == Infinite
      ensures |query| == TOTAL_DIM && |codes| == NUM_SUBSPACES ==> d == Finite(root(SqDist(query, Decoded(Model(), codes))))
    {
      if |query| != TOTAL_DIM || |codes| != NUM_SUBSPACES {
        return Infinite;
      }
      var total := 0.0;
      ghost var w := Decoded(Model(), codes);
      for s := 0 to NUM_SUBSPACES
        invariant total == SquaresBetween(query, w, 0, 4 * s)
      {
        DecodedSub(Model(), codes, s);
        OneMoreSubspace(query, w, s);
        var part := SimdSqDist(Sub(query, s), CentroidAt(codebooks[s].centroids, codes[s]));
        total := total + part;
      }
      return Finite(root(total));
    }
  }

  // ---------- Laws of encoding and decoding ----------

  lemma DecodedSub(tables: Tables, codes: Codes, s: nat)
    requires s < NUM_SUBSPACES
    ensures Sub(Decoded(tables, codes), s) == CentroidAt(tables[s], codes[s])
  {
    var w, c := Sub(Decoded(tables, codes), s), CentroidAt(tables[s], codes[s]);
    forall e | 0 <= e < SUBSPACE_DIM ensures w[e] == c[e] {
      assert (4 * s + e) / 4 == s && (4 * s + e) % 4 == e;
    }
  }

  lemma OneMoreSubspace(v: FullVector, w: FullVector, s: nat)
    requires s < NUM_SUBSPACES
    ensures SquaresBetween(v, w, 0, 4 * s + 4) == SquaresBetween(v, w, 0, 4 * s) + SqDist(Sub(v, s), Sub(w, s))
  {
    SumSplits(v, w, 0, 4 * s, 4 * s + 4);
    WindowIsSubvector(v, w, 4 * s, 4 * s + 4);
  }

  /** Encoding subspace by subspace is at least as close to v as any code, up to subspace n. */
  lemma {:induction false} EncodingIsOptimalUpTo(tables: Tables, v: FullVector, codes: Codes, n: nat)
    requires n <= NUM_SUBSPACES
    ensures SquaresBetween(v, Decoded(tables, Encoded(tables, v)), 0, 4 * n)
         <= SquaresBetween(v, Decoded(tables, codes), 0, 4 * n)
  {
    if n > 0 {
      var s := n - 1;
      var best := Encoded(tables, v);
      EncodingIsOptimalUpTo(tables, v, codes, s);
      OneMoreSubspace(v, Decoded(tables, best), s);
      OneMoreSubspace(v, Decoded(tables, codes), s);
      DecodedSub(tables, best, s);
      DecodedSub(tables, codes, s);
      var cs := Centroids(tables[s]);
      assert best[s] == Nearest(Sub(v, s), cs);
      assert SqDist(Sub(v, s), cs[best[s]]) <= SqDist(Sub(v, s), cs[codes[s]]);
    }
  }

  /** Among ALL 256^96 codes, the one `encode` picks decodes nearest to the vector. */
  lemma EncodingIsOptimal(tables: Tables, v: FullVector, codes: Codes)
    ensures SqDist(v, Decoded(tables, Encoded(tables, v))) <= SqDist(v, Decoded(tables, codes))
  {
    EncodingIsOptimalUpTo(tables, v, codes, NUM_SUBSPACES);
  }

  /** A decoded vector encodes to codes that decode to it again. */
  lemma DecodedReencodes(tables: Tables, codes: Codes)
    ensures Decoded(tables, Encoded(tables, Decoded(tables, codes))) == Decoded(tables, codes)
  {
    hide Decoded, Encoded, SqDist;
    var w := Decoded(tables, codes);
    EncodingIsOptimal(tables, w, codes);
    DistZeroIffEqual(w, w);
    DistZeroIffEqual(w, Decoded(tables, Encoded(tables, w)));
  }

  // ---------- The error that training leaves ----------

  /** The total squared reconstruction error of the vectors. */
  ghost function ReconstructionError(tables: Tables, vectors: seq<FullVector>): real {
    if vectors == [] then 0.0
    else
      var n := |vectors| - 1;
      var v := vectors[n];
      ReconstructionError(tables, vectors[..n]) + SqDist(v, Decoded(tables, Encoded(tables, v)))
  }

  /** The clustering costs of the first n subspaces, for one choice of centroids per subspace. */
  ghost function SubspaceCosts(vectors: seq<FullVector>, css: seq<seq<Vector>>, n: nat): real
    requires n <= NUM_SUBSPACES == |css|
    requires forall s :: 0 <= s < NUM_SUBSPACES ==> css[s] != [] && Uniform(css[s], SUBSPACE_DIM)
  {
    if n == 0 then 0.0
    else SubspaceCosts(vectors, css, n - 1) + TotalCost(Subspace(vectors, n - 1), css[n - 1], SUBSPACE_DIM)
  }

  ghost function AllCentroids(tables: Tables): (css: seq<seq<Vector>>)
    ensures |css| == NUM_SUBSPACES
    ensures forall s :: 0 <= s < NUM_SUBSPACES ==> |css[s]| == NUM_CENTROIDS && Uniform(css[s], SUBSPACE_DIM)
  {
    seq(NUM_SUBSPACES, s requires 0 <= s < NUM_SUBSPACES => Centroids(tables[s]))
  }

  ghost function Seeds(vectors: seq<FullVector>): (css: seq<seq<Vector>>)
    requires vectors != []
    ensures |css| == NUM_SUBSPACES
    ensures forall s :: 0 <= s < NUM_SUBSPACES ==> |css[s]| == NUM_CENTROIDS && Uniform(css[s], SUBSPACE_DIM)
  {
    seq(NUM_SUBSPACES, s requires 0 <= s < NUM_SUBSPACES => FarthestFirst(Subspace(vectors, s), SUBSPACE_DIM, NUM_CENTROIDS))
  }

  /** In subspace s, the last vector adds its distance to what it is decoded to. */
  lemma ErrorInSubspace(tables: Tables, vectors: seq<FullVector>, s: nat)
    requires s < NUM_SUBSPACES && vectors != []
    ensures var m, cs := |vectors| - 1, Centroids(tables[s]);
      TotalCost(Subspace(vectors, s), cs, SUBSPACE_DIM)
      == TotalCost(Subspace(vectors[..m], s), cs, SUBSPACE_DIM)
         + SqDist(Sub(vectors[m], s), Sub(Decoded(tables, Encoded(tables, vectors[m])), s))
  {
    var m, cs := |vectors| - 1, Centroids(tables[s]);
    var subs, codes := Subspace(vectors, s), Encoded(tables, vectors[m]);
    assert subs[..m] == Subspace(vectors[..m], s);
    DecodedSub(tables, codes, s);
    assert cs[codes[s]] == CentroidAt(tables[s], codes[s]);
    assert MinDist(subs[m], cs) == SqDist(subs[m], cs[codes[s]]);
  }

  /** One vector's error is the sum over subspaces of its distance to the nearest centroid. */
  lemma {:induction false} ErrorOfOne(tables: Tables, vectors: seq<FullVector>, n: nat)
    requires n <= NUM_SUBSPACES && vectors != []
    ensures var v := vectors[|vectors| - 1];
      SubspaceCosts(vectors, AllCentroids(tables), n)
      == SubspaceCosts(vectors[..|vectors| - 1], AllCentroids(tables), n)
         + SquaresBetween(v, Decoded(tables, Encoded(tables, v)), 0, 4 * n)
  {
    hide TotalCost, Sub, Decoded, Encoded, SqDist, Centroids, Subspace;
    if n > 0 {
      var v := vectors[|vectors| - 1];
      ErrorOfOne(tables, vectors, n - 1);
      OneMoreSubspace(v, Decoded(tables, Encoded(tables, v)), n - 1);
      ErrorInSubspace(tables, vectors, n - 1);
    }
  }

  lemma {:induction false} NothingCostsNothing(css: seq<seq<Vector>>, n: nat)
    requires n <= NUM_SUBSPACES == |css|
    requires forall s :: 0 <= s < NUM_SUBSPACES ==> css[s] != [] && Uniform(css[s], SUBSPACE_DIM)
    ensures SubspaceCosts([], css, n) == 0.0
  {
    if n > 0 {
      NothingCostsNothing(css, n - 1);
    }
  }

  /** The reconstruction error of a quantiser is exactly the sum of its k-means objectives. */
  lemma {:induction false} ErrorIsClusteringCost(tables: Tables, vectors: seq<FullVector>)
    ensures ReconstructionError(tables, vectors) == SubspaceCosts(vectors, AllCentroids(tables), NUM_SUBSPACES)
  {
    if vectors == [] {
      NothingCostsNothing(AllCentroids(tables), NUM_SUBSPACES);
    } else {
      ErrorIsClusteringCost(tables, vectors[..|vectors| - 1]);
      ErrorOfOne(tables, vectors, NUM_SUBSPACES);
    }
  }

  lemma {:induction false} TrainingImproves(tables: Tables, vectors: seq<FullVector>, maxIterations: nat, n: nat)
    requires vectors != [] && n <= NUM_SUBSPACES
    requires forall s :: 0 <= s < NUM_SUBSPACES ==> Centroids(tables[s]) == Trained(vectors, s, maxIterations)
    ensures SubspaceCosts(vectors, AllCentroids(tables), n) <= SubspaceCosts(vectors, Seeds(vectors), n)
  {
    hide TotalCost, Subspace, Centroids, FarthestFirst, Lloyd;
    if n > 0 {
      TrainingImproves(tables, vectors, maxIterations, n - 1);
      var subs := Subspace(vectors, n - 1);
      LloydDescends(subs, FarthestFirst(subs, SUBSPACE_DIM, NUM_CENTROIDS), SUBSPACE_DIM, maxIterations);
    }
  }

  /** A trained quantiser reconstructs its training set at least as well as the seeds would. */
  lemma TrainedErrorBound(tables: Tables, vectors: seq<FullVector>, maxIterations: nat)
    requires vectors != []
    requires forall s :: 0 <= s < NUM_SUBSPACES ==> Centroids(tables[s]) == Trained(vectors, s, maxIterations)
    ensures ReconstructionError(tables, vectors) <= SubspaceCosts(vectors, Seeds(vectors), NUM_SUBSPACES)
  {
    ErrorIsClusteringCost(tables, vectors);
    TrainingImproves(tables, vectors, maxIterations, NUM_SUBSPACES);
  }

  // ---------- Trained error against any other codebooks ----------

  /** n times x, as a sum. */
  ghost function Times(n: nat, x: real): real {
    if n == 0 then 0.0 else Times(n - 1, x) + x
  }

  lemma UnfoldTimes(n: nat, x: real)
    ensures Times(n, x) == if n == 0 then 0.0 else Times(n - 1, x) + x
  {
  }

  lemma {:induction false} CoveredCost(vectors: seq<Vector>, dim: nat, cs: seq<Vector>, r: real)
    requires Uniform(vectors, dim) && Uniform(cs, dim) && cs != [] && Covers(vectors, dim, cs, r)
    ensures TotalCost(vectors, cs, dim) <= Times(|vectors|, r)
  {
    hide MinDist, Near, SqDist, Times;
    UnfoldTimes(|vectors|, r);
    if vectors != [] {
      var n := |vectors| - 1;
      assert forall i :: 0 <= i < n ==> vectors[..n][i] == vectors[i] && Near(vectors[i], cs, r);
      CoveredCost(vectors[..n], dim, cs, r);
      FarIsMinDist(vectors[n], cs, r);
    }
  }

  /** In every subspace, the given centres are within squared distance r of every vector. */
  ghost predicate AllCover(vectors: seq<FullVector>, css: seq<seq<Vector>>, r: real) {
    && |css| == NUM_SUBSPACES
    && forall s :: 0 <= s < NUM_SUBSPACES ==>
      && |css[s]| == NUM_CENTROIDS && Uniform(css[s], SUBSPACE_DIM)
      && Covers(Subspace(vectors, s), SUBSPACE_DIM, css[s], r)
  }

  lemma SeedCost(vectors: seq<FullVector>, css: seq<seq<Vector>>, r: real, s: nat)
    requires vectors != [] && AllCover(vectors, css, r) && s < NUM_SUBSPACES
    ensures TotalCost(Subspace(vectors, s), Seeds(vectors)[s], SUBSPACE_DIM) <= Times(|vectors|, 4.0 * r)
  {
    hide TotalCost, Subspace, FarthestFirst, Covers, Times;
    var subs := Subspace(vectors, s);
    FarthestFirstCovers(subs, SUBSPACE_DIM, NUM_CENTROIDS, css[s], r);
    CoveredCost(subs, SUBSPACE_DIM, FarthestFirst(subs, SUBSPACE_DIM, NUM_CENTROIDS), 4.0 * r);
  }

  lemma {:induction false} SeedCosts(vectors: seq<FullVector>, css: seq<seq<Vector>>, r: real, n: nat)
    requires vectors != [] && AllCover(vectors, css, r) && n <= NUM_SUBSPACES
    ensures SubspaceCosts(vectors, Seeds(vectors), n) <= Times(n, Times(|vectors|, 4.0 * r))
  {
    hide AllCover, TotalCost, Seeds, Subspace;
    if n > 0 {
      SeedCosts(vectors, css, r, n - 1);
      SeedCost(vectors, css, r, n - 1);
    }
  }

  /** Seeding, iterating and encoding together: if ANY codebooks of 256 centroids each have every training
      vector within squared distance r in every subspace, then the trained quantiser's squared reconstruction
      error is on average at most 4 r per vector and subspace. */
  lemma TrainedErrorIsNearBest(tables: Tables, vectors: seq<FullVector>, maxIterations: nat, css: seq<seq<Vector>>, r: real)
    requires vectors != [] && AllCover(vectors, css, r)
    requires forall s :: 0 <= s < NUM_SUBSPACES ==> Centroids(tables[s]) == Trained(vectors, s, maxIterations)
    ensures ReconstructionError(tables, vectors) <= Times(NUM_SUBSPACES, Times(|vectors|, 4.0 * r))
  {
    hide AllCover, Centroids, Trained, Times, ReconstructionError, SubspaceCosts, Seeds;
    TrainedErrorBound(tables, vectors, maxIterations);
    SeedCosts(vectors, css, r, NUM_SUBSPACES);
  }
}
