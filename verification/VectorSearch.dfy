/** Exact and compressed nearest-neighbour search (memvid/src/vec.rs, memvid/src/vec_pq.rs). */
module VectorSearch {
  import opened Basics
  import opened Sorting
  import opened Vectors
  import opened KMeans
  import opened Quantizer

  type FrameId = nat

  datatype VecDocument = VecDocument(frameId: FrameId, embedding: Vector)

  datatype QuantizedVecDocument = QuantizedVecDocument(frameId: FrameId, codes: seq<byte>)

  datatype Hit = Hit(frameId: FrameId, distance: Distance)

  predicate NotFarther(x: Hit, y: Hit) {
    y.distance.Infinite? || (x.distance.Finite? && x.distance.d <= y.distance.d)
  }

  // ---------- What an answer lists ----------

  /** Distance x of document i is listed before distance y of document j: it is smaller, or equal with i first. */
  predicate ListedBefore(x: Distance, i: nat, y: Distance, j: nat) {
    || (x.Finite? && (y.Infinite? || x.d < y.d))
    || (x == y && i < j)
  }

  /** The hits are those of the documents at these positions, in order of their distances; as many as the limit
      allows; and every document left out is listed behind all of them. */
  ghost predicate ListsNearest(at: seq<nat>, distances: seq<Distance>, limit: nat, hits: seq<Hit>) {
    && |hits| == |at| == Min(limit, |distances|)
    && (forall k :: 0 <= k < |at| ==> at[k] < |distances| && hits[k].distance == distances[at[k]])
    && (forall i, k :: 0 <= i < k < |at| ==> ListedBefore(hits[i].distance, at[i], hits[k].distance, at[k]))
    && (forall j, k :: 0 <= k < |at| && 0 <= j < |distances| && j !in at ==> ListedBefore(hits[k].distance, at[k], distances[j], j))
  }

  function DistancesOf(hits: seq<Hit>): (ds: seq<Distance>)
    ensures |ds| == |hits| && forall i :: 0 <= i < |hits| ==> ds[i] == hits[i].distance
  {
    seq(|hits|, i requires 0 <= i < |hits| => hits[i].distance)
  }

  lemma RankingListsNearest(all: seq<Hit>, distances: seq<Distance>, limit: nat) returns (at: seq<nat>)
    requires |all| == |distances| && forall i :: 0 <= i < |all| ==> all[i].distance == distances[i]
    ensures ListsNearest(at, distances, limit, Truncate(StableSort(all, NotFarther), limit))
    ensures forall k :: 0 <= k < |at| ==> Truncate(StableSort(all, NotFarther), limit)[k] == all[at[k]]
  {
    hide StableSort;
    NotFartherIsOrder();
    at := TruncatedArranges(all, NotFarther, limit);
    forall i, k | 0 <= i < k < |at| ensures ListedBefore(all[at[i]].distance, at[i], all[at[k]].distance, at[k]) {
      assert Leads(all, at[i], at[k], NotFarther);
    }
    forall j, k | 0 <= k < |at| && 0 <= j < |all| && j !in at
      ensures ListedBefore(all[at[k]].distance, at[k], all[j].distance, j)
    {
      assert Leads(all, at[k], j, NotFarther);
    }
  }

  // ---------- Exact search ----------

  function ExactHit(doc: VecDocument, distance: real): Hit {
    Hit(doc.frameId, Finite(distance))
  }

  /** The distances are taken over the coordinates of the query. */
  ghost function ExactHits(docs: seq<VecDocument>, query: Vector, root: real -> real): (hits: seq<Hit>)
    requires forall i :: 0 <= i < |docs| ==> |query| <= |docs[i].embedding|
    ensures |hits| == |docs|
  {
    seq(|docs|, i requires 0 <= i < |docs| => ExactHit(docs[i], root(SqDist(query, docs[i].embedding[..|query|]))))
  }

  /** `VecIndex::search` on the uncompressed form. A query longer than an embedding makes the program panic. */
  method ExactSearch(docs: seq<VecDocument>, query: Vector, limit: nat, root: real -> real) returns (hits: seq<Hit>)
    requires forall i :: 0 <= i < |docs| ==> |query| <= |docs[i].embedding|
    ensures query == [] ==> hits == []
    ensures query != [] ==> hits == Truncate(StableSort(ExactHits(docs, query, root), NotFarther), limit)
    ensures query != [] ==> exists at: seq<nat>, distances: seq<Distance> ::
      && |distances| == |docs|
      && (forall j :: 0 <= j < |docs| ==> distances[j] == Finite(root(SqDist(query, docs[j].embedding[..|query|]))))
      && ListsNearest(at, distances, limit, hits)
      && (forall k :: 0 <= k < |hits| ==> hits[k].frameId == docs[at[k]].frameId)
  {
    if query == [] {
      return [];
    }
    hits := [];
    for i := 0 to |docs|
      invariant |hits| == i
      invariant forall j :: 0 <= j < i ==> hits[j] == ExactHits(docs, query, root)[j]
    {
      var squared := SimdSqDist(query, docs[i].embedding);
      hits := hits + [ExactHit(docs[i], root(squared))];
    }
    assert hits == ExactHits(docs, query, root);
    ghost var distances := DistancesOf(hits);
    ghost var at := RankingListsNearest(hits, distances, limit);
    hits := StableSort(hits, NotFarther);
    hits := Truncate(hits, limit);
  }

  // ---------- Compressed search ----------

  ghost function AsymmetricDistanceOf(tables: Tables, query: Vector, codes: seq<byte>, root: real -> real): Distance {
    if |query| == TOTAL_DIM && |codes| == NUM_SUBSPACES then Finite(root(SqDist(query, Decoded(tables, codes))))
    else Infinite
  }

  ghost function CompressedHits(tables: Tables, docs: seq<QuantizedVecDocument>, query: Vector, root: real -> real): (hits: seq<Hit>)
    ensures |hits| == |docs|
  {
    seq(|docs|, i requires 0 <= i < |docs| => CompressedHit(tables, docs[i], query, root))
  }

  ghost function CompressedHit(tables: Tables, doc: QuantizedVecDocument, query: Vector, root: real -> real): Hit {
    Hit(doc.frameId, AsymmetricDistanceOf(tables, query, doc.codes, root))
  }

  class QuantizedVecIndex {
    const quantizer: ProductQuantizer
    var documents: seq<QuantizedVecDocument>

    constructor (quantizer: ProductQuantizer, documents: seq<QuantizedVecDocument>)
      ensures this.quantizer == quantizer && this.documents == documents
    {
      this.quantizer := quantizer;
      this.documents := documents;
    }

    method Search(query: Vector, limit: nat, root: real -> real) returns (hits: seq<Hit>)
      requires quantizer.Valid()
      ensures query == [] ==> hits == []
      ensures query != [] ==>
        hits == Truncate(StableSort(CompressedHits(quantizer.Model(), documents, query, root), NotFarther), limit)
      ensures query != [] ==> exists at: seq<nat>, distances: seq<Distance> ::
        && |distances| == |documents|
        && (forall j :: 0 <= j < |documents| ==>
              distances[j] == if |query| == TOTAL_DIM && |documents[j].codes| == NUM_SUBSPACES
                              then Finite(root(SqDist(query, Decoded(quantizer.Model(), documents[j].codes)))) else Infinite)
        && ListsNearest(at, distances, limit, hits)
        && (forall k :: 0 <= k < |hits| ==> hits[k].frameId == documents[at[k]].frameId)
    {
      if query == [] {
        return [];
      }
      hits := [];
      for i := 0 to |documents|
        invariant |hits| == i
        invariant forall j :: 0 <= j < i ==> hits[j] == CompressedHits(quantizer.Model(), documents, query, root)[j]
      {
        var distance := quantizer.AsymmetricDistance(query, documents[i].codes, root);
        hits := hits + [Hit(documents[i].frameId, distance)];
      }
      assert hits == CompressedHits(quantizer.Model(), documents, query, root);
      ghost var distances := DistancesOf(hits);
      ghost var at := RankingListsNearest(hits, distances, limit);
      hits := StableSort(hits, NotFarther);
      hits := Truncate(hits, limit);
    }

    /** `retain` drops every document of the frame, and keeps every copy of the others and their order. */
    method Remove(frameId: FrameId)
      modifies this
      ensures documents == Filter(old(documents), OtherDocument(frameId))
      ensures IsSubsequence(documents, old(documents))
      ensures forall d ::
        multiset(documents)[d] == if d.frameId == frameId then 0 else multiset(old(documents))[d]
    {
      hide Filter, IsSubsequence;
      FilterKeeps(documents, OtherDocument(frameId));
      documents := Retain(documents, frameId);
    }
  }

  function OtherDocument(frameId: FrameId): QuantizedVecDocument -> bool {
    (d: QuantizedVecDocument) => d.frameId != frameId
  }

  /** The loop inside `retain`. */
  method Retain(docs: seq<QuantizedVecDocument>, frameId: FrameId) returns (kept: seq<QuantizedVecDocument>)
    ensures kept == Filter(docs, OtherDocument(frameId))
  {
    hide Filter;
    kept := [];
    assert docs[0..] == docs;
    for i := 0 to |docs|
      invariant kept + Filter(docs[i..], OtherDocument(frameId)) == Filter(docs, OtherDocument(frameId))
    {
      assert docs[i..] == [docs[i]] + docs[i + 1..];
      FilterCons(docs[i], docs[i + 1..], OtherDocument(frameId));
      if docs[i].frameId != frameId {
        kept := kept + [docs[i]];
      }
    }
    NothingFiltered(OtherDocument(frameId));
  }

  datatype BuilderError = QuantizerNotTrained | QuantizerFailed(reason: QuantizerError)

  class QuantizedVecIndexBuilder {
    var documents: seq<QuantizedVecDocument>
    var quantizer: Option<ProductQuantizer>

    ghost predicate Valid()
      reads this
    {
      quantizer.Some? ==> quantizer.value.Valid()
    }

    constructor ()
      ensures Valid() && documents == [] && quantizer == None
    {
      documents := [];
      quantizer := None;
    }

    method TrainQuantizer(vectors: seq<Vector>, dimension: nat) returns (r: Result<(), BuilderError>)
      requires Valid()
      modifies this
      ensures Valid() && documents == old(documents)
      ensures r.Ok? <==> dimension == TOTAL_DIM && vectors != [] && Uniform(vectors, TOTAL_DIM)
      ensures r.Err? ==> quantizer == old(quantizer)
      ensures r.Ok? ==>
        && quantizer.Some? && fresh(quantizer.value)
        && (forall s :: 0 <= s < NUM_SUBSPACES ==> Centroids(quantizer.value.Model()[s]) == Trained(vectors, s, 25))
        && IsTrained(quantizer.value.Model(), vectors, 25)
    {
      hide Centroids, Trained, IsTrained;
      var created := ProductQuantizer.New(dimension);
      if created.Err? {
        return Err(QuantizerFailed(created.error));
      }
      var trained := created.value.Train(vectors, 25);
      if trained.Err? {
        return Err(QuantizerFailed(trained.error));
      }
      quantizer := Some(created.value);
      return Ok(());
    }

    method AddDocument(frameId: FrameId, embedding: Vector) returns (r: Result<(), BuilderError>)
      requires Valid()
      modifies this
      ensures Valid() && quantizer == old(quantizer)
      ensures quantizer == None ==> r == Err(QuantizerNotTrained)
      ensures quantizer.Some? && |embedding| != TOTAL_DIM ==> r == Err(QuantizerFailed(VectorDimensionMismatch))
      ensures r.Err? ==> documents == old(documents)
      ensures quantizer.Some? && |embedding| == TOTAL_DIM ==>
        && r.Ok?
        && documents == old(documents) + [QuantizedVecDocument(frameId, Encoded(quantizer.value.Model(), embedding))]
    {
      if quantizer == None {
        return Err(QuantizerNotTrained);
      }
      var codes := quantizer.value.Encode(embedding);
      if codes.Err? {
        return Err(QuantizerFailed(codes.error));
      }
      documents := documents + [QuantizedVecDocument(frameId, codes.value)];
      return Ok(());
    }
  }

  // ---------- How many hits lie within a distance ----------

  ghost predicate Within(h: Hit, t: real) {
    h.distance.Finite? && h.distance.d <= t
  }

  ghost function CountWithin(hits: seq<Hit>, t: real): (n: nat)
    ensures n <= |hits|
  {
    if hits == [] then 0 else (if Within(hits[0], t) then 1 else 0) + CountWithin(hits[1..], t)
  }

  lemma {:induction false} InsertCounts(x: Hit, s: seq<Hit>, t: real)
    ensures CountWithin(Insert(x, s, NotFarther), t) == CountWithin(s, t) + if Within(x, t) then 1 else 0
  {
    var r := Insert(x, s, NotFarther);
    if s == [] || NotFarther(x, s[0]) {
      assert r[1..] == s;
    } else {
      InsertCounts(x, s[1..], t);
      assert r[1..] == Insert(x, s[1..], NotFarther);
    }
  }

  lemma {:induction false} SortCounts(s: seq<Hit>, t: real)
    ensures CountWithin(StableSort(s, NotFarther), t) == CountWithin(s, t)
  {
    if s != [] {
      SortCounts(s[1..], t);
      InsertCounts(s[0], StableSort(s[1..], NotFarther), t);
    }
  }

  /** In a sorted list, hit i lies within t exactly when more than i hits do. */
  lemma {:induction false} RankIsCount(s: seq<Hit>, t: real, i: nat)
    requires Sorted(s, NotFarther) && i < |s|
    ensures Within(s[i], t) <==> CountWithin(s, t) > i
  {
    if i > 0 {
      assert NotFarther(s[0], s[i]);
      RankIsCount(s[1..], t, i - 1);
      NoneWithin(s, t);
    } else {
      NoneWithin(s, t);
    }
  }

  lemma {:induction false} NoneWithin(s: seq<Hit>, t: real)
    requires Sorted(s, NotFarther)
    ensures s != [] && !Within(s[0], t) ==> CountWithin(s, t) == 0
  {
    if |s| > 1 {
      assert NotFarther(s[0], s[1]);
      NoneWithin(s[1..], t);
    }
  }

  lemma NotFartherIsOrder()
    ensures IsOrder(NotFarther)
  {
  }

  // ---------- Compressed search approximates exact search ----------

  ghost function Quantized(tables: Tables, docs: seq<VecDocument>): (qs: seq<QuantizedVecDocument>)
    requires forall i :: 0 <= i < |docs| ==> |docs[i].embedding| == TOTAL_DIM
    ensures |qs| == |docs|
  {
    seq(|docs|, i requires 0 <= i < |docs| => QuantizedVecDocument(docs[i].frameId, Encoded(tables, docs[i].embedding)))
  }

  /** No document is farther than e from what its codes decode to. */
  ghost predicate QuantizedWithin(tables: Tables, docs: seq<VecDocument>, root: real -> real, e: real) {
    forall i :: 0 <= i < |docs| ==>
      && |docs[i].embedding| == TOTAL_DIM
      && root(SqDist(docs[i].embedding, Decoded(tables, Encoded(tables, docs[i].embedding)))) <= e
  }

  /** The true distance of a document and the one reported for what its codes decode to differ by at most its
      quantisation error. */
  lemma ReportedDistanceIsClose(query: Vector, v: Vector, decoded: Vector, root: real -> real, e: real)
    requires |query| == |v| == |decoded| && IsRoot(root) && root(SqDist(v, decoded)) <= e
    ensures root(SqDist(query, v)) - e <= root(SqDist(query, decoded)) <= root(SqDist(query, v)) + e
  {
    hide SqDist;
    TriangleInequality(root, query, v, decoded);
    TriangleInequality(root, query, decoded, v);
    DistSymmetric(decoded, v);
  }

  /** Pushing every distance up by at most e keeps as many hits within t + e as there were within t. */
  lemma {:induction false} ShiftedCounts(exact: seq<Hit>, reported: seq<Hit>, t: real, e: real)
    requires |exact| == |reported|
    requires forall i :: 0 <= i < |exact| ==> Within(exact[i], t) ==> Within(reported[i], t + e)
    ensures CountWithin(exact, t) <= CountWithin(reported, t + e)
  {
    if exact != [] {
      ShiftedCounts(exact[1..], reported[1..], t, e);
    }
  }

  lemma WithinItself(h: Hit)
    requires h.distance.Finite?
    ensures Within(h, h.distance.d)
  {
  }

  lemma ShiftedWithin(exact: seq<Hit>, reported: seq<Hit>, t: real, e: real)
    requires |exact| == |reported|
    requires forall j :: 0 <= j < |exact| ==>
      && exact[j].distance.Finite? && reported[j].distance.Finite?
      && reported[j].distance.d <= exact[j].distance.d + e
    ensures forall i :: 0 <= i < |exact| ==> Within(exact[i], t) ==> Within(reported[i], t + e)
  {
  }

  /** Hit i of a ranking lies within t exactly when more than i hits do, ranked or not. */
  lemma RankedIsCount(hits: seq<Hit>, t: real, i: nat)
    requires i < |hits|
    ensures Within(StableSort(hits, NotFarther)[i], t) <==> CountWithin(hits, t) > i
  {
    hide StableSort, Sorted, CountWithin, IsOrder, Within;
    NotFartherIsOrder();
    SortSorts(hits, NotFarther);
    RankIsCount(StableSort(hits, NotFarther), t, i);
    SortCounts(hits, t);
  }

  /** The reported distance at rank i exceeds the exact i-th smallest distance by at most e. */
  lemma RankedDistance(exact: seq<Hit>, reported: seq<Hit>, e: real, i: nat)
    requires |exact| == |reported| && i < |exact|
    requires forall j :: 0 <= j < |exact| ==>
      && exact[j].distance.Finite? && reported[j].distance.Finite?
      && reported[j].distance.d <= exact[j].distance.d + e
    ensures StableSort(exact, NotFarther)[i].distance.Finite?
    ensures Within(StableSort(reported, NotFarther)[i], StableSort(exact, NotFarther)[i].distance.d + e)
  {
    hide StableSort, CountWithin, Within;
    var a := StableSort(exact, NotFarther);
    SameMembers(exact, NotFarther);
    assert a[i] in exact;
    var t := a[i].distance.d;
    WithinItself(a[i]);
    RankedIsCount(exact, t, i);
    ShiftedWithin(exact, reported, t, e);
    ShiftedCounts(exact, reported, t, e);
    RankedIsCount(reported, t + e, i);
  }

  // ---------- Removal and the ranking ----------

  function OtherHit(frameId: FrameId): Hit -> bool {
    (h: Hit) => h.frameId != frameId
  }

  lemma HitsCons(tables: Tables, d: QuantizedVecDocument, docs: seq<QuantizedVecDocument>, query: Vector, root: real -> real)
    ensures CompressedHits(tables, [d] + docs, query, root)
         == [CompressedHit(tables, d, query, root)] + CompressedHits(tables, docs, query, root)
  {
  }

  lemma {:induction false} HitsOfRemaining(tables: Tables, docs: seq<QuantizedVecDocument>, frameId: FrameId, query: Vector, root: real -> real)
    ensures CompressedHits(tables, Filter(docs, OtherDocument(frameId)), query, root)
         == Filter(CompressedHits(tables, docs, query, root), OtherHit(frameId))
  {
    hide Filter, CompressedHits, AsymmetricDistanceOf;
    if docs == [] {
      NothingFiltered(OtherDocument(frameId));
      NothingFiltered(OtherHit(frameId));
      assert |CompressedHits(tables, [], query, root)| == 0;
    } else {
      var d, rest := docs[0], docs[1..];
      assert docs == [d] + rest;
      HitsOfRemaining(tables, rest, frameId, query, root);
      FilterCons(d, rest, OtherDocument(frameId));
      HitsCons(tables, d, rest, query, root);
      HitsCons(tables, d, Filter(rest, OtherDocument(frameId)), query, root);
      FilterCons(CompressedHit(tables, d, query, root), CompressedHits(tables, rest, query, root), OtherHit(frameId));
    }
  }

  /** After a removal, a search ranks as before, with the hits of the frame left out and nothing else moved. */
  lemma RemovedFromRanking(tables: Tables, docs: seq<QuantizedVecDocument>, frameId: FrameId, query: Vector, root: real -> real)
    ensures StableSort(CompressedHits(tables, Filter(docs, OtherDocument(frameId)), query, root), NotFarther)
         == Filter(StableSort(CompressedHits(tables, docs, query, root), NotFarther), OtherHit(frameId))
  {
    HitsOfRemaining(tables, docs, frameId, query, root);
    NotFartherIsOrder();
    SortFilter(CompressedHits(tables, docs, query, root), OtherHit(frameId), NotFarther);
  }

  // ---------- The approximation theorem ----------

  /** The i-th compressed hit is a document whose reported distance is within e of its true distance, and
      whose true distance is at most 2 e more than that of the i-th exact hit. */
  ghost predicate NearlyAsGood(docs: seq<VecDocument>, query: Vector, root: real -> real, e: real, exact: Hit, found: Hit)
    requires forall i :: 0 <= i < |docs| ==> |docs[i].embedding| == |query|
  {
    && exact.distance.Finite? && found.distance.Finite?
    && exists j :: 0 <= j < |docs| && docs[j].frameId == found.frameId && IsClose(root(SqDist(query, docs[j].embedding)), e, exact, found)
  }

  ghost predicate IsClose(truth: real, e: real, exact: Hit, found: Hit)
    requires exact.distance.Finite? && found.distance.Finite?
  {
    truth - e <= found.distance.d <= truth + e && truth <= exact.distance.d + 2.0 * e
  }

  lemma CompressedSearchApproximates(tables: Tables, docs: seq<VecDocument>, query: FullVector, root: real -> real, e: real, i: nat)
    requires IsRoot(root) && QuantizedWithin(tables, docs, root, e) && i < |docs|
    ensures NearlyAsGood(docs, query, root, e,
      StableSort(ExactHits(docs, query, root), NotFarther)[i],
      StableSort(CompressedHits(tables, Quantized(tables, docs), query, root), NotFarther)[i])
  {
    hide StableSort, Decoded, Encoded, SqDist, IsRoot;
    var exact := ExactHits(docs, query, root);
    var reported := CompressedHits(tables, Quantized(tables, docs), query, root);
    forall j | 0 <= j < |docs|
      ensures reported[j].distance.Finite? && exact[j].distance.Finite?
      ensures exact[j].distance.d == root(SqDist(query, docs[j].embedding))
      ensures exact[j].distance.d - e <= reported[j].distance.d <= exact[j].distance.d + e
      ensures reported[j].frameId == docs[j].frameId
    {
      var v := docs[j].embedding;
      assert v[..|query|] == v;
      ReportedDistanceIsClose(query, v, Decoded(tables, Encoded(tables, v)), root, e);
    }
    RankedDistance(exact, reported, e, i);
    SameMembers(reported, NotFarther);
    var found := StableSort(reported, NotFarther)[i];
    assert found in reported;
    var j :| 0 <= j < |docs| && reported[j] == found;
    assert IsClose(root(SqDist(query, docs[j].embedding)), e, StableSort(exact, NotFarther)[i], found);
  }
}
