/** Scoring and ranking of stored memories (memory_service/controller.py, local backend). */
module Retrieval {
  import opened Basics
  import opened Sorting
  import opened MemoryStore

  type Term = string

  // ---------- BM25-lite ----------

  const K1: real := 1.5
  const B: real := 0.75
  const AVERAGE: real := 10.0

  function Count(d: seq<Term>, t: Term): (n: nat)
    ensures n <= |d| && (n > 0 <==> t in d)
  {
    if d == [] then 0
    else
      var n := |d| - 1;
      assert d == d[..n] + [d[n]];
      Count(d[..n], t) + if d[n] == t then 1 else 0
  }

  function Denominator(tf: nat, length: nat): real {
    tf as real + K1 * (1.0 - B + B * (length as real) / AVERAGE)
  }

  lemma DenominatorExceeds(tf: nat, length: nat)
    ensures Denominator(tf, length) > tf as real
  {
  }

  /** What one query term contributes: nothing if it is absent. */
  function Contribution(tf: nat, length: nat): real {
    DenominatorExceeds(tf, length);
    tf as real * (K1 + 1.0) / Denominator(tf, length)
  }

  ghost function SumOver(q: seq<Term>, d: seq<Term>): real {
    if q == [] then 0.0 else SumOver(q[..|q| - 1], d) + Contribution(Count(d, q[|q| - 1]), |d|)
  }

  ghost function Score(q: seq<Term>, d: seq<Term>): real {
    if q == [] || d == [] then 0.0 else SumOver(q, d)
  }

  lemma {:induction false} CountIs(d: seq<Term>, t: Term)
    ensures Count(d, t) == multiset(d)[t]
  {
    if d != [] {
      CountIs(d[..|d| - 1], t);
      assert d == d[..|d| - 1] + [d[|d| - 1]];
    }
  }

  /** One more query term adds what it contributes with its frequency in the text. */
  lemma ScoreGrows(q: seq<Term>, t: Term, d: seq<Term>)
    ensures Score(q + [t], d) == if d == [] then 0.0 else Score(q, d) + Contribution(multiset(d)[t], |d|)
    ensures Score([], d) == 0.0
  {
    CountIs(d, t);
    assert (q + [t])[..|q|] == q;
  }

  lemma FractionBound(x: real, c: real, d: real)
    requires 0.0 <= x < d && c > 0.0
    ensures 0.0 <= x * c / d < c
    ensures x > 0.0 <==> x * c / d > 0.0
  {
    var f := x / d;
    assert x == f * d;
    PositiveProduct(f, d);
    assert x * c / d == f * c;
    PositiveProduct(f, c);
    Complement(f, d, x);
    Complement(f, c, f * c);
  }

  /** A part of y that is a fraction f of it falls short of y exactly when f is below one. */
  lemma Complement(f: real, y: real, part: real)
    requires y > 0.0 && part == f * y
    ensures part < y <==> f < 1.0
  {
    var g := 1.0 - f;
    PositiveProduct(g, y);
    assert g * y == y - f * y;
  }

  lemma PositiveProduct(x: real, y: real)
    requires y > 0.0
    ensures x > 0.0 <==> x * y > 0.0
    ensures x < 0.0 <==> x * y < 0.0
  {
  }

  lemma ContributionBounds(tf: nat, length: nat)
    ensures 0.0 <= Contribution(tf, length) < 2.5
    ensures Contribution(tf, length) > 0.0 <==> tf > 0
  {
    DenominatorExceeds(tf, length);
    FractionBound(tf as real, K1 + 1.0, Denominator(tf, length));
  }

  /** The formula: 2.5 tf / (tf + 0.375 + 0.1125 length). */
  lemma ContributionIs(tf: nat, length: nat)
    ensures Contribution(tf, length) * (tf as real + 0.375 + 0.1125 * length as real) == 2.5 * tf as real
  {
    DenominatorExceeds(tf, length);
    assert Denominator(tf, length) == tf as real + 0.375 + 0.1125 * length as real;
    Quotient(2.5 * tf as real, Denominator(tf, length));
  }

  lemma Quotient(x: real, d: real)
    requires d > 0.0
    ensures x / d * d == x
  {
  }

  /** More frequent terms count more, and longer texts less. */
  lemma ContributionIsStrict(tf: nat, more: nat, length: nat, longer: nat)
    ensures tf < more ==> Contribution(tf, length) < Contribution(more, length)
    ensures tf > 0 && length < longer ==> Contribution(tf, longer) < Contribution(tf, length)
  {
    var c := 0.375 + 0.1125 * length as real;
    ContributionIs(tf, length);
    if tf < more {
      ContributionIs(more, length);
      RisesWith(Contribution(tf, length), Contribution(more, length), tf as real, more as real, c);
    }
    if tf > 0 && length < longer {
      ContributionIs(tf, longer);
      var d := 0.375 + 0.1125 * longer as real;
      FallsWith(Contribution(tf, longer), Contribution(tf, length), tf as real + d, tf as real + c, 2.5 * tf as real);
    }
  }

  /** f (x + c) = 2.5 x makes f rise with x. */
  lemma RisesWith(f: real, g: real, x: real, y: real, c: real)
    requires 0.0 <= x < y && c > 0.0 && f * (x + c) == 2.5 * x && g * (y + c) == 2.5 * y
    ensures f < g
  {
    var h := 2.5 - f;
    assert h * (x + c) == 2.5 * (x + c) - f * (x + c) == 2.5 * c;
    PositiveProduct(h, x + c);
    var k := 2.5 - g;
    assert k * (y + c) == 2.5 * (y + c) - g * (y + c) == 2.5 * c;
    FallsWith(k, h, y + c, x + c, 2.5 * c);
  }

  /** f p = g q = s > 0 with p > q makes f less than g. */
  lemma FallsWith(f: real, g: real, p: real, q: real, s: real)
    requires p > q > 0.0 && s > 0.0 && f * p == s && g * q == s
    ensures f < g
  {
    PositiveProduct(f, p);
    PositiveProduct(f, p - q);
    assert f * (p - q) == f * p - f * q;
    assert (g - f) * q == g * q - f * q;
    PositiveProduct(g - f, q);
  }

  lemma {:induction false} SumBounds(q: seq<Term>, d: seq<Term>)
    ensures 0.0 <= SumOver(q, d) && (q != [] ==> SumOver(q, d) < 2.5 * |q| as real)
    ensures SumOver(q, d) > 0.0 <==> exists t :: t in q && t in d
  {
    if q != [] {
      var n := |q| - 1;
      SumBounds(q[..n], d);
      ContributionBounds(Count(d, q[n]), |d|);
      assert q == q[..n] + [q[n]];
      assert forall t :: t in q <==> t in q[..n] || t == q[n];
    }
  }

  /** A score is non-negative, below 2.5 per query term, and positive exactly when a query term occurs. */
  lemma ScoreBounds(q: seq<Term>, d: seq<Term>)
    ensures 0.0 <= Score(q, d) && (q != [] ==> Score(q, d) < 2.5 * |q| as real)
    ensures Score(q, d) > 0.0 <==> exists t :: t in q && t in d
  {
    SumBounds(q, d);
  }

  /** The term frequencies of a text. */
  method CountTerms(d: seq<Term>) returns (tfMap: map<Term, nat>)
    ensures forall t :: (if t in tfMap then tfMap[t] else 0) == Count(d, t)
  {
    tfMap := map[];
    for i := 0 to |d|
      invariant forall t :: (if t in tfMap then tfMap[t] else 0) == Count(d[..i], t)
    {
      assert d[..i + 1][..i] == d[..i];
      tfMap := tfMap[d[i] := (if d[i] in tfMap then tfMap[d[i]] else 0) + 1];
    }
    assert d[..|d|] == d;
  }

  lemma SumGrows(q: seq<Term>, d: seq<Term>, i: nat)
    requires i < |q|
    ensures SumOver(q[..i + 1], d) == SumOver(q[..i], d) + Contribution(Count(d, q[i]), |d|)
  {
    assert q[..i + 1][..i] == q[..i];
  }

  method Bm25(q: seq<Term>, d: seq<Term>) returns (score: real)
    ensures score == Score(q, d)
  {
    if q == [] || d == [] {
      return 0.0;
    }
    var tfMap := CountTerms(d);
    score := 0.0;
    for i := 0 to |q|
      invariant score == SumOver(q[..i], d)
    {
      SumGrows(q, d, i);
      var tf := if q[i] in tfMap then tfMap[q[i]] else 0;
      if tf == 0 {
        ContributionBounds(tf, |d|);
        continue;
      }
      DenominatorExceeds(tf, |d|);
      var numer, denom := tf as real * (K1 + 1.0), Denominator(tf, |d|);
      score := score + numer / denom;
    }
    assert q[..|q|] == q;
    ScoreBounds(q, d);
    score := if score < 0.0 then 0.0 else score;
  }

  // ---------- Retrieval ----------

  datatype Query = Query(
    text: string, topK: nat, memoryLayer: Option<string>, scope: Option<string>, runId: Option<string>, includeExpired: bool)

  datatype Candidate = Candidate(score: real, index: nat, record: Record)

  datatype Hit = Hit(record: Record, score: real)

  predicate Passes(r: Record, q: Query) {
    && (!r.expired || q.includeExpired)
    && (q.memoryLayer.None? || r.memoryLayer == q.memoryLayer.value)
    && (q.scope.None? || r.scope == q.scope.value)
    && (q.runId.None? || r.runId == q.runId)
  }

  /** Higher score first; of equal scores, the later record. */
  predicate RanksBefore(a: Candidate, b: Candidate) {
    a.score > b.score || (a.score == b.score && a.index >= b.index)
  }

  lemma RanksBeforeIsOrder()
    ensures IsOrder(RanksBefore)
  {
  }

  ghost function CandidateAt(rs: seq<Record>, i: nat, q: Query, terms: string -> seq<Term>): Candidate
    requires i < |rs|
  {
    Candidate(Score(terms(q.text), terms(rs[i].rawText)), i, rs[i])
  }

  ghost predicate Qualifies(rs: seq<Record>, i: nat, q: Query, terms: string -> seq<Term>)
    requires i < |rs|
  {
    Passes(rs[i], q) && CandidateAt(rs, i, q, terms).score > 0.0
  }

  /** The filtered records of positive score among the first n, in insertion order. */
  ghost function Candidates(rs: seq<Record>, q: Query, terms: string -> seq<Term>, n: nat): (cs: seq<Candidate>)
    requires n <= |rs|
  {
    if n == 0 then []
    else Candidates(rs, q, terms, n - 1) + if Qualifies(rs, n - 1, q, terms) then [CandidateAt(rs, n - 1, q, terms)] else []
  }

  lemma {:induction false} CandidatesAre(rs: seq<Record>, q: Query, terms: string -> seq<Term>, n: nat)
    requires n <= |rs|
    ensures forall c ::
      c in Candidates(rs, q, terms, n) <==>
      c.index < n && Qualifies(rs, c.index, q, terms) && c == CandidateAt(rs, c.index, q, terms)
  {
    hide Qualifies, CandidateAt;
    if n > 0 {
      CandidatesAre(rs, q, terms, n - 1);
      IndexOfCandidate(rs, n - 1, q, terms);
    }
  }

  lemma IndexOfCandidate(rs: seq<Record>, i: nat, q: Query, terms: string -> seq<Term>)
    requires i < |rs|
    ensures CandidateAt(rs, i, q, terms).index == i
  {
  }

  /** No record is a candidate twice. */
  lemma {:induction false} CandidatesAreDistinct(rs: seq<Record>, q: Query, terms: string -> seq<Term>, n: nat)
    requires n <= |rs|
    ensures forall i, j :: 0 <= i < j < |Candidates(rs, q, terms, n)| ==> Candidates(rs, q, terms, n)[i].index < Candidates(rs, q, terms, n)[j].index
  {
    if n > 0 {
      CandidatesAreDistinct(rs, q, terms, n - 1);
      CandidatesAre(rs, q, terms, n - 1);
      var before := Candidates(rs, q, terms, n - 1);
      assert forall i :: 0 <= i < |before| ==> before[i] in before;
    }
  }

  ghost function Ranking(rs: seq<Record>, q: Query, terms: string -> seq<Term>): seq<Candidate> {
    StableSort(Candidates(rs, q, terms, |rs|), RanksBefore)
  }

  function HitsOf(cs: seq<Candidate>): (hits: seq<Hit>)
    ensures |hits| == |cs|
  {
    seq(|cs|, i requires 0 <= i < |cs| => Hit(cs[i].record, cs[i].score))
  }

  /** a stands strictly before b: higher score, or equal score and inserted later. */
  predicate Outranks(a: Candidate, b: Candidate) {
    a.score > b.score || (a.score == b.score && a.index > b.index)
  }

  lemma RankingIsStrict(rs: seq<Record>, q: Query, terms: string -> seq<Term>)
    ensures var ranking := Ranking(rs, q, terms); forall i, j :: 0 <= i < j < |ranking| ==> Outranks(ranking[i], ranking[j])
  {
    var cs, ranking := Candidates(rs, q, terms, |rs|), Ranking(rs, q, terms);
    RanksBeforeIsOrder();
    SortSorts(cs, RanksBefore);
    SortKeepsElements(cs, RanksBefore);
    CandidatesAreDistinct(rs, q, terms, |rs|);
    DistinctSurvives(cs, ranking);
    CandidatesAre(rs, q, terms, |rs|);
    SameMembers(cs, RanksBefore);
    hide StableSort, Candidates, Qualifies, CandidateAt;
    forall i, j | 0 <= i < j < |ranking| ensures Outranks(ranking[i], ranking[j]) {
      assert RanksBefore(ranking[i], ranking[j]);
      assert ranking[i] in cs && ranking[j] in cs;
    }
  }

  /** A rearrangement of distinct elements is distinct. */
  lemma DistinctSurvives(a: seq<Candidate>, b: seq<Candidate>)
    requires multiset(a) == multiset(b)
    requires forall i, j :: 0 <= i < j < |a| ==> a[i].index < a[j].index
    ensures forall i, j :: 0 <= i < j < |b| ==> b[i] != b[j]
  {
    forall i, j | 0 <= i < j < |b| ensures b[i] != b[j] {
      if b[i] == b[j] {
        var x := b[i];
        TwiceInMultiset(b, i, j);
        OnceInMultiset(a, x);
        assert false;
      }
    }
  }

  lemma TwiceInMultiset(b: seq<Candidate>, i: nat, j: nat)
    requires i < j < |b| && b[i] == b[j]
    ensures multiset(b)[b[i]] >= 2
  {
    assert b == b[..j] + [b[j]] + b[j + 1..];
    assert b[..j][i] == b[i];
    assert b[i] in b[..j];
  }

  lemma {:induction false} OnceInMultiset(a: seq<Candidate>, x: Candidate)
    requires forall i, j :: 0 <= i < j < |a| ==> a[i].index < a[j].index
    ensures multiset(a)[x] <= 1
  {
    if a != [] {
      var n := |a| - 1;
      OnceInMultiset(a[..n], x);
      assert a == a[..n] + [a[n]];
      if x == a[n] {
        assert x !in a[..n];
      }
    }
  }

  /** What `retrieve` returns: records that pass the filter and score above zero, each once, in strict order of
      score and recency; and whatever qualifies but is not returned is outranked by all top_k returned ones. */
  lemma RetrieveIsTopK(rs: seq<Record>, q: Query, terms: string -> seq<Term>, i: nat)
    requires i < |rs|
    ensures var returned := Truncate(Ranking(rs, q, terms), q.topK);
      && (forall c :: c in returned ==> c.index < |rs| && Qualifies(rs, c.index, q, terms) && c == CandidateAt(rs, c.index, q, terms))
      && (forall j, k :: 0 <= j < k < |returned| ==> Outranks(returned[j], returned[k]))
      && (Qualifies(rs, i, q, terms) && CandidateAt(rs, i, q, terms) !in returned ==>
            |returned| == q.topK && forall c :: c in returned ==> Outranks(c, CandidateAt(rs, i, q, terms)))
  {
    var ranking := Ranking(rs, q, terms);
    var returned := Truncate(ranking, q.topK);
    CandidatesAre(rs, q, terms, |rs|);
    SameMembers(Candidates(rs, q, terms, |rs|), RanksBefore);
    RankingIsStrict(rs, q, terms);
    IndexOfCandidate(rs, i, q, terms);
    hide StableSort, Candidates, Qualifies, CandidateAt;
    var c := CandidateAt(rs, i, q, terms);
    forall x | x in returned ensures x in ranking {
    }
    assert forall k :: 0 <= k < |returned| ==> returned[k] == ranking[k];
    if Qualifies(rs, i, q, terms) && c !in returned {
      assert c in ranking;
      var p :| 0 <= p < |ranking| && ranking[p] == c;
      forall x | x in returned ensures Outranks(x, c) {
        var j :| 0 <= j < |returned| && returned[j] == x;
        assert ranking[j] == x;
      }
    }
  }

  // ---------- The answer, in the records ----------

  ghost predicate ShareTerm(a: seq<Term>, b: seq<Term>) {
    exists t :: t in a && t in b
  }

  /** Record j is in question: it passes the four filters and holds a term of the query. */
  ghost predicate IsFound(r: Record, q: Query, terms: string -> seq<Term>) {
    && (r.expired ==> q.includeExpired)
    && (q.memoryLayer.Some? ==> r.memoryLayer == q.memoryLayer.value)
    && (q.scope.Some? ==> r.scope == q.scope.value)
    && (q.runId.Some? ==> r.runId == q.runId)
    && ShareTerm(terms(q.text), terms(r.rawText))
  }

  /** What a query has to return: found records with their scores, at most top_k, by score and then latest first;
      any other found record comes behind all of them, of which there are then top_k. */
  ghost predicate IsRetrieved(rs: seq<Record>, q: Query, terms: string -> seq<Term>, at: seq<nat>, hits: seq<Hit>) {
    && |hits| == |at| <= q.topK
    && (forall k :: 0 <= k < |at| ==>
          && at[k] < |rs| && IsFound(rs[at[k]], q, terms)
          && hits[k] == Hit(rs[at[k]], Score(terms(q.text), terms(rs[at[k]].rawText))) && hits[k].score > 0.0)
    && (forall i, k :: 0 <= i < k < |at| ==> ComesBefore(hits[i].score, at[i], hits[k].score, at[k]))
    && (forall j :: 0 <= j < |rs| && IsFound(rs[j], q, terms) && j !in at ==>
          && |hits| == q.topK
          && forall k :: 0 <= k < |at| ==> ComesBefore(hits[k].score, at[k], Score(terms(q.text), terms(rs[j].rawText)), j))
  }

  /** Score x of record i comes before score y of record j: it is higher, or equal with i the later record. */
  predicate ComesBefore(x: real, i: nat, y: real, j: nat) {
    x > y || (x == y && i > j)
  }

  lemma FoundQualifies(rs: seq<Record>, i: nat, q: Query, terms: string -> seq<Term>)
    requires i < |rs|
    ensures Qualifies(rs, i, q, terms) <==> IsFound(rs[i], q, terms)
  {
    hide Score;
    ScoreBounds(terms(q.text), terms(rs[i].rawText));
  }

  ghost predicate IsCandidateFor(rs: seq<Record>, q: Query, terms: string -> seq<Term>, c: Candidate) {
    && c.index < |rs| && c.record == rs[c.index] && IsFound(c.record, q, terms)
    && c.score == Score(terms(q.text), terms(c.record.rawText)) && c.score > 0.0
  }

  lemma CandidateIs(rs: seq<Record>, q: Query, terms: string -> seq<Term>, p: nat)
    requires p < |Candidates(rs, q, terms, |rs|)|
    ensures IsCandidateFor(rs, q, terms, Candidates(rs, q, terms, |rs|)[p])
  {
    hide Candidates, Score, IsFound;
    CandidatesAre(rs, q, terms, |rs|);
    var c := Candidates(rs, q, terms, |rs|)[p];
    assert c in Candidates(rs, q, terms, |rs|);
    FoundQualifies(rs, c.index, q, terms);
  }

  lemma PlaceOfFound(rs: seq<Record>, q: Query, terms: string -> seq<Term>, j: nat) returns (p: nat)
    requires j < |rs| && IsFound(rs[j], q, terms)
    ensures var cs := Candidates(rs, q, terms, |rs|);
      p < |cs| && cs[p].index == j && cs[p].score == Score(terms(q.text), terms(rs[j].rawText))
  {
    hide Candidates, Score, IsFound;
    CandidatesAre(rs, q, terms, |rs|);
    FoundQualifies(rs, j, q, terms);
    var cs := Candidates(rs, q, terms, |rs|);
    assert CandidateAt(rs, j, q, terms) in cs;
    p :| 0 <= p < |cs| && cs[p] == CandidateAt(rs, j, q, terms);
  }

  lemma RankingIsRetrieved(rs: seq<Record>, q: Query, terms: string -> seq<Term>) returns (at: seq<nat>)
    ensures IsRetrieved(rs, q, terms, at, HitsOf(Truncate(Ranking(rs, q, terms), q.topK)))
  {
    hide Candidates, StableSort, IsFound, Score, ListsAll, Leads, RanksBefore, ComesBefore;
    var cs := Candidates(rs, q, terms, |rs|);
    var ranking := Truncate(StableSort(cs, RanksBefore), q.topK);
    var hits := HitsOf(ranking);
    RanksBeforeIsOrder();
    var places := TruncatedArranges(cs, RanksBefore, q.topK);
    at := seq(|places|, k requires 0 <= k < |places| => cs[places[k]].index);
    CandidatesAreDistinct(rs, q, terms, |rs|);
    forall p | 0 <= p < |cs| ensures IsCandidateFor(rs, q, terms, cs[p]) {
      CandidateIs(rs, q, terms, p);
    }
    forall k | 0 <= k < |at| ensures hits[k] == Hit(cs[places[k]].record, cs[places[k]].score) {
    }
    forall i, k | 0 <= i < k < |at| ensures ComesBefore(hits[i].score, at[i], hits[k].score, at[k]) {
      LeadsStrictly(cs, places[i], places[k]);
    }
    forall j | 0 <= j < |rs| && IsFound(rs[j], q, terms) && j !in at
      ensures |hits| == q.topK
      ensures forall k :: 0 <= k < |at| ==> ComesBefore(hits[k].score, at[k], Score(terms(q.text), terms(rs[j].rawText)), j)
    {
      var p := PlaceOfFound(rs, q, terms, j);
      NotListed(cs, places, at, p);
      PlacesFull(places, |cs|, q.topK, p);
      forall k | 0 <= k < |at| ensures ComesBefore(hits[k].score, at[k], Score(terms(q.text), terms(rs[j].rawText)), j) {
        LeadsStrictly(cs, places[k], p);
      }
    }
  }

  lemma LeadsStrictly(cs: seq<Candidate>, i: nat, k: nat)
    requires i < |cs| && k < |cs| && Leads(cs, i, k, RanksBefore)
    requires forall a, b :: 0 <= a < b < |cs| ==> cs[a].index < cs[b].index
    ensures ComesBefore(cs[i].score, cs[i].index, cs[k].score, cs[k].index)
  {
  }

  lemma NotListed(cs: seq<Candidate>, places: seq<nat>, at: seq<nat>, p: nat)
    requires |at| == |places| && p < |cs| && cs[p].index !in at
    requires forall k :: 0 <= k < |places| ==> places[k] < |cs| && at[k] == cs[places[k]].index
    ensures p !in places
  {
    assert forall k :: 0 <= k < |at| ==> at[k] in at;
  }

  lemma PlacesFull(places: seq<nat>, n: nat, limit: nat, p: nat)
    requires |places| == Min(limit, n) && p < n && p !in places && (limit >= n ==> ListsAll(places, n))
    ensures |places| == limit
  {
  }

  /** `retrieve` on the local backend. */
  method Retrieve(rs: seq<Record>, q: Query, terms: string -> seq<Term>) returns (hits: seq<Hit>)
    ensures hits == HitsOf(Truncate(Ranking(rs, q, terms), q.topK))
    ensures exists at: seq<nat> :: IsRetrieved(rs, q, terms, at, hits)
  {
    hide IsRetrieved;
    var scored: seq<Candidate> := [];
    for i := 0 to |rs|
      invariant scored == Candidates(rs, q, terms, i)
    {
      if Passes(rs[i], q) {
        var score := Bm25(terms(q.text), terms(rs[i].rawText));
        if score > 0.0 {
          scored := scored + [Candidate(score, i, rs[i])];
        }
      }
    }
    scored := StableSort(scored, RanksBefore);
    hits := HitsOf(Truncate(scored, q.topK));
    ghost var at := RankingIsRetrieved(rs, q, terms);
  }
}
