/** Matching a query against the index and ranking the matches (memvid/src/lex.rs). */
module LexIndex {
  import opened Basics
  import opened Sorting
  import opened Utf8
  import opened LexChunks
  import opened LexMatches

  type FrameId = nat

  // ---------- Matching the index ----------

  datatype Document = Document(frameId: FrameId, uri: Option<seq<byte>>, title: Option<seq<byte>>, sections: seq<Section>)

  datatype LexMatch = LexMatch(
    frameId: FrameId, score: real, occurrences: seq<Occurrence>, content: seq<byte>,
    uri: Option<seq<byte>>, title: Option<seq<byte>>, chunkOffset: nat)

  predicate StartsWith(s: seq<byte>, prefix: seq<byte>) {
    prefix <= s
  }

  predicate UriMatches(candidate: Option<seq<byte>>, expected: seq<byte>) {
    if candidate.None? then false
    else if 35 in expected then AsciiLower(candidate.value) == AsciiLower(expected)
    else StartsWith(AsciiLower(candidate.value), AsciiLower(expected))
  }

  /** A uri filter, if given, decides alone; otherwise a scope filter asks for a uri with that prefix. */
  predicate Passes(d: Document, uriFilter: Option<seq<byte>>, scopeFilter: Option<seq<byte>>) {
    if uriFilter.Some? then UriMatches(d.uri, uriFilter.value)
    else if scopeFilter.Some? then d.uri.Some? && StartsWith(d.uri.value, scopeFilter.value)
    else true
  }

  ghost function Score(tokens: seq<seq<byte>>, haystack: seq<byte>): real
    requires SectionMatches(tokens, haystack)
  {
    |AllSpans(tokens, haystack)| as real + (if Join(tokens) != [] && Occurs(Join(tokens), haystack) then 1000.0 else 0.0)
  }

  ghost function MatchOf(d: Document, s: Section, tokens: seq<seq<byte>>): LexMatch
    requires SectionMatches(tokens, s.contentLower)
  {
    LexMatch(d.frameId, Score(tokens, s.contentLower), StableSort(AllSpans(tokens, s.contentLower), StartsEarlier),
             s.content, d.uri, d.title, s.offset)
  }

  ghost function SectionHits(d: Document, sections: seq<Section>, tokens: seq<seq<byte>>): (hits: seq<LexMatch>) {
    if sections == [] then []
    else
      var n := |sections| - 1;
      SectionHits(d, sections[..n], tokens)
      + if SectionMatches(tokens, sections[n].contentLower) then [MatchOf(d, sections[n], tokens)] else []
  }

  /** Every matching section of every document that passes the filters, in index order. */
  ghost function Hits(docs: seq<Document>, tokens: seq<seq<byte>>, uriFilter: Option<seq<byte>>, scopeFilter: Option<seq<byte>>): (hits: seq<LexMatch>) {
    if docs == [] then []
    else
      var n := |docs| - 1;
      Hits(docs[..n], tokens, uriFilter, scopeFilter)
      + if Passes(docs[n], uriFilter, scopeFilter) then SectionHits(docs[n], docs[n].sections, tokens) else []
  }

  ghost predicate IsHit(docs: seq<Document>, tokens: seq<seq<byte>>, uriFilter: Option<seq<byte>>, scopeFilter: Option<seq<byte>>, m: LexMatch) {
    exists d, s :: d in docs && Passes(d, uriFilter, scopeFilter) && s in d.sections
      && SectionMatches(tokens, s.contentLower) && m == MatchOf(d, s, tokens)
  }

  lemma {:induction false} SectionHitsAre(d: Document, sections: seq<Section>, tokens: seq<seq<byte>>, m: LexMatch)
    ensures m in SectionHits(d, sections, tokens)
      <==> exists s :: s in sections && SectionMatches(tokens, s.contentLower) && m == MatchOf(d, s, tokens)
  {
    hide MatchOf, SectionMatches;
    if sections != [] {
      var n := |sections| - 1;
      SectionHitsAre(d, sections[..n], tokens, m);
      assert sections == sections[..n] + [sections[n]];
    }
  }

  lemma {:induction false} HitsAre(docs: seq<Document>, tokens: seq<seq<byte>>, uriFilter: Option<seq<byte>>, scopeFilter: Option<seq<byte>>, m: LexMatch)
    ensures m in Hits(docs, tokens, uriFilter, scopeFilter) <==> IsHit(docs, tokens, uriFilter, scopeFilter, m)
  {
    hide SectionHits, MatchOf, SectionMatches, Passes;
    if docs != [] {
      var n := |docs| - 1;
      HitsAre(docs[..n], tokens, uriFilter, scopeFilter, m);
      SectionHitsAre(docs[n], docs[n].sections, tokens, m);
      assert docs == docs[..n] + [docs[n]];
      assert forall d :: d in docs <==> d in docs[..n] || d == docs[n];
    }
  }

  // ---------- The filters in terms of bytes ----------

  /** s begins with the prefix, ASCII case aside. */
  ghost predicate BeginsLike(s: seq<byte>, prefix: seq<byte>) {
    |prefix| <= |s| && forall i :: 0 <= i < |prefix| ==> SameLetter(s[i], prefix[i])
  }

  lemma LowerIs(a: seq<byte>, b: seq<byte>)
    requires |a| <= |b|
    ensures AsciiLower(a) == AsciiLower(b)[..|a|] <==> forall i :: 0 <= i < |a| ==> SameLetter(b[i], a[i])
  {
    if forall i :: 0 <= i < |a| ==> SameLetter(b[i], a[i]) {
      assert AsciiLower(a) == AsciiLower(b)[..|a|];
    } else {
      var i :| 0 <= i < |a| && !SameLetter(b[i], a[i]);
      assert AsciiLower(a)[i] != AsciiLower(b)[..|a|][i];
    }
  }

  /** What the filters let through. A uri filter that names a fragment asks for that uri; any other asks for uris
      that begin with it; case does not matter. Without one, a scope filter asks for uris that begin with it
      exactly; and without both, everything passes. */
  lemma PassesMeaning(d: Document, uriFilter: Option<seq<byte>>, scopeFilter: Option<seq<byte>>)
    ensures Passes(d, uriFilter, scopeFilter) <==>
      match uriFilter
      case Some(uri) => d.uri.Some? && BeginsLike(d.uri.value, uri) && (35 in uri ==> |d.uri.value| == |uri|)
      case None =>
        match scopeFilter
        case Some(scope) => d.uri.Some? && |scope| <= |d.uri.value| && d.uri.value[..|scope|] == scope
        case None => true
  {
    if uriFilter.Some? && d.uri.Some? {
      var uri, candidate := uriFilter.value, d.uri.value;
      if |uri| <= |candidate| {
        LowerIs(uri, candidate);
        assert |uri| == |candidate| ==> AsciiLower(candidate)[..|uri|] == AsciiLower(candidate);
      }
    }
  }

  // ---------- Ranking ----------

  predicate ScoresHigher(a: LexMatch, b: LexMatch) {
    a.score >= b.score
  }

  /** Keeps the first match of each frame that has not been seen. */
  ghost function KeepFirst(hits: seq<LexMatch>, seen: set<FrameId>): seq<LexMatch> {
    if hits == [] then []
    else if hits[0].frameId in seen then KeepFirst(hits[1..], seen)
    else [hits[0]] + KeepFirst(hits[1..], seen + {hits[0].frameId})
  }

  ghost function Ranked(hits: seq<LexMatch>): seq<LexMatch> {
    KeepFirst(StableSort(hits, ScoresHigher), {})
  }

  /** The first match of a frame. */
  ghost function FirstOf(hits: seq<LexMatch>, f: FrameId): Option<LexMatch> {
    if hits == [] then None else if hits[0].frameId == f then Some(hits[0]) else FirstOf(hits[1..], f)
  }

  /** The reference: a frame's best match, the earliest one among equals, computed without sorting. */
  ghost function BestOf(hits: seq<LexMatch>, f: FrameId): (r: Option<LexMatch>)
    ensures r.Some? ==> r.value in hits && r.value.frameId == f
    ensures forall m :: m in hits && m.frameId == f ==> r.Some? && m.score <= r.value.score
  {
    if hits == [] then None
    else
      var rest := BestOf(hits[1..], f);
      if hits[0].frameId == f && (rest.None? || hits[0].score >= rest.value.score) then Some(hits[0]) else rest
  }

  lemma {:induction false} InsertFirstOf(x: LexMatch, s: seq<LexMatch>, f: FrameId)
    requires Sorted(s, ScoresHigher)
    ensures var rest := FirstOf(s, f);
      FirstOf(Insert(x, s, ScoresHigher), f)
      == if x.frameId == f && (rest.None? || x.score >= rest.value.score) then Some(x) else rest
  {
    var r := Insert(x, s, ScoresHigher);
    if s == [] || ScoresHigher(x, s[0]) {
      assert r[1..] == s;
      if s != [] {
        FirstOfIsLower(s, f);
      }
    } else {
      InsertFirstOf(x, s[1..], f);
      assert r[1..] == Insert(x, s[1..], ScoresHigher);
      FirstOfIsLower(s, f);
    }
  }

  lemma {:induction false} FirstOfIsLower(s: seq<LexMatch>, f: FrameId)
    requires Sorted(s, ScoresHigher) && s != []
    ensures FirstOf(s, f).Some? ==> FirstOf(s, f).value.score <= s[0].score
  {
    if |s| > 1 {
      assert ScoresHigher(s[0], s[1]);
      FirstOfIsLower(s[1..], f);
    }
  }

  lemma ScoresHigherIsOrder()
    ensures IsOrder(ScoresHigher)
  {
  }

  lemma {:induction false} SortedFirstIsBest(hits: seq<LexMatch>, f: FrameId)
    ensures FirstOf(StableSort(hits, ScoresHigher), f) == BestOf(hits, f)
  {
    if hits != [] {
      SortedFirstIsBest(hits[1..], f);
      ScoresHigherIsOrder();
      SortSorts(hits[1..], ScoresHigher);
      InsertFirstOf(hits[0], StableSort(hits[1..], ScoresHigher), f);
    }
  }

  lemma {:induction false} KeepFirstKeeps(s: seq<LexMatch>, seen: set<FrameId>, f: FrameId)
    ensures FirstOf(KeepFirst(s, seen), f) == if f in seen then None else FirstOf(s, f)
  {
    if s != [] {
      if s[0].frameId in seen {
        KeepFirstKeeps(s[1..], seen, f);
      } else {
        KeepFirstKeeps(s[1..], seen + {s[0].frameId}, f);
        assert KeepFirst(s, seen)[1..] == KeepFirst(s[1..], seen + {s[0].frameId});
      }
    }
  }

  lemma {:induction false} KeepFirstIsOrdered(s: seq<LexMatch>, seen: set<FrameId>)
    requires Sorted(s, ScoresHigher)
    ensures var r := KeepFirst(s, seen);
      && Sorted(r, ScoresHigher) && (forall m :: m in r ==> m in s && m.frameId !in seen)
      && (forall i, j :: 0 <= i < j < |r| ==> r[i].frameId != r[j].frameId)
  {
    if s != [] {
      if s[0].frameId in seen {
        KeepFirstIsOrdered(s[1..], seen);
      } else {
        var more := seen + {s[0].frameId};
        KeepFirstIsOrdered(s[1..], more);
        var rest := KeepFirst(s[1..], more);
        forall m | m in rest ensures ScoresHigher(s[0], m) && m.frameId != s[0].frameId {
          assert m in s[1..];
          var k :| 0 <= k < |s[1..]| && s[1..][k] == m;
          assert s[k + 1] == m;
        }
      }
    }
  }

  /** The ranking lists no frame twice, in non-increasing score, and holds for every frame exactly its best
      hit - sorting and keeping first occurrences amounts to a per-frame maximum. */
  lemma RankingIsComplete(hits: seq<LexMatch>, f: FrameId)
    ensures var r := Ranked(hits);
      && Sorted(r, ScoresHigher)
      && (forall i, j :: 0 <= i < j < |r| ==> r[i].frameId != r[j].frameId)
      && FirstOf(r, f) == BestOf(hits, f)
  {
    ScoresHigherIsOrder();
    SortSorts(hits, ScoresHigher);
    var s := StableSort(hits, ScoresHigher);
    KeepFirstIsOrdered(s, {});
    KeepFirstKeeps(s, {}, f);
    SortedFirstIsBest(hits, f);
  }

  // ---------- The answer to a query, in fields of documents and sections ----------

  /** A section, by the number of its document and its own. */
  type Place = (nat, nat)

  predicate Earlier(p: Place, q: Place) {
    p.0 < q.0 || (p.0 == q.0 && p.1 < q.1)
  }

  predicate IsPlace(docs: seq<Document>, p: Place) {
    p.0 < |docs| && p.1 < |docs[p.0].sections|
  }

  function SectionAtPlace(docs: seq<Document>, p: Place): Section
    requires IsPlace(docs, p)
  {
    docs[p.0].sections[p.1]
  }

  /** The section belongs to a document that passes the filters, and contains every token. */
  ghost predicate IsCandidate(docs: seq<Document>, p: Place, tokens: seq<seq<byte>>,
                              uriFilter: Option<seq<byte>>, scopeFilter: Option<seq<byte>>) {
    && IsPlace(docs, p)
    && Passes(docs[p.0], uriFilter, scopeFilter) && SectionMatches(tokens, docs[p.0].sections[p.1].contentLower)
  }

  /** One point for each occurrence, and 1000 more if the tokens occur as a phrase. */
  ghost predicate HasScore(score: real, tokens: seq<seq<byte>>, haystack: seq<byte>, occurrences: nat) {
    score == occurrences as real + if HasPhrase(tokens, haystack) then 1000.0 else 0.0
  }

  /** The match reports this section of this document. */
  ghost predicate Reports(m: LexMatch, d: Document, s: Section, tokens: seq<seq<byte>>) {
    && m.frameId == d.frameId && m.uri == d.uri && m.title == d.title
    && m.chunkOffset == s.offset && m.content == s.content
    && AreOccurrences(tokens, s.contentLower, m.occurrences)
    && HasScore(m.score, tokens, s.contentLower, |m.occurrences|)
  }

  /** A match of section p stands before what section q scores: that is less, or as much with p no later than q. */
  ghost predicate Beats(m: LexMatch, p: Place, q: Place, s: Section, tokens: seq<seq<byte>>) {
    forall n: nat, score: real ::
      IsTotal(tokens, s.contentLower, n) && HasScore(score, tokens, s.contentLower, n) ==>
        score < m.score || (score == m.score && !Earlier(q, p))
  }

  /** What a query has to return. The matches report candidate sections at these places, one for each frame, by
      score and, where that ties, by place; and every candidate section's frame has a match that beats it. */
  ghost predicate IsAnswer(docs: seq<Document>, tokens: seq<seq<byte>>, uriFilter: Option<seq<byte>>, scopeFilter: Option<seq<byte>>,
                           matches: seq<LexMatch>, places: seq<Place>) {
    && |places| == |matches|
    && (forall k :: 0 <= k < |matches| ==>
          && IsCandidate(docs, places[k], tokens, uriFilter, scopeFilter)
          && Reports(matches[k], docs[places[k].0], SectionAtPlace(docs, places[k]), tokens))
    && (forall i, k :: 0 <= i < k < |matches| ==>
          && matches[i].frameId != matches[k].frameId
          && (matches[i].score > matches[k].score
              || (matches[i].score == matches[k].score && Earlier(places[i], places[k]))))
    && (forall q: Place :: IsCandidate(docs, q, tokens, uriFilter, scopeFilter) ==>
          AnswersFor(docs, q, tokens, matches, places))
  }

  /** Some match has the frame of this section and beats the section. */
  ghost predicate AnswersFor(docs: seq<Document>, q: Place, tokens: seq<seq<byte>>, matches: seq<LexMatch>, places: seq<Place>)
    requires IsPlace(docs, q) && |places| == |matches|
  {
    exists k :: 0 <= k < |matches| && matches[k].frameId == docs[q.0].frameId && Beats(matches[k], places[k], q, SectionAtPlace(docs, q), tokens)
  }

  lemma MostIsUnique(a: nat, b: nat, haystack: seq<byte>, needle: seq<byte>)
    requires MostDisjoint(a, haystack, needle) && MostDisjoint(b, haystack, needle)
    ensures a == b
  {
    hide DisjointMatches;
  }

  lemma {:induction false} SameSum(tokens: seq<seq<byte>>, haystack: seq<byte>, a: seq<nat>, b: seq<nat>)
    requires |a| == |b| == |tokens|
    requires forall k :: 0 <= k < |tokens| ==> MostDisjoint(a[k], haystack, tokens[k]) && MostDisjoint(b[k], haystack, tokens[k])
    ensures Sum(a) == Sum(b)
  {
    hide MostDisjoint;
    if tokens != [] {
      var n := |tokens| - 1;
      MostIsUnique(a[n], b[n], haystack, tokens[n]);
      SameSum(tokens[..n], haystack, a[..n], b[..n]);
    }
  }

  lemma TotalIsUnique(tokens: seq<seq<byte>>, haystack: seq<byte>, n: nat)
    requires IsTotal(tokens, haystack, n) && forall i :: 0 <= i < |tokens| ==> tokens[i] != []
    ensures n == |AllSpans(tokens, haystack)|
  {
    hide MostDisjoint, AllSpans;
    var a: seq<nat> :| |a| == |tokens| && Sum(a) == n
      && forall k :: 0 <= k < |tokens| ==> MostDisjoint(a[k], haystack, tokens[k]);
    var b := SpansAreTotal(tokens, haystack);
    SameSum(tokens, haystack, a, b);
  }

  lemma MatchReports(d: Document, s: Section, tokens: seq<seq<byte>>)
    requires tokens != [] && SectionMatches(tokens, s.contentLower)
    ensures Reports(MatchOf(d, s, tokens), d, s, tokens)
  {
    hide AreOccurrences, AllSpans, StableSort, HasPhrase, MatchAt, Join;
    SortedSpansAre(tokens, s.contentLower);
    PhraseOccurs(tokens, s.contentLower);
  }

  lemma MatchBeats(d: Document, s: Section, tokens: seq<seq<byte>>, m: LexMatch, p: Place, q: Place)
    requires tokens != [] && SectionMatches(tokens, s.contentLower)
    requires var score := MatchOf(d, s, tokens).score; score < m.score || (score == m.score && !Earlier(q, p))
    ensures Beats(m, p, q, s, tokens)
  {
    hide AllSpans, StableSort, HasPhrase, MatchAt, Join, IsTotal;
    PhraseOccurs(tokens, s.contentLower);
    forall n: nat, score: real | IsTotal(tokens, s.contentLower, n) && HasScore(score, tokens, s.contentLower, n)
      ensures score == MatchOf(d, s, tokens).score
    {
      TotalIsUnique(tokens, s.contentLower, n);
    }
  }

  lemma RankedAreHits(hits: seq<LexMatch>, m: LexMatch)
    requires m in Ranked(hits)
    ensures m in hits
  {
    ScoresHigherIsOrder();
    SortSorts(hits, ScoresHigher);
    KeepFirstIsOrdered(StableSort(hits, ScoresHigher), {});
    SameMembers(hits, ScoresHigher);
  }

  // ---------- Where hits come from ----------

  /** Hit k comes from the section at place k; the places ascend. */
  ghost predicate HitsFrom(docs: seq<Document>, tokens: seq<seq<byte>>, uriFilter: Option<seq<byte>>, scopeFilter: Option<seq<byte>>,
                           hits: seq<LexMatch>, places: seq<Place>) {
    && |places| == |hits|
    && (forall k :: 0 <= k < |hits| ==> HitAt(docs, tokens, uriFilter, scopeFilter, hits[k], places[k]))
    && Ascend(places)
  }

  ghost predicate HitAt(docs: seq<Document>, tokens: seq<seq<byte>>, uriFilter: Option<seq<byte>>, scopeFilter: Option<seq<byte>>,
                        hit: LexMatch, p: Place) {
    IsCandidate(docs, p, tokens, uriFilter, scopeFilter) && hit == MatchOf(docs[p.0], SectionAtPlace(docs, p), tokens)
  }

  ghost predicate Ascend(places: seq<Place>) {
    forall i, k :: 0 <= i < k < |places| ==> Earlier(places[i], places[k])
  }

  lemma HitsJoin(docs: seq<Document>, tokens: seq<seq<byte>>, uriFilter: Option<seq<byte>>, scopeFilter: Option<seq<byte>>,
                 a: seq<LexMatch>, p: seq<Place>, b: seq<LexMatch>, q: seq<Place>)
    requires HitsFrom(docs, tokens, uriFilter, scopeFilter, a, p) && HitsFrom(docs, tokens, uriFilter, scopeFilter, b, q)
    requires forall x, y :: x in p && y in q ==> Earlier(x, y)
    ensures HitsFrom(docs, tokens, uriFilter, scopeFilter, a + b, p + q)
  {
    hide HitAt, Earlier;
    forall i, k | 0 <= i < k < |p + q| ensures Earlier((p + q)[i], (p + q)[k]) {
      if i < |p| <= k {
        assert p[i] in p && q[k - |p|] in q;
      }
    }
  }

  lemma NoHits(docs: seq<Document>, tokens: seq<seq<byte>>, uriFilter: Option<seq<byte>>, scopeFilter: Option<seq<byte>>)
    ensures HitsFrom(docs, tokens, uriFilter, scopeFilter, [], [])
  {
  }

  lemma OneHit(docs: seq<Document>, p: Place, tokens: seq<seq<byte>>, uriFilter: Option<seq<byte>>, scopeFilter: Option<seq<byte>>)
    requires IsCandidate(docs, p, tokens, uriFilter, scopeFilter)
    ensures HitsFrom(docs, tokens, uriFilter, scopeFilter, [MatchOf(docs[p.0], SectionAtPlace(docs, p), tokens)], [p])
  {
  }

  /** All places in document n before section `count` are in the list. */
  ghost predicate ListsSections(docs: seq<Document>, n: nat, count: nat, tokens: seq<seq<byte>>, places: seq<Place>)
    requires n < |docs| && count <= |docs[n].sections|
  {
    && (forall p :: p in places ==> p.0 == n && p.1 < count)
    && (forall j: nat :: j < count && SectionMatches(tokens, docs[n].sections[j].contentLower) ==> (n, j) in places)
  }

  lemma {:induction false} SectionPlaces(docs: seq<Document>, n: nat, count: nat, tokens: seq<seq<byte>>,
                                         uriFilter: Option<seq<byte>>, scopeFilter: Option<seq<byte>>) returns (places: seq<Place>)
    requires n < |docs| && count <= |docs[n].sections| && Passes(docs[n], uriFilter, scopeFilter)
    ensures HitsFrom(docs, tokens, uriFilter, scopeFilter, SectionHits(docs[n], docs[n].sections[..count], tokens), places)
    ensures ListsSections(docs, n, count, tokens, places)
  {
    hide MatchOf, SectionMatches, Passes, HitsFrom;
    if count == 0 {
      places := [];
      NoHits(docs, tokens, uriFilter, scopeFilter);
    } else {
      var m := count - 1;
      var before := SectionPlaces(docs, n, m, tokens, uriFilter, scopeFilter);
      assert docs[n].sections[..count][..m] == docs[n].sections[..m];
      var hits := SectionHits(docs[n], docs[n].sections[..m], tokens);
      if SectionMatches(tokens, docs[n].sections[m].contentLower) {
        places := before + [(n, m)];
        OneHit(docs, (n, m), tokens, uriFilter, scopeFilter);
        HitsJoin(docs, tokens, uriFilter, scopeFilter, hits, before, [MatchOf(docs[n], docs[n].sections[m], tokens)], [(n, m)]);
        assert (n, m) in places;
      } else {
        places := before;
        assert hits + [] == hits;
      }
    }
  }

  ghost predicate ListsCandidates(docs: seq<Document>, count: nat, tokens: seq<seq<byte>>,
                                  uriFilter: Option<seq<byte>>, scopeFilter: Option<seq<byte>>, places: seq<Place>) {
    && (forall p :: p in places ==> p.0 < count)
    && (forall q: Place :: q.0 < count && IsCandidate(docs, q, tokens, uriFilter, scopeFilter) ==> q in places)
  }

  lemma CandidatesOfOneMore(docs: seq<Document>, n: nat, tokens: seq<seq<byte>>,
                            uriFilter: Option<seq<byte>>, scopeFilter: Option<seq<byte>>, before: seq<Place>, more: seq<Place>)
    requires n < |docs| && ListsCandidates(docs, n, tokens, uriFilter, scopeFilter, before)
    requires if Passes(docs[n], uriFilter, scopeFilter) then ListsSections(docs, n, |docs[n].sections|, tokens, more) else more == []
    ensures ListsCandidates(docs, n + 1, tokens, uriFilter, scopeFilter, before + more)
  {
    hide SectionMatches, Passes;
    forall q: Place | q.0 < n + 1 && IsCandidate(docs, q, tokens, uriFilter, scopeFilter) ensures q in before + more {
      if q.0 == n {
        assert (n, q.1) == q;
      }
    }
  }

  lemma {:induction false} HitPlaces(docs: seq<Document>, count: nat, tokens: seq<seq<byte>>,
                                     uriFilter: Option<seq<byte>>, scopeFilter: Option<seq<byte>>) returns (places: seq<Place>)
    requires count <= |docs|
    ensures HitsFrom(docs, tokens, uriFilter, scopeFilter, Hits(docs[..count], tokens, uriFilter, scopeFilter), places)
    ensures ListsCandidates(docs, count, tokens, uriFilter, scopeFilter, places)
  {
    hide SectionHits, IsCandidate, HitsFrom, Passes;
    if count == 0 {
      places := [];
      NoHits(docs, tokens, uriFilter, scopeFilter);
    } else {
      var n := count - 1;
      var before := HitPlaces(docs, n, tokens, uriFilter, scopeFilter);
      assert docs[..count][..n] == docs[..n];
      var hits := Hits(docs[..n], tokens, uriFilter, scopeFilter);
      if Passes(docs[n], uriFilter, scopeFilter) {
        var more := SectionPlaces(docs, n, |docs[n].sections|, tokens, uriFilter, scopeFilter);
        assert docs[n].sections[..|docs[n].sections|] == docs[n].sections;
        HitsJoin(docs, tokens, uriFilter, scopeFilter, hits, before, SectionHits(docs[n], docs[n].sections, tokens), more);
        CandidatesOfOneMore(docs, n, tokens, uriFilter, scopeFilter, before, more);
        places := before + more;
      } else {
        CandidatesOfOneMore(docs, n, tokens, uriFilter, scopeFilter, before, []);
        places := before;
        assert hits + [] == hits && before + [] == before;
      }
    }
  }

  // ---------- Where ranked matches come from ----------

  /** The position of the first hit of a frame, or the end. */
  ghost function FirstIndex(s: seq<LexMatch>, f: FrameId): (i: nat)
    ensures i <= |s| && forall x :: 0 <= x < i ==> s[x].frameId != f
    ensures i < |s| ==> s[i].frameId == f && FirstOf(s, f) == Some(s[i])
    ensures i == |s| ==> FirstOf(s, f) == None
  {
    if s == [] || s[0].frameId == f then 0 else 1 + FirstIndex(s[1..], f)
  }

  lemma {:induction false} KeptAreNotSeen(s: seq<LexMatch>, seen: set<FrameId>, i: nat)
    requires i < |KeepFirst(s, seen)|
    ensures KeepFirst(s, seen)[i].frameId !in seen
  {
    if s[0].frameId in seen {
      KeptAreNotSeen(s[1..], seen, i);
    } else if i > 0 {
      KeptAreNotSeen(s[1..], seen + {s[0].frameId}, i - 1);
    }
  }

  lemma {:induction false} FirstOfIsMember(s: seq<LexMatch>, f: FrameId)
    ensures FirstOf(s, f).Some? ==> FirstOf(s, f).value in s && FirstOf(s, f).value.frameId == f
  {
    if s != [] && s[0].frameId != f {
      FirstOfIsMember(s[1..], f);
    }
  }

  /** The kept hits stand in the order in which their frames first occur. */
  lemma {:induction false} KeptInOrder(s: seq<LexMatch>, seen: set<FrameId>, i: nat, k: nat)
    requires i < k < |KeepFirst(s, seen)|
    ensures var r := KeepFirst(s, seen);
      r[i].frameId != r[k].frameId && FirstIndex(s, r[i].frameId) < FirstIndex(s, r[k].frameId)
  {
    KeptAreNotSeen(s, seen, i);
    KeptAreNotSeen(s, seen, k);
    if s[0].frameId in seen {
      KeptInOrder(s[1..], seen, i, k);
    } else {
      var more := seen + {s[0].frameId};
      KeptAreNotSeen(s[1..], more, k - 1);
      if i > 0 {
        KeptAreNotSeen(s[1..], more, i - 1);
        KeptInOrder(s[1..], more, i - 1, k - 1);
      }
    }
  }

  lemma {:induction false} MemberOfOwnFrame(r: seq<LexMatch>, k: nat)
    requires k < |r| && forall i, j :: 0 <= i < j < |r| ==> r[i].frameId != r[j].frameId
    ensures FirstOf(r, r[k].frameId) == Some(r[k])
  {
    if k > 0 {
      MemberOfOwnFrame(r[1..], k - 1);
    }
  }

  /** Match k of the ranking is the first hit of its frame in the sorted list. */
  lemma RankedIsFirst(s: seq<LexMatch>, k: nat)
    requires k < |KeepFirst(s, {})|
    ensures var r := KeepFirst(s, {});
      var x := FirstIndex(s, r[k].frameId);
      x < |s| && r[k] == s[x]
  {
    hide KeepFirst, FirstIndex;
    var r := KeepFirst(s, {});
    forall i, j | 0 <= i < j < |r| ensures r[i].frameId != r[j].frameId {
      KeptInOrder(s, {}, i, j);
    }
    MemberOfOwnFrame(r, k);
    KeepFirstKeeps(s, {}, r[k].frameId);
  }

  /** The position among the hits that match k of the ranking comes from. */
  ghost function Origin(s: seq<LexMatch>, at: seq<nat>, k: nat): nat
    requires |at| == |s| && k < |KeepFirst(s, {})|
  {
    RankedIsFirst(s, k);
    at[FirstIndex(s, KeepFirst(s, {})[k].frameId)]
  }

  /** The sorted hits, with the positions they come from. */
  ghost predicate SortedFrom(hits: seq<LexMatch>, s: seq<LexMatch>, at: seq<nat>) {
    Arranges(at, hits, s, ScoresHigher) && ListsAll(at, |hits|)
  }

  lemma OriginIs(hits: seq<LexMatch>, s: seq<LexMatch>, at: seq<nat>, k: nat)
    requires SortedFrom(hits, s, at) && k < |KeepFirst(s, {})|
    ensures Origin(s, at, k) < |hits| && KeepFirst(s, {})[k] == hits[Origin(s, at, k)]
  {
    hide KeepFirst, FirstIndex, ListsAll;
    RankedIsFirst(s, k);
  }

  lemma OriginsInOrder(hits: seq<LexMatch>, s: seq<LexMatch>, at: seq<nat>, i: nat, k: nat)
    requires SortedFrom(hits, s, at) && i < k < |KeepFirst(s, {})|
    ensures var r := KeepFirst(s, {});
      && r[i].frameId != r[k].frameId
      && (r[i].score > r[k].score || (r[i].score == r[k].score && Origin(s, at, i) < Origin(s, at, k)))
  {
    hide KeepFirst, FirstIndex, ListsAll;
    RankedIsFirst(s, i);
    RankedIsFirst(s, k);
    KeptInOrder(s, {}, i, k);
    OriginIs(hits, s, at, i);
    OriginIs(hits, s, at, k);
    assert Leads(hits, Origin(s, at, i), Origin(s, at, k), ScoresHigher);
  }

  /** For every hit, the match of its frame scores more, or as much from a position no later. */
  lemma HitIsBeaten(hits: seq<LexMatch>, s: seq<LexMatch>, at: seq<nat>, h: nat) returns (k: nat)
    requires SortedFrom(hits, s, at) && h < |hits|
    ensures var r := KeepFirst(s, {});
      && k < |r| && r[k].frameId == hits[h].frameId
      && (hits[h].score < r[k].score || (hits[h].score == r[k].score && Origin(s, at, k) <= h))
  {
    hide KeepFirst, FirstIndex;
    assert h in at;
    var x :| 0 <= x < |at| && at[x] == h;
    var f := hits[h].frameId;
    var r := KeepFirst(s, {});
    KeepFirstKeeps(s, {}, f);
    FirstOfIsMember(r, f);
    assert FirstIndex(s, f) <= x;
    k :| 0 <= k < |r| && r[k] == FirstOf(r, f).value;
    RankedIsFirst(s, k);
    OriginIs(hits, s, at, k);
    assert FirstIndex(s, f) < x ==> Leads(hits, at[FirstIndex(s, f)], at[x], ScoresHigher);
  }

  lemma RankedIsAnswer(docs: seq<Document>, tokens: seq<seq<byte>>, uriFilter: Option<seq<byte>>, scopeFilter: Option<seq<byte>>)
    returns (places: seq<Place>)
    requires tokens != []
    ensures IsAnswer(docs, tokens, uriFilter, scopeFilter, Ranked(Hits(docs, tokens, uriFilter, scopeFilter)), places)
  {
    hide Hits, KeepFirst, StableSort, Origin, SortedFrom, Reports, Beats, IsCandidate, HitAt;
    var hits := Hits(docs, tokens, uriFilter, scopeFilter);
    var all := HitPlaces(docs, |docs|, tokens, uriFilter, scopeFilter);
    assert docs[..|docs|] == docs;
    var s, at := SortHits(hits);
    var matches := KeepFirst(s, {});
    forall k | 0 <= k < |matches| ensures Origin(s, at, k) < |hits| && matches[k] == hits[Origin(s, at, k)] {
      OriginIs(hits, s, at, k);
    }
    places := seq(|matches|, k requires 0 <= k < |matches| => all[Origin(s, at, k)]);
    forall k | 0 <= k < |matches|
      ensures IsCandidate(docs, places[k], tokens, uriFilter, scopeFilter) && IsPlace(docs, places[k])
      ensures Reports(matches[k], docs[places[k].0], SectionAtPlace(docs, places[k]), tokens)
    {
      HitReports(docs, tokens, uriFilter, scopeFilter, matches[k], places[k]);
    }
    forall i, k | 0 <= i < k < |matches|
      ensures matches[i].frameId != matches[k].frameId
      ensures matches[i].score > matches[k].score
        || (matches[i].score == matches[k].score && Earlier(places[i], places[k]))
    {
      OriginsInOrder(hits, s, at, i, k);
    }
    forall q: Place ensures IsCandidate(docs, q, tokens, uriFilter, scopeFilter) ==> IsPlace(docs, q) {
      InDocuments(docs, q, tokens, uriFilter, scopeFilter);
    }
    forall q: Place | IsCandidate(docs, q, tokens, uriFilter, scopeFilter)
      ensures AnswersFor(docs, q, tokens, matches, places)
    {
      var h :| 0 <= h < |all| && all[h] == q;
      var k := HitIsBeaten(hits, s, at, h);
      assert Origin(s, at, k) < h ==> Earlier(places[k], all[h]);
      HitBeats(docs, tokens, uriFilter, scopeFilter, hits[h], q, matches[k], places[k]);
    }
  }

  lemma SortHits(hits: seq<LexMatch>) returns (s: seq<LexMatch>, at: seq<nat>)
    ensures s == StableSort(hits, ScoresHigher) && SortedFrom(hits, s, at) && |at| == |s|
  {
    ScoresHigherIsOrder();
    s := StableSort(hits, ScoresHigher);
    at := StableSortArranges(hits, ScoresHigher);
  }

  lemma InDocuments(docs: seq<Document>, q: Place, tokens: seq<seq<byte>>, uriFilter: Option<seq<byte>>, scopeFilter: Option<seq<byte>>)
    ensures IsCandidate(docs, q, tokens, uriFilter, scopeFilter) ==> IsPlace(docs, q)
  {
  }

  lemma HitReports(docs: seq<Document>, tokens: seq<seq<byte>>, uriFilter: Option<seq<byte>>, scopeFilter: Option<seq<byte>>,
                   hit: LexMatch, p: Place)
    requires tokens != [] && HitAt(docs, tokens, uriFilter, scopeFilter, hit, p)
    ensures IsCandidate(docs, p, tokens, uriFilter, scopeFilter) && IsPlace(docs, p)
    ensures Reports(hit, docs[p.0], SectionAtPlace(docs, p), tokens)
  {
    hide Reports, MatchOf, SectionMatches;
    MatchReports(docs[p.0], SectionAtPlace(docs, p), tokens);
  }

  lemma HitBeats(docs: seq<Document>, tokens: seq<seq<byte>>, uriFilter: Option<seq<byte>>, scopeFilter: Option<seq<byte>>,
                 hit: LexMatch, q: Place, m: LexMatch, p: Place)
    requires tokens != [] && HitAt(docs, tokens, uriFilter, scopeFilter, hit, q)
    requires hit.score < m.score || (hit.score == m.score && !Earlier(q, p))
    ensures hit.frameId == docs[q.0].frameId && Beats(m, p, q, SectionAtPlace(docs, q), tokens)
  {
    hide Beats, MatchOf, SectionMatches;
    MatchFrame(docs[q.0], SectionAtPlace(docs, q), tokens);
    MatchBeats(docs[q.0], SectionAtPlace(docs, q), tokens, m, p, q);
  }

  lemma MatchFrame(d: Document, s: Section, tokens: seq<seq<byte>>)
    requires SectionMatches(tokens, s.contentLower)
    ensures MatchOf(d, s, tokens).frameId == d.frameId
  {
  }

  // ---------- The program ----------

  method Dedup(hits: seq<LexMatch>) returns (deduped: seq<LexMatch>)
    ensures deduped == KeepFirst(hits, {})
  {
    deduped := [];
    var seen: set<FrameId> := {};
    for i := 0 to |hits|
      invariant KeepFirst(hits, {}) == deduped + KeepFirst(hits[i..], seen)
    {
      assert hits[i..][0] == hits[i] && hits[i..][1..] == hits[i + 1..];
      if hits[i].frameId !in seen {
        seen := seen + {hits[i].frameId};
        deduped := deduped + [hits[i]];
      }
    }
  }

  method ComputeMatches(docs: seq<Document>, tokens: seq<seq<byte>>, uriFilter: Option<seq<byte>>, scopeFilter: Option<seq<byte>>)
    returns (matches: seq<LexMatch>)
    ensures tokens == [] ==> matches == []
    ensures tokens != [] ==> matches == Ranked(Hits(docs, tokens, uriFilter, scopeFilter))
    ensures tokens != [] ==> exists places :: IsAnswer(docs, tokens, uriFilter, scopeFilter, matches, places)
  {
    hide IsAnswer;
    if tokens == [] {
      return [];
    }
    var hits: seq<LexMatch> := [];
    var phrase := Join(tokens);
    for k := 0 to |docs|
      invariant hits == Hits(docs[..k], tokens, uriFilter, scopeFilter)
    {
      assert docs[..k + 1][..k] == docs[..k];
      var d := docs[k];
      if Passes(d, uriFilter, scopeFilter) {
        var found := SearchDocument(d, tokens, phrase);
        hits := hits + found;
      }
    }
    assert docs[..|docs|] == docs;
    matches := Dedup(StableSort(hits, ScoresHigher));
    ghost var places := RankedIsAnswer(docs, tokens, uriFilter, scopeFilter);
  }

  method SearchDocument(d: Document, tokens: seq<seq<byte>>, phrase: seq<byte>) returns (hits: seq<LexMatch>)
    requires tokens != [] && phrase == Join(tokens)
    ensures hits == SectionHits(d, d.sections, tokens)
  {
    hits := [];
    for i := 0 to |d.sections|
      invariant hits == SectionHits(d, d.sections[..i], tokens)
    {
      assert d.sections[..i + 1][..i] == d.sections[..i];
      var m := MatchSection(d, d.sections[i], tokens, phrase);
      if m.Some? {
        hits := hits + [m.value];
      }
    }
    assert d.sections[..|d.sections|] == d.sections;
  }

  method MatchSection(d: Document, section: Section, tokens: seq<seq<byte>>, phrase: seq<byte>) returns (m: Option<LexMatch>)
    requires tokens != [] && phrase == Join(tokens)
    ensures m.Some? <==> SectionMatches(tokens, section.contentLower)
    ensures m.Some? ==> m.value == MatchOf(d, section, tokens)
  {
    hide AllSpans;
    var occurrences := SearchSection(tokens, section.contentLower);
    if occurrences.None? {
      return None;
    }
    var score := |occurrences.value| as real;
    if phrase != [] && FindFrom(section.contentLower, phrase, 0).Some? {
      score := score + 1000.0;
    }
    return Some(LexMatch(d.frameId, score, occurrences.value, section.content, d.uri, d.title, section.offset));
  }
}
