/** Matching the tokens of a query against one section of the index (memvid/src/lex.rs). */
module LexMatches {
  import opened Basics
  import opened Sorting
  import opened Utf8

  type Occurrence = (nat, nat)

  // ---------- Occurrences of one token ----------

  predicate MatchAt(haystack: seq<byte>, needle: seq<byte>, i: nat) {
    i + |needle| <= |haystack| && haystack[i..i + |needle|] == needle
  }

  /** `haystack[start..].find(needle)`, as a position in the haystack. */
  function FindFrom(haystack: seq<byte>, needle: seq<byte>, start: nat): (r: Option<nat>)
    requires start <= |haystack|
    ensures r.Some? ==> start <= r.value && MatchAt(haystack, needle, r.value)
    ensures forall i :: start <= i && (r.Some? ==> i < r.value) ==> !MatchAt(haystack, needle, i)
    decreases |haystack| - start
  {
    if MatchAt(haystack, needle, start) then Some(start)
    else if start == |haystack| then None
    else FindFrom(haystack, needle, start + 1)
  }

  /** The starts of the occurrences found from `start` on, each search resuming behind the last find. */
  ghost function Greedy(haystack: seq<byte>, needle: seq<byte>, start: nat): (starts: seq<nat>)
    requires needle != [] && start <= |haystack|
    decreases |haystack| - start
  {
    var found := FindFrom(haystack, needle, start);
    if found.None? then [] else [found.value] + Greedy(haystack, needle, found.value + |needle|)
  }

  function Spans(starts: seq<nat>, width: nat): (r: seq<Occurrence>)
    ensures |r| == |starts|
  {
    seq(|starts|, i requires 0 <= i < |starts| => (starts[i], starts[i] + width))
  }

  lemma GreedyStep(haystack: seq<byte>, needle: seq<byte>, start: nat)
    requires needle != [] && start <= |haystack| && FindFrom(haystack, needle, start).Some?
    ensures var at := FindFrom(haystack, needle, start).value;
      && start <= at && MatchAt(haystack, needle, at) && at + |needle| <= |haystack|
      && Greedy(haystack, needle, start) == [at] + Greedy(haystack, needle, at + |needle|)
  {
  }

  lemma GreedyEnds(haystack: seq<byte>, needle: seq<byte>, start: nat)
    requires needle != [] && start <= |haystack| && FindFrom(haystack, needle, start).None?
    ensures Greedy(haystack, needle, start) == []
  {
  }

  method FindAll(haystack: seq<byte>, needle: seq<byte>) returns (occurrences: seq<Occurrence>)
    requires needle != []
    ensures occurrences == Spans(Greedy(haystack, needle, 0), |needle|)
  {
    hide FindFrom, MatchAt, Greedy;
    occurrences := [];
    var start := 0;
    ghost var starts: seq<nat> := [];
    while true
      invariant start <= |haystack|
      invariant Greedy(haystack, needle, 0) == starts + Greedy(haystack, needle, start)
      invariant occurrences == Spans(starts, |needle|)
      decreases |haystack| - start
    {
      var found := FindFrom(haystack, needle, start);
      if found.None? {
        GreedyEnds(haystack, needle, start);
        break;
      }
      var localEnd := found.value + |needle|;
      GreedyStep(haystack, needle, start);
      occurrences := occurrences + [(found.value, localEnd)];
      starts := starts + [found.value];
      start := localEnd;
    }
  }

  /** Matches of the needle, no two of which overlap. */
  ghost predicate DisjointMatches(haystack: seq<byte>, needle: seq<byte>, starts: set<nat>) {
    && (forall i :: i in starts ==> MatchAt(haystack, needle, i))
    && (forall i, j :: i in starts && j in starts && i < j ==> i + |needle| <= j)
  }

  ghost function AsSet(s: seq<nat>): set<nat> {
    set i | i in s
  }

  /** What the search finds are true matches, in order and disjoint. */
  lemma {:induction false} GreedyIsDisjoint(haystack: seq<byte>, needle: seq<byte>, start: nat)
    requires needle != [] && start <= |haystack|
    ensures var g := Greedy(haystack, needle, start);
      && DisjointMatches(haystack, needle, AsSet(g)) && |AsSet(g)| == |g|
      && (forall i :: i in g ==> i >= start)
    decreases |haystack| - start
  {
    hide FindFrom, MatchAt, Greedy, DisjointMatches, AsSet;
    var found := FindFrom(haystack, needle, start);
    if found.None? {
      GreedyEnds(haystack, needle, start);
      NoMatches(haystack, needle);
    } else {
      GreedyStep(haystack, needle, start);
      var next := found.value + |needle|;
      GreedyIsDisjoint(haystack, needle, next);
      PrependMatch(haystack, needle, found.value, Greedy(haystack, needle, next));
    }
  }

  lemma NoMatches(haystack: seq<byte>, needle: seq<byte>)
    ensures DisjointMatches(haystack, needle, AsSet([])) && |AsSet([])| == 0
  {
  }

  lemma PrependMatch(haystack: seq<byte>, needle: seq<byte>, at: nat, rest: seq<nat>)
    requires MatchAt(haystack, needle, at) && needle != []
    requires DisjointMatches(haystack, needle, AsSet(rest)) && |AsSet(rest)| == |rest|
    requires forall i :: i in rest ==> i >= at + |needle|
    ensures var all := [at] + rest; DisjointMatches(haystack, needle, AsSet(all)) && |AsSet(all)| == |all|
  {
    assert AsSet([at] + rest) == {at} + AsSet(rest);
    hide MatchAt;
  }

  /** No set of disjoint matches is larger than what the left-to-right search finds. */
  lemma {:induction false} GreedyIsMaximum(haystack: seq<byte>, needle: seq<byte>, start: nat, others: set<nat>)
    requires needle != [] && start <= |haystack|
    requires DisjointMatches(haystack, needle, others) && forall i :: i in others ==> i >= start
    ensures |others| <= |Greedy(haystack, needle, start)|
    decreases |haystack| - start
  {
    hide FindFrom, MatchAt, Greedy, DisjointMatches;
    var found := FindFrom(haystack, needle, start);
    OthersStartLater(haystack, needle, start, others);
    if found.None? {
      assert others == {};
    } else {
      GreedyStep(haystack, needle, start);
      var next := found.value + |needle|;
      var later := set i | i in others && i >= next;
      AtMostOneBefore(haystack, needle, others, found.value, later);
      GreedyIsMaximum(haystack, needle, next, later);
    }
  }

  lemma OthersStartLater(haystack: seq<byte>, needle: seq<byte>, start: nat, others: set<nat>)
    requires start <= |haystack|
    requires DisjointMatches(haystack, needle, others) && forall i :: i in others ==> i >= start
    ensures var found := FindFrom(haystack, needle, start); forall i :: i in others ==> found.Some? && i >= found.value
  {
    forall i | i in others ensures MatchAt(haystack, needle, i) {
    }
  }

  /** Of disjoint matches that start no earlier than `first`, at most one starts before its end. */
  lemma AtMostOneBefore(haystack: seq<byte>, needle: seq<byte>, others: set<nat>, first: nat, later: set<nat>)
    requires DisjointMatches(haystack, needle, others) && forall i :: i in others ==> i >= first
    requires later == set i | i in others && i >= first + |needle|
    ensures DisjointMatches(haystack, needle, later) && |others| <= |later| + 1
  {
    if early :| early in others && early < first + |needle| {
      assert others == later + {early};
    } else {
      assert others == later;
    }
  }

  ghost predicate Occurs(token: seq<byte>, haystack: seq<byte>) {
    token != [] && exists i :: MatchAt(haystack, token, i)
  }

  lemma GreedyFindsIfAny(haystack: seq<byte>, needle: seq<byte>)
    requires needle != []
    ensures Greedy(haystack, needle, 0) != [] <==> Occurs(needle, haystack)
  {
  }

  // ---------- Matching one section ----------

  ghost function AllSpans(tokens: seq<seq<byte>>, haystack: seq<byte>): seq<Occurrence>
    requires forall i :: 0 <= i < |tokens| ==> tokens[i] != []
  {
    if tokens == [] then []
    else
      var n := |tokens| - 1;
      AllSpans(tokens[..n], haystack) + Spans(Greedy(haystack, tokens[n], 0), |tokens[n]|)
  }

  /** A section matches a query when it is non-empty and contains every token, none of which is empty. */
  ghost predicate SectionMatches(tokens: seq<seq<byte>>, haystack: seq<byte>) {
    haystack != [] && forall i :: 0 <= i < |tokens| ==> Occurs(tokens[i], haystack)
  }

  predicate StartsEarlier(a: Occurrence, b: Occurrence) {
    a.0 <= b.0
  }

  /** The search of one section: all occurrences of all tokens, by start; none if a token is missing. */
  method SearchSection(tokens: seq<seq<byte>>, haystack: seq<byte>) returns (r: Option<seq<Occurrence>>)
    requires tokens != []
    ensures r.Some? <==> SectionMatches(tokens, haystack)
    ensures r.Some? ==> r.value == StableSort(AllSpans(tokens, haystack), StartsEarlier) && r.value != []
  {
    if haystack == [] {
      return None;
    }
    var occurrences: seq<Occurrence> := [];
    if |tokens| == 1 {
      var needle := tokens[0];
      if needle == [] {
        assert !Occurs(tokens[0], haystack);
        return None;
      }
      GreedyFindsIfAny(haystack, needle);
      occurrences := FindAll(haystack, needle);
      assert tokens[..0] == [] && AllSpans(tokens, haystack) == occurrences;
    } else {
      var all := SearchTokens(tokens, haystack);
      if all.None? {
        return None;
      }
      occurrences := all.value;
    }
    if occurrences == [] {
      assert !Occurs(tokens[0], haystack);
      return None;
    }
    return Some(StableSort(occurrences, StartsEarlier));
  }

  /** The branch for queries of several tokens: all of them must occur. */
  method SearchTokens(tokens: seq<seq<byte>>, haystack: seq<byte>) returns (r: Option<seq<Occurrence>>)
    requires tokens != []
    ensures r.Some? <==> forall i :: 0 <= i < |tokens| ==> Occurs(tokens[i], haystack)
    ensures r.Some? ==> r.value == AllSpans(tokens, haystack) && r.value != []
  {
    hide Greedy, MatchAt, FindFrom, Spans;
    var occurrences: seq<Occurrence> := [];
    for k := 0 to |tokens|
      invariant forall i :: 0 <= i < k ==> Occurs(tokens[i], haystack)
      invariant occurrences == AllSpans(tokens[..k], haystack)
      invariant k > 0 ==> occurrences != []
    {
      var needle := tokens[k];
      if needle == [] {
        assert !Occurs(tokens[k], haystack);
        return None;
      }
      GreedyFindsIfAny(haystack, needle);
      var found := FindAll(haystack, needle);
      if found == [] {
        assert !Occurs(tokens[k], haystack);
        return None;
      }
      assert tokens[..k + 1][..k] == tokens[..k];
      occurrences := occurrences + found;
    }
    assert tokens[..|tokens|] == tokens;
    return Some(occurrences);
  }

  // ---------- The tokens as a phrase ----------

  function Join(tokens: seq<seq<byte>>): seq<byte> {
    if tokens == [] then []
    else if |tokens| == 1 then tokens[0]
    else tokens[0] + [32] + Join(tokens[1..])
  }

  /** The tokens stand in the text from position i on, one after the other with single blanks between them. */
  ghost predicate PhraseAt(tokens: seq<seq<byte>>, haystack: seq<byte>, i: nat)
    decreases |tokens|
  {
    if tokens == [] then i <= |haystack|
    else
      && MatchAt(haystack, tokens[0], i)
      && (|tokens| > 1 ==>
            var next := i + |tokens[0]|; next < |haystack| && haystack[next] == 32 && PhraseAt(tokens[1..], haystack, next + 1))
  }

  lemma MatchOfTwo(haystack: seq<byte>, a: seq<byte>, b: seq<byte>, i: nat)
    ensures MatchAt(haystack, a + b, i) <==> MatchAt(haystack, a, i) && MatchAt(haystack, b, i + |a|)
  {
    if i + |a| + |b| <= |haystack| {
      var part := haystack[i..i + |a| + |b|];
      assert part == haystack[i..i + |a|] + haystack[i + |a|..i + |a| + |b|];
      assert part[..|a|] == haystack[i..i + |a|] && part[|a|..] == haystack[i + |a|..i + |a| + |b|];
      assert (a + b)[..|a|] == a && (a + b)[|a|..] == b;
    }
  }

  lemma NothingMatches(haystack: seq<byte>, i: nat)
    ensures MatchAt(haystack, [], i) <==> i <= |haystack|
  {
  }

  lemma BlankMatches(haystack: seq<byte>, i: nat)
    ensures MatchAt(haystack, [32], i) <==> i < |haystack| && haystack[i] == 32
  {
  }

  lemma {:induction false} JoinMatches(tokens: seq<seq<byte>>, haystack: seq<byte>, i: nat)
    ensures MatchAt(haystack, Join(tokens), i) <==> PhraseAt(tokens, haystack, i)
    decreases |tokens|
  {
    hide MatchAt;
    if tokens == [] {
      NothingMatches(haystack, i);
    } else if |tokens| > 1 {
      BlankMatches(haystack, i + |tokens[0]|);
      var rest := Join(tokens[1..]);
      assert tokens[0] + [32] + rest == tokens[0] + ([32] + rest);
      MatchOfTwo(haystack, tokens[0], [32] + rest, i);
      MatchOfTwo(haystack, [32], rest, i + |tokens[0]|);
      JoinMatches(tokens[1..], haystack, i + |tokens[0]| + 1);
    }
  }

  /** The tokens are not all empty together, and they occur as a phrase. */
  ghost predicate HasPhrase(tokens: seq<seq<byte>>, haystack: seq<byte>) {
    exists i: nat :: PhraseAt(tokens, haystack, i)
  }

  lemma PhraseOccurs(tokens: seq<seq<byte>>, haystack: seq<byte>)
    requires tokens != [] && forall k :: 0 <= k < |tokens| ==> tokens[k] != []
    ensures Join(tokens) != [] && (Occurs(Join(tokens), haystack) <==> HasPhrase(tokens, haystack))
  {
    forall i: nat ensures MatchAt(haystack, Join(tokens), i) <==> PhraseAt(tokens, haystack, i) {
      JoinMatches(tokens, haystack, i);
    }
    hide PhraseAt, MatchAt;
    assert |tokens| > 1 ==> |Join(tokens)| >= |tokens[0]|;
    if Occurs(Join(tokens), haystack) {
      var i :| MatchAt(haystack, Join(tokens), i);
      assert PhraseAt(tokens, haystack, i);
    }
  }

  // ---------- What the occurrences of a match are ----------

  /** n is the largest number of disjoint matches of the needle. */
  ghost predicate MostDisjoint(n: nat, haystack: seq<byte>, needle: seq<byte>) {
    && (exists starts: set<nat> :: |starts| == n && DisjointMatches(haystack, needle, starts))
    && (forall starts: set<nat> :: DisjointMatches(haystack, needle, starts) ==> |starts| <= n)
  }

  ghost function Sum(counts: seq<nat>): nat {
    if counts == [] then 0 else Sum(counts[..|counts| - 1]) + counts[|counts| - 1]
  }

  /** The occurrences of a match: true occurrences of the tokens, in order of their starts, for each token as many
      as can be had without overlaps. */
  ghost predicate AreOccurrences(tokens: seq<seq<byte>>, haystack: seq<byte>, occurrences: seq<Occurrence>) {
    && (forall o :: o in occurrences ==>
          exists k :: 0 <= k < |tokens| && MatchAt(haystack, tokens[k], o.0) && o.1 == o.0 + |tokens[k]|)
    && (forall i, j :: 0 <= i < j < |occurrences| ==> occurrences[i].0 <= occurrences[j].0)
    && IsTotal(tokens, haystack, |occurrences|)
  }

  ghost predicate IsTotal(tokens: seq<seq<byte>>, haystack: seq<byte>, n: nat) {
    exists counts: seq<nat> ::
      && |counts| == |tokens| && Sum(counts) == n
      && forall k :: 0 <= k < |tokens| ==> MostDisjoint(counts[k], haystack, tokens[k])
  }

  lemma GreedyIsMost(haystack: seq<byte>, needle: seq<byte>)
    requires needle != []
    ensures MostDisjoint(|Greedy(haystack, needle, 0)|, haystack, needle)
  {
    hide Greedy, DisjointMatches;
    GreedyIsDisjoint(haystack, needle, 0);
    forall starts: set<nat> | DisjointMatches(haystack, needle, starts)
      ensures |starts| <= |Greedy(haystack, needle, 0)|
    {
      GreedyIsMaximum(haystack, needle, 0, starts);
    }
  }

  lemma {:induction false} SpansAreTotal(tokens: seq<seq<byte>>, haystack: seq<byte>) returns (counts: seq<nat>)
    requires forall i :: 0 <= i < |tokens| ==> tokens[i] != []
    ensures |counts| == |tokens| && Sum(counts) == |AllSpans(tokens, haystack)|
    ensures forall k :: 0 <= k < |tokens| ==> MostDisjoint(counts[k], haystack, tokens[k])
  {
    hide MostDisjoint, Greedy;
    if tokens == [] {
      counts := [];
    } else {
      var n := |tokens| - 1;
      var before := SpansAreTotal(tokens[..n], haystack);
      counts := before + [|Greedy(haystack, tokens[n], 0)|];
      assert counts[..n] == before;
      GreedyIsMost(haystack, tokens[n]);
      forall k | 0 <= k < |tokens| ensures MostDisjoint(counts[k], haystack, tokens[k]) {
        assert k < n ==> tokens[..n][k] == tokens[k];
      }
    }
  }

  lemma {:induction false} SpansAreMatches(tokens: seq<seq<byte>>, haystack: seq<byte>, o: Occurrence) returns (k: nat)
    requires forall i :: 0 <= i < |tokens| ==> tokens[i] != []
    requires o in AllSpans(tokens, haystack)
    ensures k < |tokens| && MatchAt(haystack, tokens[k], o.0) && o.1 == o.0 + |tokens[k]|
  {
    hide MatchAt, Greedy;
    var n := |tokens| - 1;
    if o in AllSpans(tokens[..n], haystack) {
      k := SpansAreMatches(tokens[..n], haystack, o);
    } else {
      k := n;
      var starts := Greedy(haystack, tokens[n], 0);
      var spans := Spans(starts, |tokens[n]|);
      var j :| 0 <= j < |spans| && spans[j] == o;
      GreedyIsDisjoint(haystack, tokens[n], 0);
      assert starts[j] in AsSet(starts);
    }
  }

  lemma SortedSpansAre(tokens: seq<seq<byte>>, haystack: seq<byte>)
    requires forall i :: 0 <= i < |tokens| ==> tokens[i] != []
    ensures AreOccurrences(tokens, haystack, StableSort(AllSpans(tokens, haystack), StartsEarlier))
  {
    hide MatchAt, AllSpans, StableSort, MostDisjoint;
    var spans := AllSpans(tokens, haystack);
    var occurrences := StableSort(spans, StartsEarlier);
    assert IsOrder(StartsEarlier);
    SortSorts(spans, StartsEarlier);
    SameMembers(spans, StartsEarlier);
    var counts := SpansAreTotal(tokens, haystack);
    assert IsTotal(tokens, haystack, |occurrences|);
    forall o | o in occurrences
      ensures exists k :: 0 <= k < |tokens| && MatchAt(haystack, tokens[k], o.0) && o.1 == o.0 + |tokens[k]|
    {
      var i :| 0 <= i < |occurrences| && occurrences[i] == o;
      assert occurrences[i] in spans;
      var k := SpansAreMatches(tokens, haystack, o);
    }
    forall i, j | 0 <= i < j < |occurrences| ensures occurrences[i].0 <= occurrences[j].0 {
      assert StartsEarlier(occurrences[i], occurrences[j]);
    }
  }
}
