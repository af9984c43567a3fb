/** The stable library sort that the rankings rely on, as a function with its characteristic laws. */
module Sorting {
  import opened Basics

  /** `before(x, y)` is a total preorder: x may stand before y. */
  ghost predicate IsOrder<T(!new)>(before: (T, T) -> bool) {
    && (forall x, y :: before(x, y) || before(y, x))
    && (forall x, y, z :: before(x, y) && before(y, z) ==> before(x, z))
  }

  ghost predicate Sorted<T>(s: seq<T>, before: (T, T) -> bool) {
    forall i, j :: 0 <= i <= j < |s| ==> i == j || before(s[i], s[j])
  }

  /** Inserts x in front of the first element it may stand before. */
  function Insert<T>(x: T, s: seq<T>, before: (T, T) -> bool): (r: seq<T>)
    ensures |r| == |s| + 1
  {
    if s == [] || before(x, s[0]) then [x] + s else [s[0]] + Insert(x, s[1..], before)
  }

  function StableSort<T>(s: seq<T>, before: (T, T) -> bool): (r: seq<T>)
    ensures |r| == |s|
  {
    if s == [] then [] else Insert(s[0], StableSort(s[1..], before), before)
  }

  lemma {:induction false} InsertKeepsElements<T>(x: T, s: seq<T>, before: (T, T) -> bool)
    ensures multiset(Insert(x, s, before)) == multiset(s) + multiset{x}
  {
    if s == [] || before(x, s[0]) {
    } else {
      InsertKeepsElements(x, s[1..], before);
      assert s == [s[0]] + s[1..];
    }
  }

  lemma {:induction false} SortKeepsElements<T>(s: seq<T>, before: (T, T) -> bool)
    ensures multiset(StableSort(s, before)) == multiset(s)
  {
    if s != [] {
      SortKeepsElements(s[1..], before);
      InsertKeepsElements(s[0], StableSort(s[1..], before), before);
      assert s == [s[0]] + s[1..];
    }
  }

  lemma SameMembers<T>(s: seq<T>, before: (T, T) -> bool)
    ensures forall x :: x in s <==> x in StableSort(s, before)
  {
    SortKeepsElements(s, before);
    assert forall x :: x in s <==> x in multiset(s);
    assert forall x :: x in StableSort(s, before) <==> x in multiset(StableSort(s, before));
  }

  lemma {:induction false} InsertSorts<T(!new)>(x: T, s: seq<T>, before: (T, T) -> bool)
    requires IsOrder(before) && Sorted(s, before)
    ensures Sorted(Insert(x, s, before), before)
  {
    if s == [] {
    } else if before(x, s[0]) {
      forall j | 0 <= j < |s| ensures before(x, s[j]) {
        assert j == 0 || before(s[0], s[j]);
      }
    } else {
      var rest := s[1..];
      InsertSorts(x, rest, before);
      InsertKeepsElements(x, rest, before);
      var r := Insert(x, rest, before);
      forall y | y in r ensures before(s[0], y) {
        assert y in multiset(r);
        if y != x {
          assert y in multiset(rest);
          var j :| 0 <= j < |rest| && rest[j] == y;
          assert rest[j] == s[j + 1];
        }
      }
    }
  }

  lemma {:induction false} SortSorts<T(!new)>(s: seq<T>, before: (T, T) -> bool)
    requires IsOrder(before)
    ensures Sorted(StableSort(s, before), before)
  {
    if s != [] {
      SortSorts(s[1..], before);
      InsertSorts(s[0], StableSort(s[1..], before), before);
    }
  }

  // ---------- Stability ----------

  predicate Tied<T>(x: T, y: T, before: (T, T) -> bool) {
    before(x, y) && before(y, x)
  }

  /** The elements of s that tie with z, in order. */
  function TiedWith<T>(s: seq<T>, z: T, before: (T, T) -> bool): (r: seq<T>) {
    if s == [] then []
    else (if Tied(s[0], z, before) then [s[0]] else []) + TiedWith(s[1..], z, before)
  }

  lemma {:induction false} InsertIsStable<T(!new)>(x: T, s: seq<T>, z: T, before: (T, T) -> bool)
    requires IsOrder(before)
    ensures TiedWith(Insert(x, s, before), z, before) == TiedWith([x] + s, z, before)
  {
    assert ([x] + s)[1..] == s;
    if s != [] && !before(x, s[0]) {
      var rest := s[1..];
      InsertIsStable(x, rest, z, before);
      assert ([x] + rest)[1..] == rest;
      var r := Insert(x, rest, before);
      assert ([s[0]] + r)[1..] == r;
      // x and s[0] differ in rank, so at most one of them ties with z
      assert !(Tied(x, z, before) && Tied(s[0], z, before));
    }
  }

  /** Elements of equal rank keep their order. */
  lemma {:induction false} SortIsStable<T(!new)>(s: seq<T>, z: T, before: (T, T) -> bool)
    requires IsOrder(before)
    ensures TiedWith(StableSort(s, before), z, before) == TiedWith(s, z, before)
  {
    if s != [] {
      var rest := StableSort(s[1..], before);
      SortIsStable(s[1..], z, before);
      InsertIsStable(s[0], rest, z, before);
      assert ([s[0]] + rest)[1..] == rest;
    }
  }

  /** A stable, sorted arrangement is THE stable sort: order and ties determine it. */
  lemma {:induction false} StableSortIsUnique<T(!new)>(a: seq<T>, b: seq<T>, before: (T, T) -> bool)
    requires IsOrder(before) && Sorted(a, before) && Sorted(b, before)
    requires forall z :: TiedWith(a, z, before) == TiedWith(b, z, before)
    ensures a == b
  {
    if b != [] {
      assert TiedWith(b, b[0], before) == [b[0]] + TiedWith(b[1..], b[0], before);
    }
    if a != [] {
      assert TiedWith(a, a[0], before) == [a[0]] + TiedWith(a[1..], a[0], before);
      if b != [] {
        HeadIsFirst(a, b[0], before);
        HeadIsFirst(b, a[0], before);
        assert Tied(b[0], a[0], before);
        assert TiedWith(b, a[0], before) == [b[0]] + TiedWith(b[1..], a[0], before);
        assert TiedWith(a, a[0], before)[0] == a[0] && TiedWith(b, a[0], before)[0] == b[0];
        forall z ensures TiedWith(a[1..], z, before) == TiedWith(b[1..], z, before) {
          var head := if Tied(a[0], z, before) then [a[0]] else [];
          assert TiedWith(a, z, before)[|head|..] == TiedWith(a[1..], z, before);
          assert TiedWith(b, z, before)[|head|..] == TiedWith(b[1..], z, before);
        }
        StableSortIsUnique(a[1..], b[1..], before);
        assert a == [a[0]] + a[1..] && b == [b[0]] + b[1..];
      }
    }
  }

  lemma {:induction false} HeadIsFirst<T(!new)>(s: seq<T>, z: T, before: (T, T) -> bool)
    requires IsOrder(before) && Sorted(s, before) && s != []
    requires TiedWith(s, z, before) != []
    ensures before(s[0], z)
  {
    if Tied(s[0], z, before) {
    } else {
      assert TiedWith(s[1..], z, before) != [];
      HeadIsFirst(s[1..], z, before);
      assert before(s[0], s[1]);
    }
  }

  // ---------- The order in positions ----------

  /** r lists elements of s by their positions: none twice, each at most once before another only if it may stand
      there, and those that tie in the order of s. */
  ghost predicate Arranges<T>(at: seq<nat>, s: seq<T>, r: seq<T>, before: (T, T) -> bool) {
    && |at| == |r|
    && (forall k :: 0 <= k < |at| ==> at[k] < |s| && r[k] == s[at[k]])
    && (forall i, k :: 0 <= i < k < |at| ==> Leads(s, at[i], at[k], before))
  }

  /** Element i stands strictly before element j: it ranks higher, or as high and comes earlier. */
  ghost predicate Leads<T>(s: seq<T>, i: nat, j: nat, before: (T, T) -> bool)
    requires i < |s| && j < |s|
  {
    before(s[i], s[j]) && (before(s[j], s[i]) ==> i < j)
  }

  /** Every position is listed. */
  ghost predicate ListsAll(at: seq<nat>, n: nat) {
    forall i: nat :: i < n ==> i in at
  }

  /** The positions when an element has been put in front of the list and inserted at place p of its order. */
  function Shifted(at: seq<nat>, p: nat): (all: seq<nat>)
    requires p <= |at|
    ensures |all| == |at| + 1
  {
    seq(|at| + 1, k requires 0 <= k < |at| + 1 => if k < p then at[k] + 1 else if k == p then 0 else at[k - 1] + 1)
  }

  lemma ShiftedListsAll(at: seq<nat>, p: nat, n: nat)
    requires p <= |at| && ListsAll(at, n)
    ensures ListsAll(Shifted(at, p), n + 1)
  {
    var all := Shifted(at, p);
    forall i: nat | i < n + 1 ensures i in all {
      if i == 0 {
        assert all[p] == 0;
      } else {
        assert i - 1 in at;
        var k :| 0 <= k < |at| && at[k] == i - 1;
        assert all[if k < p then k else k + 1] == i;
      }
    }
  }

  lemma LeadsShifts<T>(x: T, s: seq<T>, i: nat, j: nat, before: (T, T) -> bool)
    requires i < |s| && j < |s|
    ensures Leads([x] + s, i + 1, j + 1, before) == Leads(s, i, j, before)
    ensures Leads([x] + s, 0, j + 1, before) <==> before(x, s[j])
    ensures Leads([x] + s, i + 1, 0, before) <==> before(s[i], x) && !before(x, s[i])
  {
  }

  lemma InsertArranges<T(!new)>(x: T, s: seq<T>, at: seq<nat>, r: seq<T>, before: (T, T) -> bool) returns (all: seq<nat>)
    requires IsOrder(before) && Arranges(at, s, r, before) && ListsAll(at, |s|)
    ensures Arranges(all, [x] + s, Insert(x, r, before), before) && ListsAll(all, |s| + 1)
  {
    hide Insert, ListsAll, Leads;
    var p := PlaceOf(x, s, at, r, before);
    all := Shifted(at, p);
    ShiftedListsAll(at, p, |s|);
    var whole, sorted := [x] + s, r[..p] + [x] + r[p..];
    forall k | 0 <= k < |all| ensures all[k] < |whole| && sorted[k] == whole[all[k]] {
    }
    forall i, k | 0 <= i < k < |all| ensures Leads(whole, all[i], all[k], before) {
      var a := if i < p then i else i - 1;
      var b := if k < p then k else k - 1;
      if i == p {
        LeadsShifts(x, s, at[b], at[b], before);
      } else if k == p {
        LeadsShifts(x, s, at[a], at[a], before);
      } else {
        LeadsShifts(x, s, at[a], at[b], before);
      }
    }
  }

  lemma PlaceOf<T(!new)>(x: T, s: seq<T>, at: seq<nat>, r: seq<T>, before: (T, T) -> bool) returns (p: nat)
    requires IsOrder(before) && Arranges(at, s, r, before)
    ensures p <= |r| && Insert(x, r, before) == r[..p] + [x] + r[p..]
    ensures forall k :: 0 <= k < p ==> before(s[at[k]], x) && !before(x, s[at[k]])
    ensures forall k :: p <= k < |r| ==> before(x, s[at[k]])
  {
    hide Insert;
    forall i, k | 0 <= i < k < |r| ensures before(r[i], r[k]) {
      assert Leads(s, at[i], at[k], before);
    }
    p := InsertPosition(x, r, before);
    forall k | 0 <= k < |r| ensures r[k] == s[at[k]] {
    }
  }

  /** Where an element is inserted: behind everything it may not stand before. */
  lemma {:induction false} InsertPosition<T(!new)>(x: T, r: seq<T>, before: (T, T) -> bool) returns (p: nat)
    requires IsOrder(before) && forall i, k :: 0 <= i < k < |r| ==> before(r[i], r[k])
    ensures p <= |r| && Insert(x, r, before) == r[..p] + [x] + r[p..]
    ensures (forall k :: 0 <= k < p ==> !before(x, r[k])) && (forall k :: p <= k < |r| ==> before(x, r[k]))
  {
    if r == [] || before(x, r[0]) {
      p := 0;
    } else {
      var q := InsertPosition(x, r[1..], before);
      p := q + 1;
      assert r[..p] == [r[0]] + r[1..][..q] && r[p..] == r[1..][q..];
      assert forall k :: 1 <= k < |r| ==> r[k] == r[1..][k - 1];
    }
  }

  /** The stable sort lists every element once: by rank, and ties by position. */
  lemma {:induction false} StableSortArranges<T(!new)>(s: seq<T>, before: (T, T) -> bool) returns (at: seq<nat>)
    requires IsOrder(before)
    ensures Arranges(at, s, StableSort(s, before), before) && ListsAll(at, |s|)
  {
    if s == [] {
      at := [];
    } else {
      var rest := StableSortArranges(s[1..], before);
      at := InsertArranges(s[0], s[1..], rest, StableSort(s[1..], before), before);
      assert [s[0]] + s[1..] == s;
    }
  }

  /** What a ranking cut to a limit lists, and what it leaves out: min(limit, n) elements, and every other one
      stands behind all of them. */
  lemma TruncatedArranges<T(!new)>(s: seq<T>, before: (T, T) -> bool, limit: nat) returns (at: seq<nat>)
    requires IsOrder(before)
    ensures Arranges(at, s, Truncate(StableSort(s, before), limit), before) && |at| == Min(limit, |s|)
    ensures forall i, k :: 0 <= k < |at| && 0 <= i < |s| && i !in at ==> Leads(s, at[k], i, before)
    ensures limit >= |s| ==> ListsAll(at, |s|)
  {
    var all := StableSortArranges(s, before);
    var n := Min(limit, |s|);
    at := all[..n];
    assert forall k :: 0 <= k < n ==> at[k] == all[k] && all[k] in at;
    assert limit >= |s| ==> at == all;
    forall i, k | 0 <= k < n && 0 <= i < |s| && i !in at ensures Leads(s, at[k], i, before) {
      assert i in all;
      var j :| 0 <= j < |all| && all[j] == i;
      assert Leads(s, all[k], all[j], before);
    }
  }

  // ---------- Leaving elements out ----------

  /** `Vec::retain`: the elements for which `keep` holds, in order. */
  function Filter<T(!new)>(s: seq<T>, keep: T -> bool): (r: seq<T>)
    ensures forall x :: x in r <==> x in s && keep(x)
    ensures |r| <= |s|
  {
    if s == [] then []
    else if keep(s[0]) then [s[0]] + Filter(s[1..], keep)
    else Filter(s[1..], keep)
  }

  /** The first sequence can be had from the second by leaving elements out. */
  ghost predicate IsSubsequence<T>(a: seq<T>, b: seq<T>) {
    a == [] || (b != [] && if a[0] == b[0] then IsSubsequence(a[1..], b[1..]) else IsSubsequence(a, b[1..]))
  }

  lemma FilterCons<T(!new)>(x: T, s: seq<T>, keep: T -> bool)
    ensures Filter([x] + s, keep) == if keep(x) then [x] + Filter(s, keep) else Filter(s, keep)
  {
    assert ([x] + s)[1..] == s;
  }

  lemma {:induction false} FilterSnoc<T(!new)>(s: seq<T>, x: T, keep: T -> bool)
    ensures Filter(s + [x], keep) == if keep(x) then Filter(s, keep) + [x] else Filter(s, keep)
  {
    hide Filter;
    if s == [] {
      NothingFiltered(keep);
      FilterCons(x, [], keep);
      assert [] + [x] == [x] + [];
    } else {
      FilterSnoc(s[1..], x, keep);
      FilterCons(s[0], s[1..], keep);
      FilterCons(s[0], s[1..] + [x], keep);
      assert s == [s[0]] + s[1..] && s + [x] == [s[0]] + (s[1..] + [x]);
    }
  }

  lemma SubsequenceCons<T>(x: T, a: seq<T>, b: seq<T>)
    ensures IsSubsequence(a, b) ==> IsSubsequence([x] + a, [x] + b)
    ensures IsSubsequence(a, b) && (a != [] ==> a[0] != x) ==> IsSubsequence(a, [x] + b)
  {
    assert ([x] + a)[1..] == a && ([x] + b)[1..] == b;
  }

  /** What is kept is kept with every copy and in order. */
  lemma {:induction false} FilterKeeps<T(!new)>(s: seq<T>, keep: T -> bool)
    ensures IsSubsequence(Filter(s, keep), s)
    ensures forall x :: multiset(Filter(s, keep))[x] == if keep(x) then multiset(s)[x] else 0
  {
    if s != [] {
      hide Filter, IsSubsequence;
      FilterKeeps(s[1..], keep);
      FilterCons(s[0], s[1..], keep);
      SubsequenceCons(s[0], Filter(s[1..], keep), s[1..]);
      assert s == [s[0]] + s[1..];
    }
  }

  /** Nothing is left out only if everything passes. */
  lemma {:induction false} NothingLeftOut<T(!new)>(s: seq<T>, keep: T -> bool)
    ensures |Filter(s, keep)| == |s| ==> Filter(s, keep) == s
    ensures (forall x :: x in s ==> keep(x)) ==> Filter(s, keep) == s
  {
    if s != [] {
      hide Filter;
      NothingLeftOut(s[1..], keep);
      FilterCons(s[0], s[1..], keep);
      assert s == [s[0]] + s[1..];
    }
  }

  lemma InsertCons<T>(x: T, y: T, s: seq<T>, before: (T, T) -> bool)
    ensures Insert(x, [y] + s, before) == if before(x, y) then [x] + ([y] + s) else [y] + Insert(x, s, before)
  {
    assert ([y] + s)[1..] == s;
  }

  lemma InsertFirst<T>(x: T, s: seq<T>, before: (T, T) -> bool)
    requires s == [] || before(x, s[0])
    ensures Insert(x, s, before) == [x] + s
  {
  }

  lemma {:induction false} InsertFilter<T(!new)>(x: T, s: seq<T>, keep: T -> bool, before: (T, T) -> bool)
    requires IsOrder(before) && Sorted(s, before)
    ensures Filter(Insert(x, s, before), keep)
         == if keep(x) then Insert(x, Filter(s, keep), before) else Filter(s, keep)
  {
    hide Filter, Insert, IsOrder;
    if s == [] || before(x, s[0]) {
      InsertFirst(x, s, before);
      FilterCons(x, s, keep);
      FirstStaysFirst(x, s, keep, before);
      InsertFirst(x, Filter(s, keep), before);
    } else {
      var y, rest := s[0], s[1..];
      assert s == [y] + rest;
      InsertFilter(x, rest, keep, before);
      InsertCons(x, y, rest, before);
      FilterCons(y, rest, keep);
      FilterCons(y, Insert(x, rest, before), keep);
      InsertCons(x, y, Filter(rest, keep), before);
    }
  }

  lemma FirstStaysFirst<T(!new)>(x: T, s: seq<T>, keep: T -> bool, before: (T, T) -> bool)
    requires IsOrder(before) && Sorted(s, before) && (s == [] || before(x, s[0]))
    ensures Filter(s, keep) == [] || before(x, Filter(s, keep)[0])
  {
    if Filter(s, keep) != [] {
      var z := Filter(s, keep)[0];
      assert z in s;
      var j :| 0 <= j < |s| && s[j] == z;
      assert j == 0 || before(s[0], s[j]);
    }
  }

  /** Leaving elements out commutes with sorting. */
  lemma {:induction false} SortFilter<T(!new)>(s: seq<T>, keep: T -> bool, before: (T, T) -> bool)
    requires IsOrder(before)
    ensures Filter(StableSort(s, before), keep) == StableSort(Filter(s, keep), before)
  {
    hide Filter, Insert, IsOrder;
    if s == [] {
      NothingFiltered(keep);
    } else {
      var rest := s[1..];
      assert s == [s[0]] + rest;
      SortFilter(rest, keep, before);
      SortSorts(rest, before);
      InsertFilter(s[0], StableSort(rest, before), keep, before);
      FilterCons(s[0], rest, keep);
      assert ([s[0]] + Filter(rest, keep))[1..] == Filter(rest, keep);
    }
  }

  lemma NothingFiltered<T(!new)>(keep: T -> bool)
    ensures Filter<T>([], keep) == []
  {
  }

  // ---------- Cutting a ranking off ----------

  /** The first `limit` elements, or all if there are fewer. */
  function Truncate<T>(s: seq<T>, limit: nat): (r: seq<T>)
    ensures |r| == Min(limit, |s|)
  {
    s[..Min(limit, |s|)]
  }
}
