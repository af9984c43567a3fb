/** Snippets: the windows around the occurrences of a query, joined (memvid/src/lex.rs). */
module Snippets {
  import opened Basics
  import opened Utf8
  import opened Windows

  /** Windows closer than this many bytes are merged. */
  const MERGE_GAP: nat := 20

  // ---------- How windows are joined ----------

  /** Takes one window into the slices: an empty one is dropped, one that begins within MERGE_GAP of the
      last slice extends it, any other becomes a slice of its own. */
  function Absorb(slices: seq<Slice>, w: Slice): seq<Slice> {
    if w.1 <= w.0 then slices
    else
      var n := |slices| - 1;
      if n >= 0 && w.0 <= slices[n].1 + MERGE_GAP then slices[..n] + [(slices[n].0, Max(slices[n].1, w.1))]
      else slices + [w]
  }

  /** The slices made by the first n occurrences, were there no cap. */
  ghost function Absorbed(text: seq<byte>, occurrences: seq<Slice>, window: nat, n: nat): seq<Slice>
    requires n <= |occurrences|
  {
    if n == 0 then [] else Absorb(Absorbed(text, occurrences, window, n - 1), WindowOf(text, occurrences[n - 1], window))
  }

  /** How many occurrences are handled: up to and including the first whose slice reaches the cap. */
  ghost function Handled(text: seq<byte>, occurrences: seq<Slice>, window: nat, cap: nat, n: nat): (r: nat)
    requires n <= |occurrences|
    ensures n <= r <= |occurrences|
    decreases |occurrences| - n
  {
    if n == |occurrences| then n
    else
      var before, after := Absorbed(text, occurrences, window, n), Absorbed(text, occurrences, window, n + 1);
      if |after| > |before| && |after| >= cap then n + 1 else Handled(text, occurrences, window, cap, n + 1)
  }

  ghost function Slices(text: seq<byte>, occurrences: seq<Slice>, window: nat, cap: nat): seq<Slice>
    requires IsText(text)
  {
    if text == [] then []
    else
      var merged := Absorbed(text, occurrences, window, Handled(text, occurrences, window, cap, 0));
      if merged == [] then [(0, Advance(text, 0, window))] else merged
  }

  // ---------- Geometry of the slices ----------

  /** Non-empty ranges between character boundaries, in order, more than 20 bytes apart. */
  ghost predicate WellPlaced(text: seq<byte>, slices: seq<Slice>) {
    && (forall s :: s in slices ==> s.0 < s.1 <= |text| && IsBoundary(text, s.0) && IsBoundary(text, s.1))
    && (forall i, j :: 0 <= i < j < |slices| ==> slices[i].1 + 20 < slices[j].0)
  }

  lemma AbsorbKeepsPlaces(text: seq<byte>, slices: seq<Slice>, w: Slice)
    requires WellPlaced(text, slices)
    requires w.1 <= |text| && IsBoundary(text, w.0) && IsBoundary(text, w.1)
    ensures WellPlaced(text, Absorb(slices, w)) && |slices| <= |Absorb(slices, w)| <= |slices| + 1
  {
    var r, n := Absorb(slices, w), |slices| - 1;
    assert n >= 0 ==> slices[n] in slices;
    forall s | s in r ensures s.0 < s.1 <= |text| && IsBoundary(text, s.0) && IsBoundary(text, s.1) {
      assert s in slices || s == r[|r| - 1];
    }
    forall i, j | 0 <= i < j < |r| ensures r[i].1 + MERGE_GAP < r[j].0 {
      if j < |slices| {
        assert slices[i].1 + MERGE_GAP < slices[j].0;
      } else if i < n {
        assert slices[i].1 + MERGE_GAP < slices[n].0 < slices[n].1;
      }
    }
  }

  lemma {:induction false} AbsorbedIsWellPlaced(text: seq<byte>, occurrences: seq<Slice>, window: nat, n: nat)
    requires n <= |occurrences|
    ensures WellPlaced(text, Absorbed(text, occurrences, window, n))
  {
    hide Absorb, IsBoundary, WindowOf;
    if n > 0 {
      WindowInText(text, occurrences[n - 1], window);
      AbsorbedIsWellPlaced(text, occurrences, window, n - 1);
      AbsorbKeepsPlaces(text, Absorbed(text, occurrences, window, n - 1), WindowOf(text, occurrences[n - 1], window));
    }
  }

  lemma {:induction false} HandledIsCapped(text: seq<byte>, occurrences: seq<Slice>, window: nat, cap: nat, n: nat)
    requires n <= |occurrences|
    requires var k := |Absorbed(text, occurrences, window, n)|; k < Max(cap, 1)
    ensures |Absorbed(text, occurrences, window, Handled(text, occurrences, window, cap, n))| <= Max(cap, 1)
    decreases |occurrences| - n
  {
    hide WellPlaced, Absorb, WindowOf, IsBoundary;
    if n < |occurrences| {
      WindowInText(text, occurrences[n], window);
      AbsorbedIsWellPlaced(text, occurrences, window, n);
      var before, after := Absorbed(text, occurrences, window, n), Absorbed(text, occurrences, window, n + 1);
      AbsorbKeepsPlaces(text, before, WindowOf(text, occurrences[n], window));
      if !(|after| > |before| && |after| >= cap) {
        HandledIsCapped(text, occurrences, window, cap, n + 1);
      }
    }
  }

  lemma NothingAbsorbed(text: seq<byte>, occurrences: seq<Slice>, window: nat)
    ensures Absorbed(text, occurrences, window, 0) == []
  {
  }

  /** Whatever the occurrences, there are between one and max(1, cap) slices. They are not empty, lie in the text
      on character boundaries, in order and more than 20 bytes apart - EXACTLY when the window is not 0 or some
      occurrence was taken in; otherwise the one slice is empty. */
  lemma SlicesGeometry(text: seq<byte>, occurrences: seq<Slice>, window: nat, cap: nat)
    requires IsText(text) && text != []
    ensures var ss := Slices(text, occurrences, window, cap);
      && 1 <= |ss| <= Max(cap, 1)
      && (WellPlaced(text, ss) <==>
            window > 0 || Absorbed(text, occurrences, window, Handled(text, occurrences, window, cap, 0)) != [])
      && (WellPlaced(text, ss) || ss == [(0, 0)])
  {
    hide IsText, Absorbed, Handled;
    NothingAbsorbed(text, occurrences, window);
    AbsorbedIsWellPlaced(text, occurrences, window, Handled(text, occurrences, window, cap, 0));
    HandledIsCapped(text, occurrences, window, cap, 0);
  }

  // ---------- Every handled occurrence is shown ----------

  lemma {:induction false} TokenIsAbsorbed(text: seq<byte>, occurrences: seq<Slice>, window: nat, n: nat)
    requires 0 < n <= |occurrences| && IsTokenAt(text, occurrences[0])
    ensures Absorbed(text, occurrences, window, n) != []
  {
    hide WindowOf, IsTokenAt;
    var before, w := Absorbed(text, occurrences, window, n - 1), WindowOf(text, occurrences[n - 1], window);
    if n > 1 {
      TokenIsAbsorbed(text, occurrences, window, n - 1);
    } else {
      TokenIsNotEmpty(text, occurrences[0]);
      WindowContains(text, occurrences[0], window);
      assert before == [];
    }
  }

  /** For token occurrences, the slices are well placed EXACTLY when the window is not 0 or something occurred. */
  lemma TokenSlicesGeometry(text: seq<byte>, occurrences: seq<Slice>, window: nat, cap: nat)
    requires IsText(text) && text != [] && forall k :: 0 <= k < |occurrences| ==> IsTokenAt(text, occurrences[k])
    ensures WellPlaced(text, Slices(text, occurrences, window, cap)) <==> window > 0 || occurrences != []
  {
    hide IsText, Absorbed, WellPlaced, Slices, IsTokenAt;
    SlicesGeometry(text, occurrences, window, cap);
    NothingAbsorbed(text, occurrences, window);
    var n := Handled(text, occurrences, window, cap, 0);
    if occurrences != [] {
      TokenIsAbsorbed(text, occurrences, window, n);
    }
  }

  ghost predicate Inside(o: Slice, s: Slice) {
    s.0 <= o.0 && o.1 <= s.1
  }

  ghost predicate Shown(o: Slice, slices: seq<Slice>) {
    exists s :: s in slices && Inside(o, s)
  }

  /** The last slice begins no later than the occurrences still to come. */
  ghost predicate BeginsBefore(slices: seq<Slice>, at: nat) {
    slices != [] ==> slices[|slices| - 1].0 <= at
  }

  lemma AbsorbShows(slices: seq<Slice>, w: Slice, o: Slice)
    requires Inside(o, w) && o.0 < o.1 && BeginsBefore(slices, o.0)
    ensures Shown(o, Absorb(slices, w)) && BeginsBefore(Absorb(slices, w), o.0)
    ensures forall p :: Shown(p, slices) ==> Shown(p, Absorb(slices, w))
  {
    var r, n := Absorb(slices, w), |slices| - 1;
    assert r[|r| - 1] in r && Inside(o, r[|r| - 1]);
    forall p | Shown(p, slices) ensures Shown(p, r) {
      var s :| s in slices && Inside(p, s);
      var k :| 0 <= k < |slices| && slices[k] == s;
      assert r[k] in r && Inside(p, r[k]);
    }
  }

  lemma {:induction false} AbsorbedShowsAll(text: seq<byte>, occurrences: seq<Slice>, window: nat, n: nat)
    requires n <= |occurrences|
    requires forall i :: 0 <= i < n ==> IsTokenAt(text, occurrences[i])
    requires forall i, j :: 0 <= i < j < n ==> occurrences[i].0 <= occurrences[j].0
    ensures var slices := Absorbed(text, occurrences, window, n);
      && (forall i :: 0 <= i < n ==> Shown(occurrences[i], slices))
      && (n > 0 ==> BeginsBefore(slices, occurrences[n - 1].0))
  {
    hide WindowOf, IsBoundary, IsAsciiWhitespace, Absorb, Shown;
    if n > 0 {
      AbsorbedShowsAll(text, occurrences, window, n - 1);
      WindowContains(text, occurrences[n - 1], window);
      AbsorbShows(Absorbed(text, occurrences, window, n - 1), WindowOf(text, occurrences[n - 1], window), occurrences[n - 1]);
    }
  }

  /** For token occurrences in order of their starts, every occurrence handled lies wholly inside a slice -
      and all of them are handled if the number of slices stays below the cap. */
  lemma HandledOccurrencesAreShown(text: seq<byte>, occurrences: seq<Slice>, window: nat, cap: nat, i: nat)
    requires IsText(text) && i < Handled(text, occurrences, window, cap, 0)
    requires forall k :: 0 <= k < |occurrences| ==> IsTokenAt(text, occurrences[k])
    requires forall j, k :: 0 <= j < k < |occurrences| ==> occurrences[j].0 <= occurrences[k].0
    ensures Shown(occurrences[i], Slices(text, occurrences, window, cap))
  {
    var n := Handled(text, occurrences, window, cap, 0);
    AbsorbedShowsAll(text, occurrences, window, n);
    var slices := Absorbed(text, occurrences, window, n);
    assert Shown(occurrences[i], slices);
    assert slices != [];
    assert text != [];
  }

  lemma {:induction false} AllHandledBelowCap(text: seq<byte>, occurrences: seq<Slice>, window: nat, cap: nat, n: nat)
    requires n <= |occurrences|
    ensures var r := Handled(text, occurrences, window, cap, n);
      r < |occurrences| ==> |Absorbed(text, occurrences, window, r)| >= cap
    decreases |occurrences| - n
  {
    hide Absorbed;
    if n < |occurrences| {
      AllHandledBelowCap(text, occurrences, window, cap, n + 1);
    }
  }

  // ---------- What the slices are made of ----------

  /** A window of a handled occurrence that is not empty and lies in the slice. */
  ghost predicate IsPart(text: seq<byte>, occurrences: seq<Slice>, window: nat, n: nat, s: Slice, w: Slice)
    requires n <= |occurrences|
  {
    s.0 <= w.0 < w.1 <= s.1 && exists i: nat :: i < n && IsWindow(text, occurrences[i], window, w)
  }

  ghost predicate SomeBegins(text: seq<byte>, occurrences: seq<Slice>, window: nat, n: nat, s: Slice)
    requires n <= |occurrences|
  {
    exists w: Slice :: IsPart(text, occurrences, window, n, s, w) && w.0 == s.0
  }

  ghost predicate SomeEnds(text: seq<byte>, occurrences: seq<Slice>, window: nat, n: nat, s: Slice)
    requires n <= |occurrences|
  {
    exists w: Slice :: IsPart(text, occurrences, window, n, s, w) && w.1 == s.1
  }

  /** The byte at p lies in the window of a handled occurrence, or at most 20 bytes before one, inside the slice. */
  ghost predicate Backed(text: seq<byte>, occurrences: seq<Slice>, window: nat, n: nat, s: Slice, p: nat)
    requires n <= |occurrences|
  {
    exists w: Slice :: IsPart(text, occurrences, window, n, s, w) && w.0 <= p + 20 && p < w.1
  }

  /** A slice begins and ends where windows of handled occurrences do, and has nothing else in it than these and
      gaps of at most 20 bytes between them. */
  ghost predicate IsMade(text: seq<byte>, occurrences: seq<Slice>, window: nat, n: nat, s: Slice)
    requires n <= |occurrences|
  {
    && SomeBegins(text, occurrences, window, n, s) && SomeEnds(text, occurrences, window, n, s)
    && forall p: nat :: s.0 <= p < s.1 ==> Backed(text, occurrences, window, n, s, p)
  }

  lemma PartEarlier(text: seq<byte>, occurrences: seq<Slice>, window: nat, m: nat, n: nat, s: Slice, t: Slice, w: Slice)
    requires m <= n <= |occurrences| && t.0 <= s.0 && s.1 <= t.1
    ensures IsPart(text, occurrences, window, m, s, w) ==> IsPart(text, occurrences, window, n, t, w)
  {
    hide IsWindow;
  }

  lemma BackedEarlier(text: seq<byte>, occurrences: seq<Slice>, window: nat, m: nat, n: nat, s: Slice, t: Slice, p: nat)
    requires m <= n <= |occurrences| && t.0 <= s.0 && s.1 <= t.1 && Backed(text, occurrences, window, m, s, p)
    ensures Backed(text, occurrences, window, n, t, p)
  {
    hide IsPart;
    var w: Slice :| IsPart(text, occurrences, window, m, s, w) && w.0 <= p + MERGE_GAP && p < w.1;
    PartEarlier(text, occurrences, window, m, n, s, t, w);
  }

  lemma MadeEarlier(text: seq<byte>, occurrences: seq<Slice>, window: nat, m: nat, n: nat, s: Slice)
    requires m <= n <= |occurrences| && IsMade(text, occurrences, window, m, s)
    ensures IsMade(text, occurrences, window, n, s)
  {
    hide IsPart, Backed;
    var v: Slice :| IsPart(text, occurrences, window, m, s, v) && v.0 == s.0;
    var w: Slice :| IsPart(text, occurrences, window, m, s, w) && w.1 == s.1;
    PartEarlier(text, occurrences, window, m, n, s, s, v);
    PartEarlier(text, occurrences, window, m, n, s, s, w);
    forall p: nat | s.0 <= p < s.1 ensures Backed(text, occurrences, window, n, s, p) {
      BackedEarlier(text, occurrences, window, m, n, s, s, p);
    }
  }

  lemma WindowIsMade(text: seq<byte>, occurrences: seq<Slice>, window: nat, n: nat, w: Slice)
    requires n < |occurrences| && IsWindow(text, occurrences[n], window, w) && w.0 < w.1
    ensures IsMade(text, occurrences, window, n + 1, w)
  {
    hide IsWindow;
    assert IsPart(text, occurrences, window, n + 1, w, w);
  }

  /** A slice extended by a window that begins within reach. */
  lemma ExtendedIsMade(text: seq<byte>, occurrences: seq<Slice>, window: nat, n: nat, m: nat, s: Slice, w: Slice, t: Slice)
    requires n < |occurrences| && m == n + 1 && IsMade(text, occurrences, window, n, s)
    requires IsWindow(text, occurrences[n], window, w) && w.0 < w.1
    requires s.0 <= w.0 <= s.1 + MERGE_GAP && t.0 == s.0 && t.1 == Max(s.1, w.1)
    ensures IsMade(text, occurrences, window, m, t)
  {
    hide IsWindow, Backed;
    assert IsPart(text, occurrences, window, m, t, w);
    hide IsPart;
    var u: Slice :| IsPart(text, occurrences, window, n, s, u) && u.0 == s.0;
    var v: Slice :| IsPart(text, occurrences, window, n, s, v) && v.1 == s.1;
    PartEarlier(text, occurrences, window, n, m, s, t, u);
    PartEarlier(text, occurrences, window, n, m, s, t, v);
    forall p: nat | t.0 <= p < t.1 ensures Backed(text, occurrences, window, m, t, p) {
      if p < s.1 {
        BackedEarlier(text, occurrences, window, n, m, s, t, p);
      } else {
        BackedBy(text, occurrences, window, m, t, p, w);
      }
    }
  }

  lemma BackedBy(text: seq<byte>, occurrences: seq<Slice>, window: nat, n: nat, s: Slice, p: nat, w: Slice)
    requires n <= |occurrences| && IsPart(text, occurrences, window, n, s, w) && w.0 <= p + MERGE_GAP && p < w.1
    ensures Backed(text, occurrences, window, n, s, p)
  {
  }

  ghost predicate InOrder(occurrences: seq<Slice>) {
    forall i, j :: 0 <= i < j < |occurrences| ==> occurrences[i].0 <= occurrences[j].0
  }

  lemma SliceBeginsBefore(text: seq<byte>, occurrences: seq<Slice>, window: nat, n: nat, s: Slice, w: Slice)
    requires n < |occurrences| && InOrder(occurrences) && IsMade(text, occurrences, window, n, s)
    requires IsWindow(text, occurrences[n], window, w)
    ensures s.0 <= w.0
  {
    hide IsWindow;
    var v: Slice :| IsPart(text, occurrences, window, n, s, v) && v.0 == s.0;
    var i: nat :| i < n && IsWindow(text, occurrences[i], window, v);
    WindowsInOrder(text, occurrences[i], occurrences[n], window, v, w);
  }

  /** Every slice is made of windows, and every window that is not empty lies in a slice. */
  ghost predicate AreMade(text: seq<byte>, occurrences: seq<Slice>, window: nat, n: nat, slices: seq<Slice>)
    requires n <= |occurrences|
  {
    && (forall k :: 0 <= k < |slices| ==> IsMade(text, occurrences, window, n, slices[k]))
    && (forall i: nat, w: Slice :: i < n && IsWindow(text, occurrences[i], window, w) && w.0 < w.1 ==> HasWindow(slices, w))
  }

  ghost predicate HasWindow(slices: seq<Slice>, w: Slice) {
    exists k :: 0 <= k < |slices| && slices[k].0 <= w.0 && w.1 <= slices[k].1
  }

  lemma AbsorbIsMade(text: seq<byte>, occurrences: seq<Slice>, window: nat, n: nat, slices: seq<Slice>, w: Slice)
    requires IsText(text) && n < |occurrences| && InOrder(occurrences) && AreMade(text, occurrences, window, n, slices)
    requires IsWindow(text, occurrences[n], window, w)
    ensures AreMade(text, occurrences, window, n + 1, Absorb(slices, w))
  {
    hide IsText, IsMade, IsWindow, InOrder;
    var r, m, last := Absorb(slices, w), n + 1, |slices| - 1;
    if last >= 0 {
      SliceBeginsBefore(text, occurrences, window, n, slices[last], w);
    }
    forall k | 0 <= k < |r| ensures IsMade(text, occurrences, window, m, r[k]) {
      if k < |slices| && r[k] == slices[k] {
        MadeEarlier(text, occurrences, window, n, m, slices[k]);
      } else if k == last {
        ExtendedIsMade(text, occurrences, window, n, m, slices[last], w, r[k]);
      } else {
        WindowIsMade(text, occurrences, window, n, w);
      }
    }
    forall i: nat, v: Slice | i < m && IsWindow(text, occurrences[i], window, v) && v.0 < v.1 ensures HasWindow(r, v) {
      if i < n {
        var k :| 0 <= k < |slices| && slices[k].0 <= v.0 && v.1 <= slices[k].1;
        assert r[k].0 <= v.0 && v.1 <= r[k].1;
      } else {
        WindowIsUnique(text, occurrences[n], window, v, w);
        assert r[|r| - 1].0 <= v.0 && v.1 <= r[|r| - 1].1;
      }
    }
  }

  lemma {:induction false} AbsorbedIsMade(text: seq<byte>, occurrences: seq<Slice>, window: nat, n: nat)
    requires IsText(text) && n <= |occurrences| && InOrder(occurrences)
    ensures AreMade(text, occurrences, window, n, Absorbed(text, occurrences, window, n))
  {
    hide IsText, IsMade, IsWindow, InOrder, Absorb, WindowOf;
    if n > 0 {
      AbsorbedIsMade(text, occurrences, window, n - 1);
      WindowMeaning(text, occurrences[n - 1], window);
      AbsorbIsMade(text, occurrences, window, n - 1, Absorbed(text, occurrences, window, n - 1), WindowOf(text, occurrences[n - 1], window));
    }
  }

  // ---------- Which occurrences are handled ----------

  /** The first n occurrences are the fewest whose slices reach the cap - one, if that is 0 - or all of them. */
  lemma {:induction false} HandledMeaning(text: seq<byte>, occurrences: seq<Slice>, window: nat, cap: nat, n: nat)
    requires n <= |occurrences| && |Absorbed(text, occurrences, window, n)| < Max(cap, 1)
    ensures var r := Handled(text, occurrences, window, cap, n);
      && (forall k: nat :: n <= k < r ==> |Absorbed(text, occurrences, window, k)| < Max(cap, 1))
      && (r < |occurrences| ==> |Absorbed(text, occurrences, window, r)| == Max(cap, 1))
    decreases |occurrences| - n
  {
    hide Absorbed, Handled, WindowOf, Absorb;
    if n < |occurrences| {
      HandleOne(text, occurrences, window, cap, n);
      AbsorbGrows(Absorbed(text, occurrences, window, n), WindowOf(text, occurrences[n], window));
      var after := Absorbed(text, occurrences, window, n + 1);
      if |after| < Max(cap, 1) {
        HandledMeaning(text, occurrences, window, cap, n + 1);
      }
    } else {
      AllHandled(text, occurrences, window, cap);
    }
  }

  lemma AbsorbGrows(slices: seq<Slice>, w: Slice)
    ensures |slices| <= |Absorb(slices, w)| <= |slices| + 1
  {
  }

  lemma AllHandled(text: seq<byte>, occurrences: seq<Slice>, window: nat, cap: nat)
    ensures Handled(text, occurrences, window, cap, |occurrences|) == |occurrences|
  {
  }

  // ---------- What the snippets have to be ----------

  /** Of the first n occurrences, the windows joined across gaps of at most 20 bytes, where n is all, or the fewest
      that give as many as the cap; or, if these windows are all empty, the first `window` characters. */
  ghost predicate AreSnippets(text: seq<byte>, occurrences: seq<Slice>, window: nat, cap: nat, n: nat, slices: seq<Slice>)
    requires n <= |occurrences|
  {
    exists made: seq<Slice> ::
      && WellPlaced(text, made) && AreMade(text, occurrences, window, n, made)
      && TakesEnough(text, occurrences, window, cap, n, made)
      && if made != [] then slices == made else |slices| == 1 && slices[0].0 == 0 && IsStretch(text, slices[0].1, window)
  }

  /** The first e bytes are `window` characters, or all there are if they are fewer. */
  ghost predicate IsStretch(text: seq<byte>, e: nat, window: nat) {
    && e <= |text| && IsBoundary(text, e)
    && (CharCount(text, 0, e) == window || (e == |text| && CharCount(text, 0, e) < window))
  }

  /** All occurrences are taken, or the fewest whose windows make as many slices as the cap. */
  ghost predicate TakesEnough(text: seq<byte>, occurrences: seq<Slice>, window: nat, cap: nat, n: nat, made: seq<Slice>)
    requires n <= |occurrences|
  {
    && (n < |occurrences| ==> |made| == Max(cap, 1))
    && (forall m: nat, fewer: seq<Slice> :: m < n && AreMade(text, occurrences, window, m, fewer) && WellPlaced(text, fewer) ==>
          |fewer| < Max(cap, 1))
  }

  // ---------- The description leaves one answer ----------

  /** A slice of one answer lies in a slice of any other. */
  lemma SliceInSlice(text: seq<byte>, occurrences: seq<Slice>, window: nat, n: nat, a: seq<Slice>, b: seq<Slice>, i: nat) returns (k: nat)
    requires n <= |occurrences| && AreMade(text, occurrences, window, n, a) && AreMade(text, occurrences, window, n, b)
    requires WellPlaced(text, b) && i < |a|
    ensures k < |b| && b[k].0 <= a[i].0 && a[i].1 <= b[k].1
  {
    hide IsWindow, WellPlaced;
    Spread(text, b);
    var s := a[i];
    var v: Slice :| IsPart(text, occurrences, window, n, s, v) && v.0 == s.0;
    k := SliceOfPart(text, occurrences, window, n, b, s, v);
    if b[k].1 < s.1 {
      assert Backed(text, occurrences, window, n, s, b[k].1);
      var w: Slice :| IsPart(text, occurrences, window, n, s, w) && w.0 <= b[k].1 + MERGE_GAP && b[k].1 < w.1;
      var j := SliceOfPart(text, occurrences, window, n, b, s, w);
    }
  }

  lemma SliceOfPart(text: seq<byte>, occurrences: seq<Slice>, window: nat, n: nat, b: seq<Slice>, s: Slice, w: Slice) returns (k: nat)
    requires n <= |occurrences| && AreMade(text, occurrences, window, n, b) && IsPart(text, occurrences, window, n, s, w)
    ensures k < |b| && b[k].0 <= w.0 && w.1 <= b[k].1
  {
    hide IsWindow, IsMade;
    var i: nat :| i < n && IsWindow(text, occurrences[i], window, w);
    assert HasWindow(b, w);
    k :| 0 <= k < |b| && b[k].0 <= w.0 && w.1 <= b[k].1;
  }

  lemma SlicesEqual(text: seq<byte>, occurrences: seq<Slice>, window: nat, n: nat, a: seq<Slice>, b: seq<Slice>, i: nat) returns (k: nat)
    requires n <= |occurrences| && AreMade(text, occurrences, window, n, a) && AreMade(text, occurrences, window, n, b)
    requires WellPlaced(text, a) && WellPlaced(text, b) && i < |a|
    ensures k < |b| && b[k] == a[i]
  {
    hide AreMade, WellPlaced;
    Spread(text, a);
    k := SliceInSlice(text, occurrences, window, n, a, b, i);
    var j := SliceInSlice(text, occurrences, window, n, b, a, k);
  }

  /** Slices made of the same windows are the same. */
  lemma {:induction false} MadeIsUnique(text: seq<byte>, occurrences: seq<Slice>, window: nat, n: nat, a: seq<Slice>, b: seq<Slice>, m: nat)
    requires n <= |occurrences| && AreMade(text, occurrences, window, n, a) && AreMade(text, occurrences, window, n, b)
    requires WellPlaced(text, a) && WellPlaced(text, b) && m <= |a|
    ensures m <= |b| && a[..m] == b[..m]
  {
    hide AreMade, WellPlaced;
    if m > 0 {
      var l := m - 1;
      MadeIsUnique(text, occurrences, window, n, a, b, l);
      PlacedAscends(text, a);
      PlacedAscends(text, b);
      var k := SlicesEqual(text, occurrences, window, n, a, b, l);
      assert forall x :: 0 <= x < l ==> a[x] == a[..l][x] == b[x] && b[x].0 < a[l].0;
      var j := SlicesEqual(text, occurrences, window, n, b, a, l);
      assert forall x :: 0 <= x < l ==> a[x].0 < b[l].0;
      assert a[..m] == a[..l] + [a[l]] && b[..m] == b[..l] + [b[l]];
    }
  }

  lemma Spread(text: seq<byte>, slices: seq<Slice>)
    requires WellPlaced(text, slices)
    ensures forall i :: 0 <= i < |slices| ==> slices[i].0 < slices[i].1
    ensures forall i, j :: 0 <= i < j < |slices| ==> slices[i].1 + MERGE_GAP < slices[j].0
  {
    forall i | 0 <= i < |slices| ensures slices[i].0 < slices[i].1 {
      assert slices[i] in slices;
    }
  }

  lemma PlacedAscends(text: seq<byte>, slices: seq<Slice>)
    requires WellPlaced(text, slices)
    ensures forall i, j :: 0 <= i < j < |slices| ==> slices[i].0 < slices[j].0
  {
    forall i, j | 0 <= i < j < |slices| ensures slices[i].0 < slices[j].0 {
      assert slices[i] in slices;
    }
  }

  // ---------- The snippets from the bytes of the content ----------

  lemma SlicesTakeEnough(text: seq<byte>, occurrences: seq<Slice>, window: nat, cap: nat, slices: seq<Slice>)
    requires IsText(text) && InOrder(occurrences)
    requires slices == Absorbed(text, occurrences, window, Handled(text, occurrences, window, cap, 0))
    ensures TakesEnough(text, occurrences, window, cap, Handled(text, occurrences, window, cap, 0), slices)
  {
    hide IsText, InOrder, Absorbed, Handled, AreMade, WellPlaced;
    NothingAbsorbed(text, occurrences, window);
    HandledMeaning(text, occurrences, window, cap, 0);
    var n := Handled(text, occurrences, window, cap, 0);
    forall m: nat, fewer: seq<Slice> | m < n && AreMade(text, occurrences, window, m, fewer) && WellPlaced(text, fewer)
      ensures |fewer| < Max(cap, 1)
    {
      AbsorbedIsMade(text, occurrences, window, m);
      AbsorbedIsWellPlaced(text, occurrences, window, m);
      MadeIsUnique(text, occurrences, window, m, fewer, Absorbed(text, occurrences, window, m), |fewer|);
      MadeIsUnique(text, occurrences, window, m, Absorbed(text, occurrences, window, m), fewer, |Absorbed(text, occurrences, window, m)|);
    }
  }

  /** The slices meet the description that the bytes of the content give. */
  lemma SlicesMeaning(text: seq<byte>, occurrences: seq<Slice>, window: nat, cap: nat) returns (n: nat)
    requires IsText(text) && text != [] && InOrder(occurrences)
    ensures n <= |occurrences| && AreSnippets(text, occurrences, window, cap, n, Slices(text, occurrences, window, cap))
  {
    hide IsText, InOrder, Absorbed, Handled, AreMade, WellPlaced, IsBoundary;
    n := Handled(text, occurrences, window, cap, 0);
    var made := Absorbed(text, occurrences, window, n);
    AbsorbedIsMade(text, occurrences, window, n);
    AbsorbedIsWellPlaced(text, occurrences, window, n);
    SlicesTakeEnough(text, occurrences, window, cap, made);
    BoundaryAtStart(text);
    AdvanceCounts(text, 0, window);
  }

  // ---------- The program ----------

  method ComputeSnippetSlices(text: seq<byte>, occurrences: seq<Slice>, window: nat, cap: nat) returns (merged: seq<Slice>)
    requires IsText(text)
    ensures merged == Slices(text, occurrences, window, cap)
    ensures text == [] ==> merged == []
    ensures text != [] && InOrder(occurrences) ==>
      exists n: nat :: n <= |occurrences| && AreSnippets(text, occurrences, window, cap, n, merged)
  {
    hide AreSnippets, InOrder, IsText, Handled, Absorbed;
    if text == [] {
      return [];
    }
    if InOrder(occurrences) {
      ghost var n := SlicesMeaning(text, occurrences, window, cap);
    }
    if occurrences == [] {
      NothingAbsorbed(text, occurrences, window);
      AllHandled(text, occurrences, window, cap);
      var end := AdvanceBoundary(text, 0, window);
      return [(0, end)];
    }
    merged := MergeWindows(text, occurrences, window, cap);
    if merged == [] {
      var end := AdvanceBoundary(text, 0, window);
      merged := [(0, end)];
    }
  }

  lemma HandleOne(text: seq<byte>, occurrences: seq<Slice>, window: nat, cap: nat, n: nat)
    requires n < |occurrences|
    ensures var before, after := Absorbed(text, occurrences, window, n), Absorbed(text, occurrences, window, n + 1);
      && after == Absorb(before, WindowOf(text, occurrences[n], window))
      && Handled(text, occurrences, window, cap, n)
         == if |after| > |before| && |after| >= cap then n + 1 else Handled(text, occurrences, window, cap, n + 1)
  {
  }

  /** The loop over the occurrences. */
  method MergeWindows(text: seq<byte>, occurrences: seq<Slice>, window: nat, cap: nat) returns (merged: seq<Slice>)
    requires IsText(text)
    ensures merged == Absorbed(text, occurrences, window, Handled(text, occurrences, window, cap, 0))
  {
    hide IsText, WindowOf, Absorbed, Handled, IsBoundary;
    NothingAbsorbed(text, occurrences, window);
    merged := [];
    var n := 0;
    while n < |occurrences|
      invariant n <= |occurrences| && merged == Absorbed(text, occurrences, window, n)
      invariant Handled(text, occurrences, window, cap, 0) == Handled(text, occurrences, window, cap, n)
    {
      var w := Widen(text, occurrences[n], window);
      WindowInText(text, occurrences[n], window);
      HandleOne(text, occurrences, window, cap, n);
      n := n + 1;
      if w.1 <= w.0 {
        continue;
      }
      if merged != [] {
        var last := merged[|merged| - 1];
        if w.0 <= last.1 + MERGE_GAP {
          merged := merged[..|merged| - 1] + [(last.0, Max(last.1, w.1))];
          continue;
        }
      }
      merged := merged + [(Min(w.0, |text|), Min(w.1, |text|))];
      if |merged| >= cap {
        return;
      }
    }
  }
}
