/** The window of text around one occurrence of a query (memvid/src/lex.rs). */
module Windows {
  import opened Basics
  import opened Utf8

  type Slice = (nat, nat)

  // ---------- What the helpers compute ----------

  /** The last boundary at or before idx. */
  ghost function Prev(text: seq<byte>, idx: nat): (r: nat)
    ensures r <= idx && r <= |text| && IsBoundary(text, r)
    ensures forall b :: r < b <= idx && b <= |text| ==> !IsBoundary(text, b)
    decreases idx
  {
    if idx > |text| then Prev(text, |text|)
    else if IsBoundary(text, idx) then idx
    else Prev(text, idx - 1)
  }

  /** The first boundary at or after idx, in the text. */
  ghost function Next(text: seq<byte>, idx: nat): (r: nat)
    ensures r <= |text| && IsBoundary(text, r)
    ensures idx <= |text| ==> idx <= r && forall b :: idx <= b < r ==> !IsBoundary(text, b)
    decreases |text| - idx
  {
    if idx >= |text| then |text|
    else if IsBoundary(text, idx) then idx
    else Next(text, idx + 1)
  }

  predicate IsStop(b: byte) {
    b == 46 || b == 33 || b == 63 || b == 10
  }

  /** The position behind the last stop before i. */
  ghost function LastStop(text: seq<byte>, i: nat): (r: Option<nat>)
    requires i <= |text|
    ensures r.Some? ==> 0 < r.value <= i && IsStop(text[r.value - 1])
    ensures forall p :: (if r.Some? then r.value else 0) <= p < i ==> !IsStop(text[p])
  {
    if i == 0 then None else if IsStop(text[i - 1]) then Some(i) else LastStop(text, i - 1)
  }

  /** The position of the first stop at or after i. */
  ghost function FirstStop(text: seq<byte>, i: nat): (r: Option<nat>)
    requires i <= |text|
    ensures r.Some? ==> i <= r.value < |text| && IsStop(text[r.value])
    ensures forall p :: i <= p < (if r.Some? then r.value else |text|) ==> !IsStop(text[p])
    decreases |text| - i
  {
    if i == |text| then None else if IsStop(text[i]) then Some(i) else FirstStop(text, i + 1)
  }

  ghost function SkipSpace(text: seq<byte>, pos: nat): (r: nat)
    requires pos <= |text|
    ensures pos <= r <= |text|
    ensures forall p :: pos <= p < r ==> IsAsciiWhitespace(text[p])
    ensures r < |text| ==> !IsAsciiWhitespace(text[r])
    decreases |text| - pos
  {
    if pos < |text| && IsAsciiWhitespace(text[pos]) then SkipSpace(text, pos + 1) else pos
  }

  /** Where the sentence around idx begins: behind the last stop before it, blanks skipped. */
  ghost function SentenceStart(text: seq<byte>, idx: nat): (r: Option<nat>)
    ensures r.Some? ==> r.value <= |text| && IsBoundary(text, r.value)
  {
    if idx == 0 then Some(0)
    else
      var stop := LastStop(text, Prev(text, idx));
      if stop.None? then None else Some(Prev(text, SkipSpace(text, Next(text, stop.value))))
  }

  /** Where the sentence around idx ends: behind its stop, or before its line break. */
  ghost function SentenceEnd(text: seq<byte>, idx: nat): (r: Option<nat>)
    ensures r.Some? ==> r.value <= |text|
  {
    if idx >= |text| then Some(|text|)
    else
      var stop := FirstStop(text, Prev(text, idx));
      if stop.None? then None
      else if text[stop.value] == 10 then stop
      else Some(Next(text, stop.value + 1))
  }

  /** The window of one occurrence: half of `window` on either side, widened to sentences, snapped outwards
      to character boundaries. */
  ghost function WindowOf(text: seq<byte>, o: Slice, window: nat): Slice {
    var start := if o.0 < window / 2 then 0 else o.0 - window / 2;
    var end := Min(o.1 + window / 2, |text|);
    var from, to := SentenceStart(text, start), SentenceEnd(text, end);
    (Prev(text, if from.Some? then from.value else start), Next(text, if to.Some? then to.value else end))
  }

  /** The offset behind the first `window` characters from a boundary on. */
  ghost function Advance(text: seq<byte>, start: nat, window: nat): (r: nat)
    requires IsText(text) && start <= |text| && IsBoundary(text, start)
    ensures start <= r <= |text| && IsBoundary(text, r)
    ensures window > 0 && start < |text| ==> start < r
    decreases |text| - start
  {
    if start == |text| || window == 0 then start
    else
      NextChar(text, start);
      Advance(text, start + Width(text[start]), window - 1)
  }

  // ---------- What a window contains ----------

  lemma WindowInText(text: seq<byte>, o: Slice, window: nat)
    ensures var w := WindowOf(text, o, window);
      w.0 <= |text| && w.1 <= |text| && IsBoundary(text, w.0) && IsBoundary(text, w.1)
  {
  }

  /** A non-empty range of whole characters that begins with something other than ASCII white space: what
      the search of a token, which holds no white space, returns. */
  ghost predicate IsTokenAt(text: seq<byte>, o: Slice) {
    o.0 < o.1 <= |text| && IsBoundary(text, o.0) && IsBoundary(text, o.1) && !IsAsciiWhitespace(text[o.0])
  }

  lemma TokenIsNotEmpty(text: seq<byte>, o: Slice)
    ensures IsTokenAt(text, o) ==> o.0 < o.1
  {
  }

  lemma WindowContains(text: seq<byte>, o: Slice, window: nat)
    requires IsTokenAt(text, o)
    ensures var w := WindowOf(text, o, window); w.0 <= o.0 && o.1 <= w.1 <= |text|
  {
    hide SentenceStart, SentenceEnd, Prev, Next;
    var start := if o.0 < window / 2 then 0 else o.0 - window / 2;
    var end := Min(o.1 + window / 2, |text|);
    SentenceStartBefore(text, start, o.0);
    SentenceEndAfter(text, end, o.1);
  }

  /** Skipping blanks never runs past a character that is not blank. */
  lemma SentenceStartBefore(text: seq<byte>, idx: nat, at: nat)
    requires idx <= at < |text| && !IsAsciiWhitespace(text[at])
    ensures SentenceStart(text, idx).Some? ==> SentenceStart(text, idx).value <= at
  {
    if idx > 0 {
      var stop := LastStop(text, Prev(text, idx));
      if stop.Some? {
        NextIsNear(text, stop.value, Prev(text, idx));
      }
    }
  }

  lemma NextIsNear(text: seq<byte>, i: nat, b: nat)
    requires i <= b <= |text| && IsBoundary(text, b)
    ensures i <= Next(text, i) <= b
  {
  }

  lemma SentenceEndAfter(text: seq<byte>, idx: nat, at: nat)
    requires at <= idx <= |text| && IsBoundary(text, at)
    ensures SentenceEnd(text, idx).Some? ==> SentenceEnd(text, idx).value >= at
  {
    assert Prev(text, idx) >= at;
  }

  // ---------- How far a window reaches ----------

  /** No byte from lo up to hi ends a sentence or a line. */
  ghost predicate NoStop(text: seq<byte>, lo: nat, hi: nat) {
    forall p :: lo <= p < hi && p < |text| ==> !IsStop(text[p])
  }

  /** Where a window that should begin at `start` begins: behind the last stop before that and the blanks that
      follow the stop, or, if there is no stop, at the start of the character there - at most 3 bytes before. */
  ghost predicate BeginsAt(text: seq<byte>, start: nat, a: nat) {
    && a <= |text| && IsBoundary(text, a)
    && if start == 0 then a == 0
       else if NoStop(text, 0, start) then
         a <= start && (start <= |text| ==> start - a <= 3) && forall b :: a < b <= start && b <= |text| ==> !IsBoundary(text, b)
       else exists p: nat :: p < start && p < a && IsLastStop(text, p, start) && IsBlankRun(text, p + 1, a)
  }

  ghost predicate IsLastStop(text: seq<byte>, p: nat, start: nat) {
    p < |text| && IsStop(text[p]) && NoStop(text, p + 1, start)
  }

  /** ASCII blanks from lo to hi, and none at hi. */
  ghost predicate IsBlankRun(text: seq<byte>, lo: nat, hi: nat) {
    && (forall p :: lo <= p < hi && p < |text| ==> IsAsciiWhitespace(text[p]))
    && (hi < |text| ==> !IsAsciiWhitespace(text[hi]))
  }

  /** Where a window that should end at `end` ends: behind the first stop from there on - before it, if it is a line
      break - or, if there is none, at the end of the character there - at most 3 bytes behind. */
  ghost predicate EndsAt(text: seq<byte>, end: nat, b: nat) {
    && b <= |text| && IsBoundary(text, b)
    && if end >= |text| then b == |text|
       else if NoStop(text, end, |text|) then
         end <= b <= end + 3 && forall c :: end <= c < b ==> !IsBoundary(text, c)
       else exists p: nat :: end <= p < |text| && IsFirstStop(text, p, end) && b == if text[p] == 10 then p else p + 1
  }

  ghost predicate IsFirstStop(text: seq<byte>, p: nat, end: nat) {
    p < |text| && IsStop(text[p]) && NoStop(text, end, p)
  }

  /** The window that an occurrence has to get. */
  ghost predicate IsWindow(text: seq<byte>, o: Slice, window: nat, w: Slice) {
    && BeginsAt(text, if o.0 < window / 2 then 0 else o.0 - window / 2, w.0)
    && EndsAt(text, o.1 + window / 2, w.1)
  }

  /** Between a position and the boundary before it there is no stop, and there are at most 3 bytes. */
  lemma InsideChar(text: seq<byte>, i: nat)
    requires IsText(text) && i <= |text|
    ensures i - Prev(text, i) <= 3 && NoStop(text, Prev(text, i), i)
    ensures Next(text, i) - i <= 3
  {
    var b := Prev(text, i);
    if b < i {
      StopsAreAscii(text, b);
      hide IsText, IsChar, Prev, Next;
      var e := b + Width(text[b]);
      assert e > i;
      NextIsNear(text, i, e);
      forall p | b <= p < i ensures !IsStop(text[p]) {
        assert p == b ==> !IsStop(text[p]);
      }
    }
  }

  lemma BoundaryIsItself(text: seq<byte>, i: nat)
    requires i <= |text| && IsBoundary(text, i)
    ensures Prev(text, i) == i && Next(text, i) == i
  {
  }

  /** Behind a stop or an ASCII blank there is a boundary. */
  lemma BehindAscii(text: seq<byte>, p: nat)
    requires IsText(text) && p < |text| && (IsStop(text[p]) || IsAsciiWhitespace(text[p]))
    ensures IsBoundary(text, p) && IsBoundary(text, p + 1)
  {
    NextChar(text, p);
  }

  lemma StopsJoin(text: seq<byte>, lo: nat, mid: nat, hi: nat)
    ensures NoStop(text, lo, mid) && NoStop(text, mid, hi) ==> NoStop(text, lo, hi)
  {
  }

  lemma WindowBegins(text: seq<byte>, start: nat)
    requires IsText(text)
    ensures var from := SentenceStart(text, start);
      BeginsAt(text, start, Prev(text, if from.Some? then from.value else start))
  {
    hide IsText, Prev, Next, IsBoundary, LastStop, SkipSpace, IsStop, IsAsciiWhitespace;
    var b := Prev(text, start);
    if start == 0 {
      BoundaryIsItself(text, 0);
    } else {
      if start <= |text| {
        InsideChar(text, start);
      } else {
        BoundaryAtEnd(text, start);
      }
      var stop := LastStop(text, b);
      if stop.None? {
        assert NoStop(text, 0, b);
        StopsJoin(text, 0, b, start);
      } else {
        var q := stop.value;
        assert NoStop(text, q, b);
        StopsJoin(text, q, b, start);
        BehindAscii(text, q - 1);
        BoundaryIsItself(text, q);
        var a := SkipSpace(text, q);
        if q < a {
          BehindAscii(text, a - 1);
        }
        BoundaryIsItself(text, a);
        assert IsLastStop(text, q - 1, start) && IsBlankRun(text, q, a);
      }
    }
  }

  lemma BoundaryAtStart(text: seq<byte>)
    ensures IsBoundary(text, 0)
  {
  }

  lemma BoundaryAtEnd(text: seq<byte>, i: nat)
    requires i > |text|
    ensures Prev(text, i) == |text| && IsBoundary(text, |text|) && NoStop(text, |text|, i)
  {
  }

  lemma WindowEnds(text: seq<byte>, end: nat)
    requires IsText(text)
    ensures var to := SentenceEnd(text, Min(end, |text|));
      EndsAt(text, end, Next(text, if to.Some? then to.value else Min(end, |text|)))
  {
    hide IsText, Prev, Next, IsBoundary, FirstStop, IsStop;
    if end >= |text| {
      EndIsBoundary(text);
      BoundaryIsItself(text, |text|);
    } else {
      InsideChar(text, end);
      var b := Prev(text, end);
      var stop := FirstStop(text, b);
      if stop.None? {
        assert NoStop(text, end, |text|);
      } else {
        var q := stop.value;
        assert q >= end by {
          assert !NoStop(text, b, q + 1);
        }
        assert NoStop(text, end, q) && IsFirstStop(text, q, end);
        BehindAscii(text, q);
        BoundaryIsItself(text, q);
        BoundaryIsItself(text, q + 1);
      }
    }
  }

  lemma EndIsBoundary(text: seq<byte>)
    ensures IsBoundary(text, |text|)
  {
  }

  /** The window of any occurrence, from inside and outside: it reaches as far as it has to, and no farther. */
  lemma WindowMeaning(text: seq<byte>, o: Slice, window: nat)
    requires IsText(text)
    ensures IsWindow(text, o, window, WindowOf(text, o, window))
  {
    hide SentenceStart, SentenceEnd, BeginsAt, EndsAt, Prev, Next;
    WindowBegins(text, if o.0 < window / 2 then 0 else o.0 - window / 2);
    WindowEnds(text, o.1 + window / 2);
  }

  /** And no other window meets that description. */
  lemma WindowIsUnique(text: seq<byte>, o: Slice, window: nat, v: Slice, w: Slice)
    requires IsText(text) && IsWindow(text, o, window, v) && IsWindow(text, o, window, w)
    ensures v == w
  {
    hide IsText, IsBoundary;
    var start, end := if o.0 < window / 2 then 0 else o.0 - window / 2, o.1 + window / 2;
    BeginIsUnique(text, start, v.0, w.0);
    EndIsUnique(text, end, v.1, w.1);
  }

  lemma BeginIsUnique(text: seq<byte>, start: nat, a: nat, c: nat)
    requires BeginsAt(text, start, a) && BeginsAt(text, start, c)
    ensures a == c
  {
    hide IsBoundary, IsStop, IsAsciiWhitespace;
    if start > 0 && !NoStop(text, 0, start) {
      var p: nat :| p < start && p < a && IsLastStop(text, p, start) && IsBlankRun(text, p + 1, a);
      var q: nat :| q < start && q < c && IsLastStop(text, q, start) && IsBlankRun(text, q + 1, c);
      assert p == q;
    }
  }

  lemma EndIsUnique(text: seq<byte>, end: nat, b: nat, c: nat)
    requires EndsAt(text, end, b) && EndsAt(text, end, c)
    ensures b == c
  {
    hide IsBoundary, IsStop;
    if end < |text| && !NoStop(text, end, |text|) {
      var p: nat :| end <= p < |text| && IsFirstStop(text, p, end) && b == if text[p] == 10 then p else p + 1;
      var q: nat :| end <= q < |text| && IsFirstStop(text, q, end) && c == if text[q] == 10 then q else q + 1;
      assert p == q;
    }
  }

  /** A window that should begin later does not begin earlier. */
  lemma BeginsInOrder(text: seq<byte>, start: nat, later: nat, a: nat, c: nat)
    requires start <= later && BeginsAt(text, start, a) && BeginsAt(text, later, c)
    ensures a <= c
  {
    hide IsBoundary, IsStop, IsAsciiWhitespace;
    if later > 0 && !NoStop(text, 0, later) {
      var q: nat :| q < later && q < c && IsLastStop(text, q, later) && IsBlankRun(text, q + 1, c);
      if start > 0 && !NoStop(text, 0, start) {
        var p: nat :| p < start && p < a && IsLastStop(text, p, start) && IsBlankRun(text, p + 1, a);
        assert p <= q;
      }
    }
  }

  lemma WindowsInOrder(text: seq<byte>, o: Slice, o': Slice, window: nat, v: Slice, w: Slice)
    requires o.0 <= o'.0 && IsWindow(text, o, window, v) && IsWindow(text, o', window, w)
    ensures v.0 <= w.0
  {
    hide BeginsAt, EndsAt;
    BeginsInOrder(text, if o.0 < window / 2 then 0 else o.0 - window / 2, if o'.0 < window / 2 then 0 else o'.0 - window / 2, v.0, w.0);
  }

  // ---------- A stretch of characters ----------

  /** The number of characters that begin from lo up to hi. */
  ghost function CharCount(text: seq<byte>, lo: nat, hi: nat): nat
    requires lo <= hi <= |text|
    decreases hi - lo
  {
    if lo == hi then 0 else (if IsContinuation(text[lo]) then 0 else 1) + CharCount(text, lo + 1, hi)
  }

  lemma {:induction false} CharCountSplits(text: seq<byte>, lo: nat, mid: nat, hi: nat)
    requires lo <= mid <= hi <= |text|
    ensures CharCount(text, lo, hi) == CharCount(text, lo, mid) + CharCount(text, mid, hi)
    decreases mid - lo
  {
    if lo < mid {
      CharCountSplits(text, lo + 1, mid, hi);
    }
  }

  lemma {:induction false} NoCharBegins(text: seq<byte>, lo: nat, hi: nat)
    requires lo <= hi <= |text| && forall k :: lo <= k < hi ==> IsContinuation(text[k])
    ensures CharCount(text, lo, hi) == 0
    decreases hi - lo
  {
    if lo < hi {
      NoCharBegins(text, lo + 1, hi);
    }
  }

  lemma CharIsOne(text: seq<byte>, i: nat)
    requires IsText(text) && i < |text| && IsBoundary(text, i)
    ensures i + Width(text[i]) <= |text| && CharCount(text, i, i + Width(text[i])) == 1
  {
    hide IsText;
    NextChar(text, i);
    var e := i + Width(text[i]);
    forall k | i < k < e ensures IsContinuation(text[k]) {
      assert text[i..e][k - i] == text[k];
    }
    assert text[i..e][0] == text[i];
    NoCharBegins(text, i + 1, e);
  }

  /** The end of a stretch of so many characters, or of all that are left. */
  lemma {:induction false} AdvanceCounts(text: seq<byte>, start: nat, window: nat)
    requires IsText(text) && start <= |text| && IsBoundary(text, start)
    ensures var r := Advance(text, start, window);
      CharCount(text, start, r) == window || (r == |text| && CharCount(text, start, r) < window)
    decreases |text| - start
  {
    if start < |text| && window > 0 {
      var next := start + Width(text[start]);
      NextChar(text, start);
      CharIsOne(text, start);
      AdvanceCounts(text, next, window - 1);
      CharCountSplits(text, start, next, Advance(text, next, window - 1));
    }
  }

  // ---------- The program ----------

  method PrevCharBoundary(text: seq<byte>, index: nat) returns (idx: nat)
    ensures idx == Prev(text, index)
  {
    idx := index;
    if idx > |text| {
      idx := |text|;
    }
    while idx > 0 && !IsBoundary(text, idx)
      invariant idx <= |text| && Prev(text, idx) == Prev(text, index)
    {
      idx := idx - 1;
    }
  }

  method NextCharBoundary(text: seq<byte>, index: nat) returns (idx: nat)
    ensures idx == Next(text, index)
  {
    idx := index;
    if idx > |text| {
      idx := |text|;
    }
    while idx < |text| && !IsBoundary(text, idx)
      invariant idx <= |text| && Next(text, idx) == Next(text, index)
    {
      idx := idx + 1;
    }
  }

  /** No byte of a character but a lone ASCII byte is a stop. */
  lemma StopsAreAscii(text: seq<byte>, pos: nat)
    requires IsText(text) && pos < |text| && IsBoundary(text, pos)
    ensures var e := pos + Width(text[pos]);
      e <= |text| && IsBoundary(text, e) && (IsStop(text[pos]) ==> e == pos + 1)
      && forall k :: pos < k < e ==> !IsStop(text[k])
  {
    hide IsText, IsChar;
    NextChar(text, pos);
    forall k | pos < k < pos + Width(text[pos]) ensures !IsStop(text[k]) {
      assert !IsBoundary(text, k);
    }
  }

  lemma {:induction false} LastStopSkips(text: seq<byte>, i: nat, j: nat)
    requires i <= j <= |text| && forall k :: i <= k < j ==> !IsStop(text[k])
    ensures LastStop(text, j) == LastStop(text, i)
    decreases j
  {
    if i < j {
      LastStopSkips(text, i, j - 1);
    }
  }

  lemma {:induction false} FirstStopSkips(text: seq<byte>, i: nat, j: nat)
    requires i <= j <= |text| && forall k :: i <= k < j ==> !IsStop(text[k])
    ensures FirstStop(text, i) == FirstStop(text, j)
    decreases j - i
  {
    if i < j {
      FirstStopSkips(text, i + 1, j);
    }
  }

  method SentenceStartBeforeIndex(text: seq<byte>, index: nat) returns (r: Option<nat>)
    requires IsText(text)
    ensures r == SentenceStart(text, index)
  {
    if index == 0 {
      return Some(0);
    }
    var idx := PrevCharBoundary(text, Min(index, |text|));
    assert idx == Prev(text, index);
    var candidate: Option<nat> := None;
    var pos := 0;
    while pos < idx
      invariant pos <= idx && IsBoundary(text, pos) && candidate == LastStop(text, pos)
    {
      StopsAreAscii(text, pos);
      var next := pos + Width(text[pos]);
      NextChar(text, pos);
      if IsStop(text[pos]) {
        candidate := Some(next);
      } else {
        LastStopSkips(text, pos, next);
      }
      pos := next;
    }
    if candidate.None? {
      return None;
    }
    var from := NextCharBoundary(text, candidate.value);
    ghost var begin := from;
    while from < |text| && IsAsciiWhitespace(text[from])
      invariant from <= |text| && SkipSpace(text, from) == SkipSpace(text, begin)
    {
      from := from + 1;
    }
    from := PrevCharBoundary(text, from);
    return Some(from);
  }

  lemma StopHere(text: seq<byte>, pos: nat)
    requires pos < |text|
    ensures IsStop(text[pos]) ==> FirstStop(text, pos) == Some(pos)
  {
  }

  lemma NoStopLeft(text: seq<byte>)
    ensures FirstStop(text, |text|) == None
  {
  }

  method SentenceEndAfterIndex(text: seq<byte>, index: nat) returns (r: Option<nat>)
    requires IsText(text)
    ensures r == SentenceEnd(text, index)
  {
    hide IsText, FirstStop, Prev, Next;
    if index >= |text| {
      return Some(|text|);
    }
    var idx := PrevCharBoundary(text, index);
    NoStopLeft(text);
    var pos := idx;
    while pos < |text|
      invariant pos <= |text| && IsBoundary(text, pos) && FirstStop(text, idx) == FirstStop(text, pos)
    {
      StopHere(text, pos);
      StopsAreAscii(text, pos);
      if text[pos] == 46 || text[pos] == 33 || text[pos] == 63 {
        var end := NextCharBoundary(text, pos + Width(text[pos]));
        return Some(end);
      }
      if text[pos] == 10 {
        return Some(pos);
      }
      var next := pos + Width(text[pos]);
      FirstStopSkips(text, pos, next);
      pos := next;
    }
    return None;
  }

  method AdvanceBoundary(text: seq<byte>, start: nat, window: nat) returns (r: nat)
    requires IsText(text) && start <= |text| && IsBoundary(text, start)
    ensures r == Advance(text, start, window)
  {
    if start >= |text| {
      return |text|;
    }
    var pos, left := start, window;
    while pos < |text|
      invariant pos <= |text| && IsBoundary(text, pos) && Advance(text, pos, left) == Advance(text, start, window)
      decreases |text| - pos
    {
      if left == 0 {
        return pos;
      }
      NextChar(text, pos);
      pos := pos + Width(text[pos]);
      left := left - 1;
    }
    return |text|;
  }

  method Widen(text: seq<byte>, o: Slice, window: nat) returns (w: Slice)
    requires IsText(text)
    ensures w == WindowOf(text, o, window)
  {
    hide IsText, SentenceStart, SentenceEnd, Prev, Next, IsBoundary;
    var start := if o.0 < window / 2 then 0 else o.0 - window / 2;
    var end := Min(o.1 + window / 2, |text|);
    var from := SentenceStartBeforeIndex(text, start);
    if from.Some? {
      start := from.value;
    }
    var to := SentenceEndAfterIndex(text, end);
    if to.Some? {
      end := to.value;
    }
    start := PrevCharBoundary(text, start);
    end := NextCharBoundary(text, end);
    return (start, end);
  }
}
