/** Splitting a document into searchable sections (memvid/src/lex.rs). */
module LexChunks {
  import opened Basics
  import opened Utf8

  const SOFT: nat := 900
  const HARD: nat := 1400
  const MAX_COUNT: nat := 2048

  datatype Section = Section(offset: nat, content: seq<byte>, contentLower: seq<byte>)

  /** The character that starts at i ends a sentence or a line. */
  predicate IsSoftBoundary(text: seq<byte>, i: nat)
    requires i < |text|
  {
    var ch, next := text[i], i + Width(text[i]);
    if ch == 46 || ch == 33 || ch == 63 then next >= |text| || IsWhitespaceAt(text, next)
    else ch == 10
  }

  /** The bytes from start to end, and none if that is not a range of the text. */
  function Slice(text: seq<byte>, start: nat, end: nat): seq<byte> {
    if start <= end <= |text| then text[start..end] else []
  }

  function SectionOf(text: seq<byte>, start: nat, end: nat): Section {
    Section(start, Slice(text, start, end), AsciiLower(Slice(text, start, end)))
  }

  // ---------- Where the cuts fall ----------

  function CharEnd(text: seq<byte>, idx: nat): nat
    requires idx < |text|
  {
    idx + Width(text[idx])
  }

  /** The last soft break once the character at idx has been read. */
  function SoftAfter(text: seq<byte>, idx: nat, last: Option<nat>): Option<nat>
    requires idx < |text|
  {
    if IsSoftBoundary(text, idx) then Some(CharEnd(text, idx)) else last
  }

  function SplitAt(soft: Option<nat>, end: nat): nat {
    if soft.Some? then soft.value else end
  }

  /** Reading from boundary `idx` with the last soft break seen: the first character end at least HARD
      beyond `start`, with the position the section is cut at. */
  ghost function FindCut(text: seq<byte>, start: nat, idx: nat, last: Option<nat>): (r: Option<(nat, nat)>)
    requires IsText(text) && idx <= |text| && IsBoundary(text, idx)
    ensures r.Some? ==> idx < r.value.1 <= |text|
    decreases |text| - idx
  {
    if idx == |text| then None
    else
      NextChar(text, idx);
      var end, soft := CharEnd(text, idx), SoftAfter(text, idx, last);
      if end - start >= HARD then Some((SplitAt(soft, end), end)) else FindCut(text, start, end, soft)
  }

  /** A boundary at which a sentence or line ends. */
  ghost predicate IsSoftEnd(text: seq<byte>, e: nat) {
    exists i :: 0 <= i < e <= |text| && IsBoundary(text, i) && i + Width(text[i]) == e && IsSoftBoundary(text, i)
  }

  /** What FindCut means. The section ends at the LAST soft end read, if any was read, and otherwise where
      reading stopped: at the first character end that is HARD beyond the section's start. */
  ghost predicate IsCut(text: seq<byte>, start: nat, scan: nat, cut: nat, end: nat) {
    && scan < cut <= end <= |text| && IsBoundary(text, cut) && IsBoundary(text, end)
    && end - start >= HARD
    && (forall b :: scan < b < end && IsBoundary(text, b) ==> b - start < HARD)
    && (cut == end || IsSoftEnd(text, cut))
    && (forall b :: cut < b <= end ==> !IsSoftEnd(text, b))
    && ((exists b :: scan < b <= end && IsSoftEnd(text, b)) ==> IsSoftEnd(text, cut))
  }

  lemma SoftEndIs(text: seq<byte>, i: nat, e: nat)
    requires IsText(text) && i < |text| && IsBoundary(text, i) && i < e <= i + Width(text[i])
    ensures IsSoftEnd(text, e) <==> e == i + Width(text[i]) && IsSoftBoundary(text, i)
  {
    NextChar(text, i);
    if IsSoftEnd(text, e) {
      var j :| 0 <= j < e <= |text| && IsBoundary(text, j) && j + Width(text[j]) == e && IsSoftBoundary(text, j);
      NextChar(text, j);
    }
  }

  /** FindCut meets its meaning, given that `last` records the last soft end between scan and idx. */
  lemma {:induction false} FindCutMeaning(text: seq<byte>, start: nat, scan: nat, idx: nat, last: Option<nat>)
    requires IsText(text) && scan <= idx <= |text| && IsBoundary(text, idx)
    requires forall b :: scan < b <= idx && IsBoundary(text, b) ==> b - start < HARD
    requires last.Some? ==> scan < last.value <= idx && IsBoundary(text, last.value) && IsSoftEnd(text, last.value)
    requires forall b :: (if last.Some? then last.value else scan) < b <= idx ==> !IsSoftEnd(text, b)
    ensures var r := FindCut(text, start, idx, last);
      if r.Some? then IsCut(text, start, scan, r.value.0, r.value.1)
      else forall b :: scan < b <= |text| && IsBoundary(text, b) ==> b - start < HARD
    decreases |text| - idx
  {
    if idx < |text| {
      NextChar(text, idx);
      var end, soft := CharEnd(text, idx), SoftAfter(text, idx, last);
      forall e | idx < e <= end ensures IsSoftEnd(text, e) <==> e == end && IsSoftBoundary(text, idx) {
        SoftEndIs(text, idx, e);
      }
      if end - start < HARD {
        FindCutMeaning(text, start, scan, end, soft);
      }
    }
  }

  /** Where sections begin, from a state in which the current one began at `start` and reading is at `scan`. */
  ghost function Starts(text: seq<byte>, start: nat, scan: nat, made: nat): (marks: seq<nat>)
    requires IsText(text) && scan <= |text| && IsBoundary(text, scan)
    ensures marks != [] && marks[0] == start
    decreases |text| - scan
  {
    if made >= MAX_COUNT then [start]
    else
      FindCutMeaningAtScan(text, start, scan);
      var r := FindCut(text, start, scan, None);
      if r.None? then [start] else [start] + Starts(text, r.value.0, r.value.1, made + 1)
  }

  lemma FindCutMeaningAtScan(text: seq<byte>, start: nat, scan: nat)
    requires IsText(text) && scan <= |text| && IsBoundary(text, scan)
    ensures var r := FindCut(text, start, scan, None);
      if r.Some? then IsCut(text, start, scan, r.value.0, r.value.1)
      else forall b :: scan < b <= |text| && IsBoundary(text, b) ==> b - start < HARD
  {
    FindCutMeaning(text, start, scan, scan, None);
  }

  /** Closes the list of starts at the end of the text. Once MAX_COUNT sections exist, the last takes
      everything that is left. */
  ghost function Closed(length: nat, starts: seq<nat>): (marks: seq<nat>)
    requires starts != []
    ensures marks != []
  {
    if |starts| > MAX_COUNT then starts[..MAX_COUNT] + [length]
    else if starts[|starts| - 1] == length then starts
    else starts + [length]
  }

  /** The marks between which the sections lie: from 0 over every cut to the end of the text. */
  ghost function Marks(text: seq<byte>): (marks: seq<nat>)
    requires IsText(text)
    ensures marks != []
  {
    if text == [] then [0]
    else if |text| <= HARD then [0, |text|]
    else Closed(|text|, Starts(text, 0, 0, 0))
  }

  // ---------- Geometry of the cuts ----------

  ghost predicate Ascending(text: seq<byte>, marks: seq<nat>) {
    && (forall i :: 0 <= i < |marks| ==> marks[i] <= |text| && IsBoundary(text, marks[i]))
    && (forall i, j :: 0 <= i < j < |marks| ==> marks[i] < marks[j])
  }

  /** The distance from mark i to the d-th mark after it. */
  ghost function Gap(marks: seq<nat>, i: nat, d: nat): int
    requires i + d < |marks|
  {
    marks[i + d] as int - marks[i]
  }

  ghost predicate WellSpaced(text: seq<byte>, marks: seq<nat>) {
    && Ascending(text, marks)
    && (forall i :: 0 <= i < |marks| - 1 ==> Gap(marks, i, 1) <= HARD + 6)
    && (forall i :: 0 <= i < |marks| - 2 ==> Gap(marks, i, 2) > HARD)
    && (|marks| > 1 ==> |text| - marks[|marks| - 2] >= HARD)
  }

  /** A character is at most 4 bytes, so reading stops at most 3 bytes beyond HARD - or, right after a cut at
      an early soft break, at most 6. */
  lemma CutDistances(text: seq<byte>, start: nat, scan: nat, cut: nat, end: nat)
    requires IsText(text) && start <= scan <= |text| && IsBoundary(text, scan) && scan - start <= HARD + 2
    requires IsCut(text, start, scan, cut, end)
    ensures cut - start <= end - start <= HARD + 6 && end - cut <= HARD + 2
  {
    PreviousBoundary(text, scan, end);
    var p :| scan <= p < end && IsBoundary(text, p) && end - p <= 4 && forall b :: p < b < end ==> !IsBoundary(text, b);
    if p > scan {
      assert p - start < HARD;
    }
  }

  lemma {:induction false} PreviousBoundary(text: seq<byte>, scan: nat, end: nat)
    requires IsText(text) && scan < end <= |text| && IsBoundary(text, scan) && IsBoundary(text, end)
    ensures exists p :: scan <= p < end && IsBoundary(text, p) && end - p <= 4 && forall b :: p < b < end ==> !IsBoundary(text, b)
    decreases end - scan
  {
    NextChar(text, scan);
    var next := scan + Width(text[scan]);
    if next < end {
      PreviousBoundary(text, next, end);
    }
  }

  lemma StartsUnfold(text: seq<byte>, start: nat, scan: nat, made: nat, cut: nat, end: nat)
    requires IsText(text) && scan <= |text| && IsBoundary(text, scan) && made < MAX_COUNT
    requires FindCut(text, start, scan, None) == Some((cut, end))
    ensures IsCut(text, start, scan, cut, end)
    ensures scan < cut <= end <= |text| && IsBoundary(text, end) && IsBoundary(text, cut) && end - start >= HARD
    ensures Starts(text, start, scan, made) == [start] + Starts(text, cut, end, made + 1)
  {
    FindCutMeaningAtScan(text, start, scan);
  }

  /** Where no cut is found, little of the text is left. */
  lemma NoCutLeft(text: seq<byte>, start: nat, scan: nat)
    requires IsText(text) && start <= scan <= |text| && IsBoundary(text, scan) && scan - start <= HARD + 2
    requires FindCut(text, start, scan, None).None?
    ensures |text| - start <= HARD + 2
  {
    FindCutMeaningAtScan(text, start, scan);
    assert IsBoundary(text, |text|);
  }

  /** What holds of the starts made from a state: they are well spaced, the next cut lies behind `scan`,
      and unless the cap was reached little of the text is left after the last. */
  ghost predicate GoodStarts(text: seq<byte>, scan: nat, made: nat, marks: seq<nat>) {
    && marks != [] && WellSpaced(text, marks) && made + |marks| <= MAX_COUNT + 1
    && (|marks| > 1 ==> marks[1] > scan)
    && (made + |marks| <= MAX_COUNT ==> |text| - marks[|marks| - 1] <= HARD + 2)
  }

  lemma {:induction false} StartsAreGood(text: seq<byte>, start: nat, scan: nat, made: nat)
    requires IsText(text) && start <= scan <= |text| && IsBoundary(text, scan) && IsBoundary(text, start)
    requires scan - start <= HARD + 2 && made <= MAX_COUNT
    ensures GoodStarts(text, scan, made, Starts(text, start, scan, made))
    decreases |text| - scan
  {
    hide IsText, IsBoundary, FindCut, IsCut, GoodStarts;
    var r := FindCut(text, start, scan, None);
    if made < MAX_COUNT && r.Some? {
      var (cut, end) := r.value;
      StartsUnfold(text, start, scan, made, cut, end);
      CutDistances(text, start, scan, cut, end);
      StartsAreGood(text, cut, end, made + 1);
      PrependMark(text, start, scan, end, made, Starts(text, cut, end, made + 1));
    } else {
      if made < MAX_COUNT {
        NoCutLeft(text, start, scan);
      }
      SingleStart(text, start, scan, made);
    }
  }

  lemma SingleStart(text: seq<byte>, start: nat, scan: nat, made: nat)
    requires start <= |text| && IsBoundary(text, start) && made <= MAX_COUNT
    requires made < MAX_COUNT ==> |text| - start <= HARD + 2
    ensures GoodStarts(text, scan, made, [start])
  {
  }

  lemma PrependMark(text: seq<byte>, start: nat, scan: nat, end: nat, made: nat, rest: seq<nat>)
    requires GoodStarts(text, end, made + 1, rest) && IsBoundary(text, start)
    requires start <= scan < rest[0] <= end <= |text| && rest[0] - start <= HARD + 6 && end - start >= HARD
    ensures GoodStarts(text, scan, made, [start] + rest)
  {
    var marks := [start] + rest;
    forall i, j | 0 <= i < j < |marks| ensures marks[i] < marks[j] {
      if i == 0 {
        assert j == 1 || rest[0] < rest[j - 1];
      }
    }
    forall i | 0 <= i < |marks| - 2 ensures Gap(marks, i, 2) > HARD {
      if i > 0 {
        assert Gap(marks, i, 2) == Gap(rest, i - 1, 2);
      }
    }
    forall i | 0 <= i < |marks| - 1 ensures Gap(marks, i, 1) <= HARD + 6 {
      if i > 0 {
        assert Gap(marks, i, 1) == Gap(rest, i - 1, 1);
      }
    }
  }

  // ---------- The sections ----------

  /** The sections between consecutive marks. */
  ghost function Sections(text: seq<byte>, marks: seq<nat>): (ss: seq<Section>)
    requires marks != []
    ensures |ss| == |marks| - 1
  {
    var n := |marks| - 1;
    if n == 0 then [] else Sections(text, marks[..n]) + [SectionOf(text, marks[n - 1], marks[n])]
  }

  lemma {:induction false} SectionAt(text: seq<byte>, marks: seq<nat>, i: nat)
    requires i + 1 < |marks|
    ensures Sections(text, marks)[i] == SectionOf(text, marks[i], marks[i + 1])
    ensures Sections(text, marks)[..i] == Sections(text, marks[..i + 1])
  {
    hide SectionOf;
    var n := |marks| - 1;
    if i < n - 1 {
      SectionAt(text, marks[..n], i);
      assert marks[..n][..i + 1] == marks[..i + 1];
    }
  }

  function Concat(ss: seq<Section>): (bs: seq<byte>) {
    if ss == [] then [] else Concat(ss[..|ss| - 1]) + ss[|ss| - 1].content
  }

  lemma PrefixAscends(text: seq<byte>, marks: seq<nat>, n: nat)
    requires Ascending(text, marks) && n < |marks|
    ensures Ascending(text, marks[..n])
    ensures n > 0 ==> marks[n - 1] < marks[n] <= |text|
  {
  }

  lemma AppendAscends(text: seq<byte>, marks: seq<nat>)
    requires Ascending(text, marks) && marks != [] && marks[|marks| - 1] < |text|
    ensures Ascending(text, marks + [|text|])
  {
    var n := |marks| - 1;
    forall i | 0 <= i < |marks| ensures marks[i] < |text| {
      assert i == n || marks[i] < marks[n];
    }
  }

  lemma ClosedAscends(text: seq<byte>, starts: seq<nat>)
    requires WellSpaced(text, starts) && starts != [] && starts[0] == 0 && text != []
    ensures var marks := Closed(|text|, starts);
      Ascending(text, marks) && marks[0] == 0 && marks[|marks| - 1] == |text| && |marks| <= MAX_COUNT + 1
  {
    if |starts| > MAX_COUNT {
      PrefixAscends(text, starts, MAX_COUNT);
      AppendAscends(text, starts[..MAX_COUNT]);
    } else if starts[|starts| - 1] != |text| {
      AppendAscends(text, starts);
    }
  }

  lemma MarksAscend(text: seq<byte>)
    requires IsText(text)
    ensures Ascending(text, Marks(text)) && Marks(text)[0] == 0 && Marks(text)[|Marks(text)| - 1] == |text|
    ensures |Marks(text)| <= MAX_COUNT + 1
  {
    hide IsText, Closed, Starts;
    if |text| > HARD {
      StartsAreGood(text, 0, 0, 0);
      ClosedAscends(text, Starts(text, 0, 0, 0));
    }
  }

  /** The distances that the marks of a long text keep. */
  ghost predicate Spacing(marks: seq<nat>) {
    && (forall i :: 0 <= i < |marks| - 1 && (i < |marks| - 2 || |marks| <= MAX_COUNT) ==> Gap(marks, i, 1) <= HARD + 6)
    && (forall i :: 0 <= i < |marks| - 2 ==> Gap(marks, i, 2) >= HARD)
    && (forall i :: 0 <= i < |marks| - 3 ==> Gap(marks, i, 2) > HARD)
  }

  /** Putting a mark that is no nearer in the place of mark m leaves the gaps before it at least as wide. */
  lemma ReplacedGaps(starts: seq<nat>, m: nat, length: nat)
    requires m < |starts| && starts[m] <= length
    ensures var marks := starts[..m] + [length];
      && (forall i :: 0 <= i < m - 1 ==> Gap(marks, i, 1) == Gap(starts, i, 1))
      && (forall i :: 0 <= i < m - 1 ==> Gap(marks, i, 2) >= Gap(starts, i, 2))
  {
  }

  lemma ClosedSpacing(text: seq<byte>, starts: seq<nat>)
    requires WellSpaced(text, starts) && starts != []
    requires |starts| <= MAX_COUNT ==> |text| - starts[|starts| - 1] <= HARD + 2
    ensures Spacing(Closed(|text|, starts))
  {
    hide Ascending, Spacing;
    if |starts| > MAX_COUNT {
      ReplacedSpacing(text, starts);
    } else if starts[|starts| - 1] != |text| {
      AppendedSpacing(text, starts);
    } else {
      SpacedAlready(text, starts);
    }
  }

  lemma SpacedAlready(text: seq<byte>, starts: seq<nat>)
    requires WellSpaced(text, starts)
    ensures Spacing(starts)
  {
    hide Ascending, Gap;
  }

  lemma ReplacedSpacing(text: seq<byte>, starts: seq<nat>)
    requires WellSpaced(text, starts) && |starts| > MAX_COUNT
    ensures Spacing(starts[..MAX_COUNT] + [|text|])
  {
    ReplacedGaps(starts, MAX_COUNT, |text|);
    ReplacedPair(text, starts);
  }

  lemma ReplacedPair(text: seq<byte>, starts: seq<nat>)
    requires WellSpaced(text, starts) && |starts| > MAX_COUNT
    ensures Gap(starts[..MAX_COUNT] + [|text|], MAX_COUNT - 2, 2) >= HARD
  {
    assert Gap(starts, MAX_COUNT - 2, 2) >= HARD || MAX_COUNT == |starts| - 1;
  }

  lemma AppendedSpacing(text: seq<byte>, starts: seq<nat>)
    requires WellSpaced(text, starts) && 0 < |starts| <= MAX_COUNT
    requires |text| - starts[|starts| - 1] <= HARD + 2
    ensures Spacing(starts + [|text|])
  {
    hide Ascending;
    var marks, n := starts + [|text|], |starts|;
    forall i | 0 <= i < n - 2 ensures Gap(marks, i, 2) == Gap(starts, i, 2) {
    }
    forall i | 0 <= i < n - 1 ensures Gap(marks, i, 1) == Gap(starts, i, 1) {
    }
  }

  lemma {:induction false} SectionsConcat(text: seq<byte>, marks: seq<nat>)
    requires Ascending(text, marks) && marks != [] && marks[0] == 0
    ensures Concat(Sections(text, marks)) == text[..marks[|marks| - 1]]
  {
    hide IsBoundary, Sections, Concat, SectionOf;
    var n := |marks| - 1;
    if n == 0 {
      NoSections(text, marks);
    } else {
      SectionsConcat(text, marks[..n]);
      assert marks[n - 1] < marks[n];
      OneMoreSection(text, marks);
      assert text[..marks[n - 1]] + text[marks[n - 1]..marks[n]] == text[..marks[n]];
    }
  }

  lemma NoSections(text: seq<byte>, marks: seq<nat>)
    requires |marks| == 1
    ensures Concat(Sections(text, marks)) == [] == text[..0]
  {
  }

  lemma OneMoreSection(text: seq<byte>, marks: seq<nat>)
    requires |marks| > 1 && marks[|marks| - 2] <= marks[|marks| - 1] <= |text|
    ensures var n := |marks| - 1;
      Concat(Sections(text, marks)) == Concat(Sections(text, marks[..n])) + text[marks[n - 1]..marks[n]]
  {
  }

  /** The sections partition the text: in order, none empty, cut at character boundaries, at most 2048. */
  lemma SectionsPartition(text: seq<byte>)
    requires IsText(text)
    ensures Ascending(text, Marks(text))
    ensures var ss := Sections(text, Marks(text));
      && Concat(ss) == text && |ss| <= 2048
      && forall i :: 0 <= i < |ss| ==>
        && ss[i].content != [] && ss[i].contentLower == AsciiLower(ss[i].content)
        && IsBoundary(text, ss[i].offset) && ss[i].offset == |Concat(ss[..i])|
  {
    hide IsText, Closed, Starts, Marks, Concat, Sections;
    MarksAscend(text);
    var marks := Marks(text);
    var ss := Sections(text, marks);
    SectionsConcat(text, marks);
    assert text[..|text|] == text;
    forall i | 0 <= i < |ss|
      ensures ss[i].content != [] && IsBoundary(text, ss[i].offset) && ss[i].offset == |Concat(ss[..i])|
      ensures ss[i].contentLower == AsciiLower(ss[i].content)
    {
      SectionAt(text, marks, i);
      SectionsConcat(text, marks[..i + 1]);
      assert marks[i] < marks[i + 1];
    }
  }

  /** The bytes of section i and its successor. */
  function PairLength(ss: seq<Section>, i: nat): nat
    requires i + 1 < |ss|
  {
    |ss[i].content| + |ss[i + 1].content|
  }

  lemma SpacedSections(text: seq<byte>, marks: seq<nat>)
    requires Ascending(text, marks) && marks != []
    requires Spacing(marks) || |marks| == 1 || (|marks| == 2 && marks[1] <= HARD)
    ensures var ss := Sections(text, marks);
      && (forall i :: 0 <= i < |ss| && (i < |ss| - 1 || |ss| < MAX_COUNT) ==> |ss[i].content| <= HARD + 6)
      && (forall i :: 0 <= i < |ss| - 1 ==> PairLength(ss, i) >= HARD)
      && (forall i :: 0 <= i < |ss| - 2 ==> PairLength(ss, i) > HARD)
  {
    hide Sections;
    var ss := Sections(text, marks);
    forall i | 0 <= i < |ss| ensures |ss[i].content| == Gap(marks, i, 1) {
      SectionAt(text, marks, i);
      assert marks[i] < marks[i + 1];
    }
    forall i | 0 <= i < |ss| - 1 ensures PairLength(ss, i) == Gap(marks, i, 2) {
      assert |ss[i].content| == Gap(marks, i, 1) && |ss[i + 1].content| == Gap(marks, i + 1, 1);
    }
  }

  /** How long sections are. Only the last of 2048 sections can exceed 1406 bytes; any two neighbours
      together have at least 1400, and more than 1400 unless the second is the last. */
  lemma SectionLengths(text: seq<byte>)
    requires IsText(text)
    ensures Ascending(text, Marks(text))
    ensures var ss := Sections(text, Marks(text));
      && (forall i :: 0 <= i < |ss| && (i < |ss| - 1 || |ss| < 2048) ==> |ss[i].content| <= 1406)
      && (forall i :: 0 <= i < |ss| - 1 ==> PairLength(ss, i) >= 1400)
      && (forall i :: 0 <= i < |ss| - 2 ==> PairLength(ss, i) > 1400)
  {
    hide IsText, Closed, Starts, Spacing, Sections;
    MarksAscend(text);
    var marks := Marks(text);
    if |text| > HARD {
      StartsAreGood(text, 0, 0, 0);
      ClosedSpacing(text, Starts(text, 0, 0, 0));
    }
    SpacedSections(text, marks);
  }

  // ---------- Where sections end, in bytes ----------

  /** Behind a line feed, or behind a full stop, exclamation or question mark with white space or nothing after it. */
  predicate IsSoftBreak(text: seq<byte>, b: nat) {
    && 0 < b <= |text|
    && (|| text[b - 1] == 10
        || ((text[b - 1] == 46 || text[b - 1] == 33 || text[b - 1] == 63) && (b == |text| || IsWhitespaceAt(text, b))))
  }

  lemma SoftEndIsSoftBreak(text: seq<byte>, e: nat)
    requires IsText(text)
    ensures IsSoftEnd(text, e) <==> IsSoftBreak(text, e)
  {
    if IsSoftEnd(text, e) {
      var i :| 0 <= i < e <= |text| && IsBoundary(text, i) && i + Width(text[i]) == e && IsSoftBoundary(text, i);
    }
    if IsSoftBreak(text, e) {
      assert IsBoundary(text, e - 1) && Width(text[e - 1]) == 1 && IsSoftBoundary(text, e - 1);
    }
  }

  /** A section from a ends at c: at the last soft break within 1400 bytes, or, if there is none, at least 1400 bytes on. */
  ghost predicate IsSectionEnd(text: seq<byte>, a: nat, c: nat) {
    || (IsSoftBreak(text, c) && forall b :: c < b <= a + 1400 ==> !IsSoftBreak(text, b))
    || (c >= a + 1400 && forall b :: a < b <= c ==> !IsSoftBreak(text, b))
  }

  lemma CutIsSectionEnd(text: seq<byte>, start: nat, scan: nat, cut: nat, end: nat)
    requires IsText(text) && IsCut(text, start, scan, cut, end) && NoSoftBreak(text, start, scan)
    ensures IsSectionEnd(text, start, cut) && NoSoftBreak(text, cut, end)
  {
    hide IsText, IsBoundary, IsSoftBreak, IsSoftEnd;
    forall b: nat ensures IsSoftEnd(text, b) <==> IsSoftBreak(text, b) {
      SoftEndIsSoftBreak(text, b);
    }
  }

  ghost predicate NoSoftBreak(text: seq<byte>, lo: nat, hi: nat) {
    forall b :: lo < b <= hi ==> !IsSoftBreak(text, b)
  }

  lemma {:induction false} StartsAreEnds(text: seq<byte>, start: nat, scan: nat, made: nat, i: nat)
    requires IsText(text) && scan <= |text| && IsBoundary(text, scan) && NoSoftBreak(text, start, scan)
    requires i + 1 < |Starts(text, start, scan, made)|
    ensures var marks := Starts(text, start, scan, made); IsSectionEnd(text, marks[i], marks[i + 1])
    decreases |text| - scan
  {
    hide IsText, IsBoundary, FindCut, IsCut, IsSectionEnd, NoSoftBreak;
    var (cut, end) := FindCut(text, start, scan, None).value;
    StartsUnfold(text, start, scan, made, cut, end);
    CutIsSectionEnd(text, start, scan, cut, end);
    if i > 0 {
      StartsAreEnds(text, cut, end, made + 1, i - 1);
    }
  }

  /** Every section but the last ends at the last soft break within 1400 bytes of its beginning, or has none in it
      and at least 1400 bytes. */
  lemma SectionsEndRight(text: seq<byte>, i: nat)
    requires IsText(text) && i + 1 < |Sections(text, Marks(text))|
    ensures var ss := Sections(text, Marks(text)); IsSectionEnd(text, ss[i].offset, ss[i + 1].offset)
  {
    hide IsText, Starts, IsSectionEnd, Marks, Sections;
    var marks := Marks(text);
    SectionAt(text, marks, i);
    SectionAt(text, marks, i + 1);
    InnerMarksAreStarts(text, i);
    StartsAreEnds(text, 0, 0, 0, i);
  }

  /** What `chunk_sections` has to return: the content in pieces that are not empty, at most 2048 of them, at their
      recorded offsets on character boundaries, with lower-cased copies; short content in one piece; and each piece
      but the last ending where it should. */
  ghost predicate IsChunking(text: seq<byte>, ss: seq<Section>) {
    && Concat(ss) == text && |ss| <= 2048 && (|text| <= 1400 ==> |ss| <= 1)
    && (forall i :: 0 <= i < |ss| ==> IsPiece(text, ss, i))
    && (forall i :: 0 <= i < |ss| && (i < |ss| - 1 || |ss| < 2048) ==> |ss[i].content| <= 1406)
    && (forall i :: 0 <= i && i + 1 < |ss| ==> EndsRight(text, ss, i))
  }

  ghost predicate IsPiece(text: seq<byte>, ss: seq<Section>, i: nat)
    requires i < |ss|
  {
    && ss[i].content != [] && ss[i].contentLower == AsciiLower(ss[i].content)
    && ss[i].offset == |Concat(ss[..i])| && IsBoundary(text, ss[i].offset)
  }

  ghost predicate EndsRight(text: seq<byte>, ss: seq<Section>, i: nat)
    requires i + 1 < |ss|
  {
    IsSectionEnd(text, ss[i].offset, ss[i + 1].offset)
  }

  lemma SectionsAreChunking(text: seq<byte>)
    requires IsText(text)
    ensures IsChunking(text, Sections(text, Marks(text)))
  {
    hide IsText, Sections, Concat, IsSectionEnd, Starts, Closed, IsBoundary;
    var ss := Sections(text, Marks(text));
    SectionsPartition(text);
    SectionLengths(text);
    forall i | 0 <= i && i + 1 < |ss| ensures EndsRight(text, ss, i) {
      SectionsEndRight(text, i);
    }
  }

  lemma InnerMarksAreStarts(text: seq<byte>, i: nat)
    requires IsText(text) && i + 2 < |Marks(text)|
    ensures var marks, starts := Marks(text), Starts(text, 0, 0, 0);
      i + 1 < |starts| && marks[i] == starts[i] && marks[i + 1] == starts[i + 1]
  {
    hide IsText, Starts;
  }

  // ---------- The program ----------

  method PushSection(sections: seq<Section>, text: seq<byte>, start: nat, end: nat) returns (r: seq<Section>)
    requires start <= end <= |text|
    ensures r == if end <= start then sections else sections + [SectionOf(text, start, end)]
  {
    if end <= start {
      return sections;
    }
    return sections + [SectionOf(text, start, end)];
  }

  /** One more character: either the search for the cut goes on behind it, or it ends here. */
  lemma FindCutStep(text: seq<byte>, start: nat, idx: nat, last: Option<nat>)
    requires IsText(text) && idx < |text| && IsBoundary(text, idx)
    ensures var end, soft := CharEnd(text, idx), SoftAfter(text, idx, last);
      && idx < end <= |text| && IsBoundary(text, end)
      && FindCut(text, start, idx, last)
         == if end - start >= HARD then Some((SplitAt(soft, end), end)) else FindCut(text, start, end, soft)
  {
    NextChar(text, idx);
  }

  /** Closing the list of starts gives the last section the rest of the text, or a section of its own. */
  lemma ClosedSections(text: seq<byte>, starts: seq<nat>)
    requires starts != [] && |starts| <= MAX_COUNT + 1
    ensures var sections, start, n := Sections(text, starts), starts[|starts| - 1], |starts| - 1;
      Sections(text, Closed(|text|, starts))
      == if n >= MAX_COUNT then sections[..n - 1] + [SectionOf(text, starts[n - 1], |text|)]
         else if start == |text| then sections
         else sections + [SectionOf(text, start, |text|)]
  {
    hide Sections, SectionOf, Closed;
    var n := |starts| - 1;
    ClosedCases(|text|, starts);
    if n >= MAX_COUNT {
      ReplaceLast(text, starts, |text|);
    } else if starts[n] != |text| {
      AppendSection(text, starts, |text|);
    }
  }

  lemma ClosedCases(length: nat, starts: seq<nat>)
    requires starts != [] && |starts| <= MAX_COUNT + 1
    ensures var n := |starts| - 1;
      Closed(length, starts) ==
        if n >= MAX_COUNT then starts[..n] + [length] else if starts[n] == length then starts else starts + [length]
  {
  }

  lemma AppendSection(text: seq<byte>, marks: seq<nat>, end: nat)
    requires marks != []
    ensures Sections(text, marks + [end]) == Sections(text, marks) + [SectionOf(text, marks[|marks| - 1], end)]
  {
    hide SectionOf;
    assert (marks + [end])[..|marks|] == marks;
  }

  lemma ReplaceLast(text: seq<byte>, marks: seq<nat>, end: nat)
    requires |marks| > 1
    ensures var n := |marks| - 1;
      Sections(text, marks[..n] + [end]) == Sections(text, marks)[..n - 1] + [SectionOf(text, marks[n - 1], end)]
  {
    hide SectionOf;
    AppendSection(text, marks[..|marks| - 1], end);
  }

  method ChunkSections(text: seq<byte>) returns (sections: seq<Section>)
    requires IsText(text)
    ensures sections == Sections(text, Marks(text))
    ensures IsChunking(text, sections)
  {
    SectionsAreChunking(text);
    hide IsChunking;
    if text == [] {
      return [];
    }
    if |text| <= HARD {
      return [SectionOf(text, 0, |text|)];
    }
    sections := ChunkLong(text);
  }

  /** The state of the character loop: the sections made so far began at the marks `done`, the current one
      begins at `start`, and reading has gone from `scan`, where it stood when that section was opened, to
      `idx`, with `last` the last soft break seen since. */
  ghost predicate Reading(text: seq<byte>, done: seq<nat>, start: nat, scan: nat, idx: nat, last: Option<nat>)
    requires IsText(text)
  {
    && start <= scan <= idx <= |text| && IsBoundary(text, idx) && IsBoundary(text, scan)
    && Starts(text, 0, 0, 0) == done + Starts(text, start, scan, |done|)
    && FindCut(text, start, scan, None) == FindCut(text, start, idx, last)
  }

  lemma ReadingBegins(text: seq<byte>)
    requires IsText(text)
    ensures Reading(text, [], 0, 0, 0, None)
  {
    assert [] + Starts(text, 0, 0, 0) == Starts(text, 0, 0, 0);
  }

  lemma ReadingGoesOn(text: seq<byte>, done: seq<nat>, start: nat, scan: nat, idx: nat, last: Option<nat>)
    requires IsText(text) && Reading(text, done, start, scan, idx, last) && idx < |text|
    ensures var end, soft := CharEnd(text, idx), SoftAfter(text, idx, last);
      && idx < end <= |text|
      && (end - start < HARD ==> Reading(text, done, start, scan, end, soft))
  {
    hide IsText, Starts, FindCut, CharEnd, SoftAfter;
    FindCutStep(text, start, idx, last);
  }

  lemma ReadingCuts(text: seq<byte>, done: seq<nat>, start: nat, scan: nat, idx: nat, last: Option<nat>)
    requires IsText(text) && Reading(text, done, start, scan, idx, last) && idx < |text|
    requires |done| < MAX_COUNT && CharEnd(text, idx) - start >= HARD
    ensures var end := CharEnd(text, idx);
      var cut := SplitAt(SoftAfter(text, idx, last), end);
      start < cut <= |text| && Reading(text, done + [start], cut, end, end, None)
  {
    hide IsText, FindCut, CharEnd, SoftAfter, SplitAt, Starts, IsCut, IsBoundary;
    var end := CharEnd(text, idx);
    var cut := SplitAt(SoftAfter(text, idx, last), end);
    FindCutStep(text, start, idx, last);
    StartsUnfold(text, start, scan, |done|, cut, end);
    Regroup(done, start, Starts(text, cut, end, |done| + 1));
  }

  lemma Regroup(done: seq<nat>, start: nat, rest: seq<nat>)
    ensures done + ([start] + rest) == (done + [start]) + rest
  {
  }

  lemma ReadingEnds(text: seq<byte>, done: seq<nat>, start: nat, scan: nat, idx: nat, last: Option<nat>)
    requires IsText(text) && Reading(text, done, start, scan, idx, last)
    requires idx == |text| || |done| >= MAX_COUNT
    ensures Starts(text, 0, 0, 0) == done + [start]
  {
  }

  /** The character loop of `chunk_sections`. */
  method CutAll(text: seq<byte>) returns (sections: seq<Section>, chunkStart: nat)
    requires IsText(text)
    ensures var starts := Starts(text, 0, 0, 0); sections == Sections(text, starts) && chunkStart == starts[|starts| - 1]
  {
    sections, chunkStart := [], 0;
    var lastSoftBreak: Option<nat> := None;
    var idx: nat := 0;
    ghost var done: seq<nat> := [];
    ghost var scan: nat := 0;
    ReadingBegins(text);
    assert Sections(text, [] + [0]) == [];
    hide IsText, Starts, Sections, SectionOf, IsSoftBoundary, Reading, CharEnd;
    while idx < |text| && |sections| < MAX_COUNT
      invariant Reading(text, done, chunkStart, scan, idx, lastSoftBreak) && idx <= |text|
      invariant |sections| == |done| && sections == Sections(text, done + [chunkStart])
      decreases |text| - idx
    {
      ReadingGoesOn(text, done, chunkStart, scan, idx, lastSoftBreak);
      var charEnd := CharEnd(text, idx);
      var currentLen := charEnd - chunkStart;
      if currentLen >= HARD {
        ReadingCuts(text, done, chunkStart, scan, idx, lastSoftBreak);
      }
      if IsSoftBoundary(text, idx) {
        lastSoftBreak := Some(charEnd);
        if currentLen < SOFT {
          idx := charEnd;
          continue;
        }
      }
      if currentLen < HARD {
        idx := charEnd;
        continue;
      }
      var splitAt := if lastSoftBreak.Some? then lastSoftBreak.value else charEnd;
      if splitAt <= chunkStart {
        splitAt := charEnd;
      }
      AppendSection(text, done + [chunkStart], splitAt);
      sections := PushSection(sections, text, chunkStart, splitAt);
      done := done + [chunkStart];
      chunkStart := splitAt;
      lastSoftBreak := None;
      idx := charEnd;
      scan := charEnd;
    }
    ReadingEnds(text, done, chunkStart, scan, idx, lastSoftBreak);
  }

  /** `chunk_sections` for a text longer than one section. (The fallback for an empty list of sections is
      omitted: by now there is at least one.) */
  method ChunkLong(text: seq<byte>) returns (sections: seq<Section>)
    requires IsText(text) && |text| > HARD
    ensures sections == Sections(text, Marks(text))
  {
    ghost var starts := Starts(text, 0, 0, 0);
    StartsAreGood(text, 0, 0, 0);
    ClosedSections(text, starts);
    hide IsText, Starts, Sections, Closed;
    var chunkStart;
    sections, chunkStart := CutAll(text);
    if |sections| > 0 {
      SectionAt(text, starts, |sections| - 1);
    }
    if chunkStart < |text| {
      if |sections| >= MAX_COUNT {
        var last := sections[|sections| - 1];
        sections := sections[..|sections| - 1] + [SectionOf(text, last.offset, |text|)];
      } else {
        sections := PushSection(sections, text, chunkStart, |text|);
      }
    }
  }
}
