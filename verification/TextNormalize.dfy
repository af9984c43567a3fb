/** Cleaning, compacting and truncating text (memvid/src/text.rs). */
module TextNormalize {
  import opened Basics
  import opened Utf8

  // ---------- Characters ----------

  /** `char::is_control`: general category Cc. */
  predicate IsControl(c: char) {
    c as int < 0x20 || 0x7F <= c as int < 0xA0
  }

  /** `char::is_whitespace` */
  predicate IsWhitespace(c: char) {
    IsWhitespaceCode(c as int)
  }

  predicate IsVisible(c: char) {
    !IsControl(c) && !IsWhitespace(c)
  }

  /** `char::len_utf8` */
  function CharLen(c: char): (n: nat)
    ensures 1 <= n <= 4
  {
    var n := c as int;
    if n < 0x80 then 1 else if n < 0x800 then 2 else if n < 0x10000 then 3 else 4
  }

  /** The number of bytes in UTF-8. */
  lemma CharLenIsEncoded(c: char)
    ensures CharLen(c) == |EncodeChar(c as int)|
  {
  }

  function ByteLen(s: string): (n: nat)
    ensures n == 0 <==> s == ""
  {
    if s == "" then 0 else ByteLen(s[..|s| - 1]) + CharLen(s[|s| - 1])
  }

  /** Carriage returns become line feeds and tabs become spaces. */
  function Mapped(c: char): char {
    if c == '\r' then '\n' else if c == '\t' then ' ' else c
  }

  // ---------- The meaning of cleaning ----------

  /** What separates two visible characters in the input. */
  datatype Gap = Nothing | Blank | Break

  function GapText(g: Gap): string {
    match g
    case Nothing => ""
    case Blank => " "
    case Break => "\n"
  }

  /** A gap with one more character in it: a line break outweighs blanks, and control characters do not count. */
  function Widened(g: Gap, c: char): Gap
    requires !IsVisible(Mapped(c))
  {
    if Mapped(c) == '\n' then Break
    else if IsControl(Mapped(c)) || g == Break then g
    else Blank
  }

  /** The gap at the end of the text. */
  function TrailingGap(s: string): Gap {
    if s == "" then Nothing
    else
      var c := s[|s| - 1];
      if IsVisible(Mapped(c)) then Nothing else Widened(TrailingGap(s[..|s| - 1]), c)
  }

  /** The canonical form: the visible characters, with one line break where the gap between two of them holds
      one, one space where it holds only blanks, and nothing otherwise. */
  function Canonical(s: string): string {
    if s == "" then ""
    else
      var n := |s| - 1;
      var before := Canonical(s[..n]);
      if !IsVisible(Mapped(s[n])) then before
      else if before == "" then [Mapped(s[n])]
      else before + GapText(TrailingGap(s[..n])) + [Mapped(s[n])]
  }

  /** Only visible characters, ' ' and '\\n'; never two white space characters in a row; none at either end. */
  ghost predicate IsNormal(s: string) {
    && (forall i :: 0 <= i < |s| ==> IsVisible(s[i]) || s[i] == ' ' || s[i] == '\n')
    && (forall i, j :: 0 <= i && j == i + 1 && j < |s| ==> IsVisible(s[i]) || IsVisible(s[j]))
    && (s != "" ==> IsVisible(s[0]) && IsVisible(s[|s| - 1]))
  }

  lemma VisibleIsNotMapped(c: char)
    ensures IsVisible(c) ==> Mapped(c) == c
    ensures IsVisible(Mapped(c)) ==> IsVisible(c)
  {
  }

  lemma {:induction false} CanonicalIsNormal(s: string)
    ensures IsNormal(Canonical(s))
  {
    if s != "" {
      var n := |s| - 1;
      CanonicalIsNormal(s[..n]);
      if IsVisible(Mapped(s[n])) {
        AppendNormal(Canonical(s[..n]), TrailingGap(s[..n]), Mapped(s[n]));
      }
    }
  }

  lemma AppendNormal(s: string, g: Gap, c: char)
    requires IsNormal(s) && IsVisible(c)
    ensures IsNormal(if s == "" then [c] else s + GapText(g) + [c])
  {
  }

  /** A normal text is its own canonical form. */
  lemma {:induction false} NormalIsCanonical(s: string)
    requires forall i :: 0 <= i < |s| ==> IsVisible(s[i]) || s[i] == ' ' || s[i] == '\n'
    requires forall i, j :: 0 <= i && j == i + 1 && j < |s| ==> IsVisible(s[i]) || IsVisible(s[j])
    requires s != "" ==> IsVisible(s[0])
    ensures Canonical(s) + GapText(TrailingGap(s)) == s
    ensures s != "" ==> Canonical(s) != ""
    ensures s != "" && IsVisible(s[|s| - 1]) ==> TrailingGap(s) == Nothing
  {
    if s != "" {
      var n := |s| - 1;
      var rest, c := s[..n], s[n];
      NormalIsCanonical(rest);
      VisibleIsNotMapped(c);
      assert s == rest + [c];
      if !IsVisible(c) {
        assert n > 0 && IsVisible(s[n - 1]) && rest[|rest| - 1] == s[n - 1];
        assert TrailingGap(rest) == Nothing;
      }
    }
  }

  lemma CanonicalFixpoint(s: string)
    requires IsNormal(s)
    ensures Canonical(s) == s
  {
    NormalIsCanonical(s);
  }

  // ---------- What stands between two visible characters ----------

  predicate IsGap(s: string) {
    forall i :: 0 <= i < |s| ==> !IsVisible(s[i])
  }

  ghost predicate HasBreak(gap: string) {
    exists i :: 0 <= i < |gap| && (gap[i] == '\n' || gap[i] == '\r')
  }

  ghost predicate HasBlank(gap: string) {
    exists i :: 0 <= i < |gap| && IsBlank(gap[i])
  }

  predicate IsBlank(c: char) {
    c == '\t' || (IsWhitespace(c) && !IsControl(c))
  }

  /** Nothing, a blank or a line break: the separator that a gap between visible characters becomes. */
  ghost function Separator(gap: string): string {
    if HasBreak(gap) then "\n" else if HasBlank(gap) then " " else ""
  }

  lemma {:induction false} GapIs(a: string, gap: string)
    requires IsGap(gap) && TrailingGap(a) == Nothing
    ensures TrailingGap(a + gap) == if HasBreak(gap) then Break else if HasBlank(gap) then Blank else Nothing
    ensures Canonical(a + gap) == Canonical(a)
    decreases |gap|
  {
    if gap == "" {
      assert a + gap == a;
    } else {
      var n := |gap| - 1;
      var before, c := gap[..n], gap[n];
      GapIs(a, before);
      assert gap == before + [c] && (a + gap)[..|a + gap| - 1] == a + before;
      GapGrows(before, c);
      VisibleIsNotMapped(c);
      hide IsWhitespace;
    }
  }

  lemma GapGrows(gap: string, c: char)
    ensures HasBreak(gap + [c]) <==> HasBreak(gap) || c == '\n' || c == '\r'
    ensures HasBlank(gap + [c]) <==> HasBlank(gap) || IsBlank(c)
  {
    hide IsBlank;
    var longer := gap + [c];
    assert longer[|gap|] == c && forall i :: 0 <= i < |gap| ==> longer[i] == gap[i];
  }

  /** Behind a visible character, a gap and one more visible character: the gap becomes a line break exactly if it
      holds a line feed or a carriage return, otherwise a blank exactly if it holds a tab or white space that is no
      control character, and else nothing. */
  lemma GapBecomesSeparator(a: string, gap: string, c: char)
    requires a != "" && IsVisible(a[|a| - 1]) && IsGap(gap) && IsVisible(c)
    ensures Canonical(a + gap + [c]) == Canonical(a) + Separator(gap) + [c]
  {
    hide IsVisible;
    VisibleIsNotMapped(a[|a| - 1]);
    VisibleIsNotMapped(c);
    assert a == a[..|a| - 1] + [a[|a| - 1]];
    CanonicalStep(a[..|a| - 1], a[|a| - 1]);
    GapIs(a, gap);
    CanonicalStep(a + gap, c);
    assert Canonical(a) != "";
  }

  /** A gap at the beginning becomes nothing. */
  lemma LeadingGapVanishes(gap: string, c: char)
    requires IsGap(gap) && IsVisible(c)
    ensures Canonical(gap) == "" && Canonical(gap + [c]) == [c]
  {
    hide IsVisible;
    VisibleIsNotMapped(c);
    GapIs("", gap);
    assert "" + gap == gap;
    CanonicalStep(gap, c);
  }

  // ---------- The cleaning loop ----------

  predicate EndsWith(s: string, c: char) {
    s != "" && s[|s| - 1] == c
  }

  /** The loop's output so far: perhaps one leading separator, the canonical form, and the gap at the end. */
  ghost predicate CleanedIs(cleaned: string, s: string) {
    exists lead: Gap :: IsCleaned(cleaned, s, lead)
  }

  ghost predicate IsCleaned(cleaned: string, s: string, lead: Gap) {
    && cleaned == GapText(lead) + Canonical(s) + GapText(TrailingGap(s))
    && (Canonical(s) == "" ==> lead == Nothing)
  }

  lemma CanonicalStep(s: string, c: char)
    requires IsVisible(Mapped(c))
    ensures TrailingGap(s + [c]) == Nothing
    ensures Canonical(s + [c]) ==
      if Canonical(s) == "" then [Mapped(c)] else Canonical(s) + GapText(TrailingGap(s)) + [Mapped(c)]
  {
    hide IsVisible, GapText, Mapped;
    assert (s + [c])[..|s|] == s;
  }

  lemma VisibleStep(cleaned: string, s: string, c: char)
    requires CleanedIs(cleaned, s) && IsVisible(Mapped(c))
    ensures CleanedIs(cleaned + [Mapped(c)], s + [c]) && TrailingGap(s + [c]) == Nothing
  {
    hide Canonical, TrailingGap, IsVisible, Mapped;
    var lead :| IsCleaned(cleaned, s, lead);
    CanonicalStep(s, c);
    var next := cleaned + [Mapped(c)];
    if Canonical(s) == "" {
      assert next == GapText(TrailingGap(s)) + Canonical(s + [c]) + GapText(Nothing);
      assert IsCleaned(next, s + [c], TrailingGap(s));
    } else {
      assert next == GapText(lead) + Canonical(s + [c]) + GapText(Nothing);
      assert IsCleaned(next, s + [c], lead);
    }
  }

  /** A character that is not visible changes only the gap at the end. */
  lemma GapStep(cleaned: string, s: string, c: char, next: string)
    requires CleanedIs(cleaned, s) && !IsVisible(Mapped(c))
    requires var oldGap, newGap := GapText(TrailingGap(s)), GapText(Widened(TrailingGap(s), c));
      |cleaned| >= |oldGap| && next == cleaned[..|cleaned| - |oldGap|] + newGap
    ensures CleanedIs(next, s + [c]) && TrailingGap(s + [c]) == Widened(TrailingGap(s), c)
  {
    var lead :| IsCleaned(cleaned, s, lead);
    assert (s + [c])[..|s|] == s;
    assert cleaned[..|cleaned| - |GapText(TrailingGap(s))|] == GapText(lead) + Canonical(s);
    assert IsCleaned(next, s + [c], lead);
  }

  /** The gap is what the cleaned text ends with: canonical forms end with a visible character. */
  lemma GapIsTheEnd(cleaned: string, s: string)
    requires CleanedIs(cleaned, s)
    ensures var g := TrailingGap(s);
      && (EndsWith(cleaned, ' ') <==> g == Blank) && (EndsWith(cleaned, '\n') <==> g == Break)
      && |cleaned| >= |GapText(g)| && cleaned == cleaned[..|cleaned| - |GapText(g)|] + GapText(g)
      && !EndsWith(cleaned[..|cleaned| - |GapText(g)|], ' ')
  {
    var lead :| IsCleaned(cleaned, s, lead);
    CanonicalIsNormal(s);
  }

  lemma CleanedNothing()
    ensures CleanedIs("", "") && TrailingGap("") == Nothing
  {
    assert IsCleaned("", "", Nothing);
  }

  method Clean(s: string) returns (cleaned: string)
    ensures CleanedIs(cleaned, s)
  {
    hide CleanedIs, TrailingGap, IsWhitespace;
    cleaned := "";
    var lastWasSpace, lastWasNewline := false, false;
    CleanedNothing();
    for i := 0 to |s|
      invariant CleanedIs(cleaned, s[..i])
      invariant lastWasSpace <==> TrailingGap(s[..i]) == Blank
      invariant lastWasNewline <==> TrailingGap(s[..i]) == Break
    {
      ghost var before := cleaned;
      ghost var read := s[..i];
      assert s[..i + 1] == read + [s[i]];
      GapIsTheEnd(cleaned, read);
      var ch := Mapped(s[i]);
      if IsControl(ch) && ch != '\n' {
        GapStep(before, read, s[i], cleaned);
        continue;
      }
      if ch == '\n' {
        if lastWasNewline {
          GapStep(before, read, s[i], cleaned);
          continue;
        }
        ghost var g := GapText(TrailingGap(read));
        while EndsWith(cleaned, ' ')
          invariant cleaned == before || cleaned == before[..|before| - |g|]
          decreases |cleaned|
        {
          cleaned := cleaned[..|cleaned| - 1];
        }
        assert cleaned == before[..|before| - |g|];
        cleaned := cleaned + ['\n'];
        GapStep(before, read, s[i], cleaned);
        lastWasNewline := true;
        lastWasSpace := false;
      } else if IsWhitespace(ch) {
        if lastWasSpace || EndsWith(cleaned, '\n') {
          GapStep(before, read, s[i], cleaned);
          continue;
        }
        cleaned := cleaned + [' '];
        GapStep(before, read, s[i], cleaned);
        lastWasSpace := true;
        lastWasNewline := false;
      } else {
        cleaned := cleaned + [ch];
        VisibleStep(before, read, s[i]);
        lastWasSpace := false;
        lastWasNewline := false;
      }
    }
    assert s[..|s|] == s;
  }

  /** The only white space in the output is ' ' and '\\n', never two in a row, and no other control character is. */
  lemma CleanedIsCompact(cleaned: string, s: string)
    requires CleanedIs(cleaned, s)
    ensures forall i :: 0 <= i < |cleaned| ==> IsVisible(cleaned[i]) || cleaned[i] == ' ' || cleaned[i] == '\n'
    ensures forall i, j :: 0 <= i && j == i + 1 && j < |cleaned| ==> IsVisible(cleaned[i]) || IsVisible(cleaned[j])
  {
    hide Canonical, TrailingGap, IsVisible;
    var lead :| IsCleaned(cleaned, s, lead);
    CanonicalIsNormal(s);
    BlankIsTrailing(s);
  }

  lemma BlankIsTrailing(s: string)
    ensures Canonical(s) == "" ==> Canonical(s) + GapText(TrailingGap(s)) == GapText(TrailingGap(s))
  {
  }

  /** `trim_matches(char::is_whitespace)` */
  function Trim(s: string): string
    decreases |s|
  {
    if s == "" then ""
    else if IsWhitespace(s[0]) then Trim(s[1..])
    else if IsWhitespace(s[|s| - 1]) then Trim(s[..|s| - 1])
    else s
  }

  /** Trimmed, the output of the cleaning loop is the canonical form. */
  lemma TrimmedIsCanonical(cleaned: string, s: string)
    requires CleanedIs(cleaned, s)
    ensures Trim(cleaned) == Canonical(s)
  {
    var lead :| IsCleaned(cleaned, s, lead);
    CanonicalIsNormal(s);
    TrimAround(lead, Canonical(s), TrailingGap(s));
  }

  lemma TrimAround(lead: Gap, s: string, trail: Gap)
    requires IsNormal(s)
    ensures Trim(GapText(lead) + s + GapText(trail)) == s
  {
    hide IsNormal, IsWhitespace, Trim;
    var inner := s + GapText(trail);
    TrimEnd(s, GapText(trail));
    TrimStart(GapText(lead), inner);
    assert GapText(lead) + s + GapText(trail) == GapText(lead) + inner;
    GapIsWhite(lead);
    GapIsWhite(trail);
  }

  lemma GapIsWhite(g: Gap)
    ensures GapText(g) == "" || exists c | IsWhitespace(c) :: GapText(g) == [c]
  {
    assert IsWhitespace(' ') && IsWhitespace('\n');
  }

  lemma TrimStart(w: string, s: string)
    ensures w == "" || (exists c | IsWhitespace(c) :: w == [c]) ==> Trim(w + s) == Trim(s)
  {
    hide IsWhitespace;
    if w == "" {
      assert w + s == s;
    } else {
      assert |w| == 1 ==> (w + s)[0] == w[0] && (w + s)[1..] == s;
    }
  }

  lemma TrimEnd(s: string, w: string)
    requires IsNormal(s)
    ensures w == "" || (exists c | IsWhitespace(c) :: w == [c]) ==> Trim(s + w) == s
  {
    hide IsWhitespace;
    assert s != "" ==> !IsWhitespace(s[0]) && !IsWhitespace(s[|s| - 1]);
    assert Trim(s) == s;
    if w == "" {
      assert s + w == s;
    } else if s == "" {
      assert s + w == w + s;
      TrimStart(w, s);
    } else {
      assert |w| == 1 ==> (s + w)[0] == s[0] && (s + w)[|s|] == w[0] && (s + w)[..|s|] == s;
    }
  }

  // ---------- Truncation ----------

  function Flatten(gs: seq<string>): string {
    if gs == [] then "" else Flatten(gs[..|gs| - 1]) + gs[|gs| - 1]
  }

  /** Grapheme segmentation cuts a text into non-empty pieces. */
  ghost predicate IsSegmentation(graphemes: string -> seq<string>) {
    forall s :: Flatten(graphemes(s)) == s && forall i :: 0 <= i < |graphemes(s)| ==> graphemes(s)[i] != ""
  }

  lemma {:induction false} ByteLenConcat(a: string, b: string)
    ensures ByteLen(a + b) == ByteLen(a) + ByteLen(b)
    decreases |b|
  {
    if b == "" {
      assert a + b == a;
    } else {
      assert (a + b)[..|a + b| - 1] == a + b[..|b| - 1];
      ByteLenConcat(a, b[..|b| - 1]);
    }
  }

  /** How many graphemes from the first on fit into the limit together. */
  ghost function Fitting(gs: seq<string>, limit: nat, n: nat): (r: nat)
    requires n <= |gs|
    ensures n <= r <= |gs|
    decreases |gs| - n
  {
    if n < |gs| && ByteLen(Flatten(gs[..n + 1])) <= limit then Fitting(gs, limit, n + 1) else n
  }

  lemma {:induction false} FlattenGrows(gs: seq<string>, n: nat, m: nat)
    requires n <= m <= |gs|
    ensures ByteLen(Flatten(gs[..n])) <= ByteLen(Flatten(gs[..m]))
    decreases m
  {
    if n < m {
      FlattenGrows(gs, n, m - 1);
      assert gs[..m][..m - 1] == gs[..m - 1];
      ByteLenConcat(Flatten(gs[..m - 1]), gs[m - 1]);
    }
  }

  /** Everything fits exactly when the whole does; and what fits is the longest such prefix. */
  lemma {:induction false} FittingMeaning(gs: seq<string>, limit: nat, n: nat)
    requires n <= |gs| && ByteLen(Flatten(gs[..n])) <= limit
    ensures var r := Fitting(gs, limit, n);
      && ByteLen(Flatten(gs[..r])) <= limit
      && (forall m :: r < m <= |gs| ==> ByteLen(Flatten(gs[..m])) > limit)
      && (r == |gs| <==> ByteLen(Flatten(gs)) <= limit)
    decreases |gs| - n
  {
    assert gs[..|gs|] == gs;
    if n < |gs| {
      if ByteLen(Flatten(gs[..n + 1])) <= limit {
        FittingMeaning(gs, limit, n + 1);
      } else {
        forall m | n < m <= |gs| ensures ByteLen(Flatten(gs[..m])) > limit {
          FlattenGrows(gs, n + 1, m);
        }
      }
    }
  }

  /** The text kept under a limit: the graphemes that fit, and at least the first. */
  ghost function Kept(gs: seq<string>, limit: nat): string {
    var n := Fitting(gs, limit, 0);
    if n == 0 && gs != [] then gs[0] else Flatten(gs[..n])
  }

  datatype NormalizedText = NormalizedText(text: string, truncated: bool)

  /** What normalisation returns: the canonical form of the NFKC text, cut to the limit; nothing if that is empty. */
  ghost function Normalized(input: string, limit: nat, nfkc: string -> string, graphemes: string -> seq<string>): Option<NormalizedText> {
    var canonical := Canonical(nfkc(input));
    if canonical == "" then None
    else Some(NormalizedText(Kept(graphemes(canonical), Max(limit, 1)), ByteLen(canonical) > Max(limit, 1)))
  }

  method NormalizeText(input: string, limit: nat, nfkc: string -> string, graphemes: string -> seq<string>)
    returns (r: Option<NormalizedText>)
    requires IsSegmentation(graphemes)
    ensures r == Normalized(input, limit, nfkc, graphemes)
    ensures r.None? <==> Canonical(nfkc(input)) == ""
    ensures r.Some? ==>
      var canonical, bound := Canonical(nfkc(input)), Max(limit, 1);
      && "" < r.value.text <= canonical
      && (ByteLen(r.value.text) <= bound || r.value.text == graphemes(canonical)[0])
      && (r.value.truncated <==> ByteLen(canonical) > bound)
  {
    hide Kept, ByteLen, Canonical, Trim, CleanedIs;
    var bound := Max(limit, 1);
    var normalised := nfkc(input);
    var cleaned := Clean(normalised);
    TrimmedIsCanonical(cleaned, normalised);
    var trimmed := Trim(cleaned);
    if trimmed == "" {
      return None;
    }
    KeptIsPrefix(trimmed, bound, graphemes);
    var text, truncated := TakeGraphemes(graphemes(trimmed), bound);
    return Some(NormalizedText(text, truncated));
  }

  /** The truncation loop of `normalize_text`, with its fallback for a first grapheme over the limit. */
  method TakeGraphemes(gs: seq<string>, limit: nat) returns (out: string, truncated: bool)
    requires gs != [] && forall i :: 0 <= i < |gs| ==> gs[i] != ""
    ensures out == Kept(gs, limit) && truncated == (ByteLen(Flatten(gs)) > limit)
  {
    hide ByteLen, Flatten;
    truncated, out := false, "";
    var consumed := 0;
    FitsWhole(gs, limit);
    EmptyLength(gs);
    var n := 0;
    while n < |gs|
      invariant n <= |gs| && !truncated && out == Flatten(gs[..n]) && consumed == ByteLen(out) <= limit
      invariant Fitting(gs, limit, 0) == Fitting(gs, limit, n)
    {
      FlattenStep(gs, n);
      var next := consumed + ByteLen(gs[n]);
      if next > limit {
        truncated := true;
        break;
      }
      out := out + gs[n];
      consumed := next;
      n := n + 1;
    }
    FirstIsNotEmpty(gs, n);
    if out == "" {
      out := gs[0];
      truncated := true;
    }
  }

  lemma {:induction false} FirstIsNotEmpty(gs: seq<string>, n: nat)
    requires n <= |gs| && forall i :: 0 <= i < |gs| ==> gs[i] != ""
    ensures Flatten(gs[..n]) == "" <==> n == 0
  {
    if n > 0 {
      assert gs[..n][..n - 1] == gs[..n - 1];
    }
  }

  lemma KeptLength(gs: seq<string>, limit: nat)
    ensures var n := Fitting(gs, limit, 0);
      ByteLen(Kept(gs, limit)) == if n == 0 && gs != [] then ByteLen(gs[0]) else ByteLen(Flatten(gs[..n]))
  {
  }

  lemma FitsWhole(gs: seq<string>, limit: nat)
    ensures Fitting(gs, limit, 0) == |gs| <==> ByteLen(Flatten(gs)) <= limit
    ensures gs[..|gs|] == gs
  {
    FittingMeaning(gs, limit, 0);
  }

  lemma FlattenStep(gs: seq<string>, n: nat)
    requires n < |gs|
    ensures Flatten(gs[..n + 1]) == Flatten(gs[..n]) + gs[n]
    ensures ByteLen(Flatten(gs[..n + 1])) == ByteLen(Flatten(gs[..n])) + ByteLen(gs[n])
  {
    assert gs[..n + 1][..n] == gs[..n];
    ByteLenConcat(Flatten(gs[..n]), gs[n]);
  }

  lemma EmptyLength(gs: seq<string>)
    ensures gs[..0] == [] && Flatten(gs[..0]) == "" && ByteLen("") == 0
  {
  }

  lemma NoLengthAtStartOnly(gs: seq<string>, n: nat)
    requires n <= |gs| && forall i :: 0 <= i < |gs| ==> gs[i] != ""
    ensures ByteLen(Flatten(gs[..n])) == 0 <==> n == 0
  {
    FirstIsNotEmpty(gs, n);
  }

  /** A limit of 0 keeps what a limit of 1 keeps: the first grapheme. So the two truncations agree although only
      `normalize_text` raises the limit to 1. */
  lemma ZeroLimit(gs: seq<string>)
    requires forall i :: 0 <= i < |gs| ==> gs[i] != ""
    ensures Kept(gs, 0) == Kept(gs, 1)
  {
    hide Flatten, ByteLen, Fitting;
    EmptyLength(gs);
    FittingMeaning(gs, 0, 0);
    FittingMeaning(gs, 1, 0);
    var n, m := Fitting(gs, 0, 0), Fitting(gs, 1, 0);
    NoLengthAtStartOnly(gs, n);
    if gs != [] {
      FlattenFirst(gs);
    }
    TwoAreLonger(gs, m);
  }

  lemma TwoAreLonger(gs: seq<string>, m: nat)
    requires m <= |gs| && forall i :: 0 <= i < |gs| ==> gs[i] != ""
    ensures m > 1 ==> ByteLen(Flatten(gs[..m])) > 1
  {
    hide Flatten, ByteLen;
    if m > 1 {
      FlattenGrows(gs, 2, m);
      FlattenStep(gs, 1);
      NoLengthAtStartOnly(gs, 1);
      NonEmptyLength(gs[1]);
    }
  }

  lemma FlattenFirst(gs: seq<string>)
    requires gs != []
    ensures Flatten(gs[..1]) == gs[0]
  {
    assert gs[..1] == [gs[0]] && gs[..1][..0] == [];
  }

  lemma NonEmptyLength(s: string)
    ensures s != "" ==> ByteLen(s) > 0
  {
  }

  method TruncateAtGraphemeBoundary(s: string, limit: nat, graphemes: string -> seq<string>) returns (end: nat)
    requires IsSegmentation(graphemes)
    ensures end == ByteLen(Kept(graphemes(s), limit)) == ByteLen(Kept(graphemes(s), Max(limit, 1)))
  {
    hide ByteLen, Kept, Flatten;
    var gs := graphemes(s);
    ZeroLimit(gs);
    FitsWhole(gs, limit);
    KeptLength(gs, limit);
    NoLengthAtStartOnly(gs, |gs|);
    if ByteLen(s) <= limit {
      return ByteLen(s);
    }
    end := 0;
    var n := 0;
    NoLengthAtStartOnly(gs, 0);
    while n < |gs|
      invariant n <= |gs| && end == ByteLen(Flatten(gs[..n])) <= limit
      invariant Fitting(gs, limit, 0) == Fitting(gs, limit, n)
    {
      FlattenStep(gs, n);
      var next := end + ByteLen(gs[n]);
      if next > limit {
        break;
      }
      end := next;
      n := n + 1;
    }
    NoLengthAtStartOnly(gs, n);
    if end == 0 && gs != [] {
      end := ByteLen(gs[0]);
    }
  }

  // ---------- Laws of normalisation ----------

  /** An untruncated result is in normal form, and normalising it again changes nothing (if NFKC does not). */
  lemma UntruncatedIsFixpoint(input: string, limit: nat, nfkc: string -> string, graphemes: string -> seq<string>)
    requires IsSegmentation(graphemes)
    requires var r := Normalized(input, limit, nfkc, graphemes); r.Some? && !r.value.truncated && nfkc(r.value.text) == r.value.text
    ensures var r := Normalized(input, limit, nfkc, graphemes);
      IsNormal(r.value.text) && Normalized(r.value.text, limit, nfkc, graphemes) == r
  {
    hide Canonical, IsNormal, Kept, Flatten, ByteLen;
    var canonical := Canonical(nfkc(input));
    KeptWhole(graphemes(canonical), Max(limit, 1));
    CanonicalIsNormal(nfkc(input));
    CanonicalFixpoint(canonical);
  }

  lemma KeptWhole(gs: seq<string>, limit: nat)
    ensures ByteLen(Flatten(gs)) <= limit ==> Kept(gs, limit) == Flatten(gs)
  {
    FitsWhole(gs, limit);
  }

  /** Truncated or not, the result is a prefix of the canonical form, and exceeds the limit only if already its
      first grapheme does. */
  lemma KeptIsPrefix(s: string, limit: nat, graphemes: string -> seq<string>)
    requires IsSegmentation(graphemes)
    ensures var gs, kept := graphemes(s), Kept(graphemes(s), limit);
      kept <= s && (s != "" ==> kept != "") && (ByteLen(kept) <= limit || kept == gs[0])
  {
    var gs := graphemes(s);
    FittingMeaning(gs, limit, 0);
    var n := Fitting(gs, limit, 0);
    FirstIsNotEmpty(gs, n);
    FirstIsNotEmpty(gs, |gs|);
    assert gs[..|gs|] == gs;
    FlattenPrefix(gs, n, |gs|);
    if n == 0 && gs != [] {
      FlattenPrefix(gs, 1, |gs|);
      assert gs[..1] == [gs[0]] && gs[..1][..0] == [] && Flatten(gs[..1]) == gs[0];
    }
  }

  lemma {:induction false} FlattenPrefix(gs: seq<string>, n: nat, m: nat)
    requires n <= m <= |gs|
    ensures Flatten(gs[..n]) <= Flatten(gs[..m])
    decreases m
  {
    if n < m {
      FlattenPrefix(gs, n, m - 1);
      assert gs[..m][..m - 1] == gs[..m - 1];
    }
  }
}
