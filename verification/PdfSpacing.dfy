/** Joining words that PDF extraction has broken up (memvid/src/text.rs). */
module PdfSpacing {
  import opened Basics
  import opened TextNormalize

  // ---------- Words ----------

  /** `str::split_whitespace` */
  function Words(s: string): (ws: seq<string>)
    ensures s != "" && !IsWhitespace(s[|s| - 1]) ==> ws != []
  {
    if s == "" then []
    else
      var n := |s| - 1;
      var before := Words(s[..n]);
      if IsWhitespace(s[n]) then before
      else if n == 0 || IsWhitespace(s[n - 1]) then before + [[s[n]]]
      else before[..|before| - 1] + [before[|before| - 1] + [s[n]]]
  }

  /** `[String]::join(" ")` */
  function Join(ws: seq<string>): string {
    if ws == [] then ""
    else if |ws| == 1 then ws[0]
    else Join(ws[..|ws| - 1]) + " " + ws[|ws| - 1]
  }

  /** All characters of a text that are not white space, in order. */
  function Ink(s: string): string {
    if s == "" then ""
    else Ink(s[..|s| - 1]) + if IsWhitespace(s[|s| - 1]) then "" else [s[|s| - 1]]
  }

  predicate IsWord(w: string) {
    w != "" && forall i :: 0 <= i < |w| ==> !IsWhitespace(w[i])
  }

  lemma WordsStep(s: string, c: char)
    ensures var before := Words(s);
      Words(s + [c]) ==
        if IsWhitespace(c) then before
        else if s == "" || IsWhitespace(s[|s| - 1]) then before + [[c]]
        else before[..|before| - 1] + [before[|before| - 1] + [c]]
  {
    hide IsWhitespace;
    assert (s + [c])[..|s|] == s;
  }

  lemma InkStep(s: string, c: char)
    ensures Ink(s + [c]) == if IsWhitespace(c) then Ink(s) else Ink(s) + [c]
  {
    hide IsWhitespace;
    assert (s + [c])[..|s|] == s;
    assert Ink(s) + "" == Ink(s);
  }

  lemma FlattenSnoc(ws: seq<string>, w: string)
    ensures Flatten(ws + [w]) == Flatten(ws) + w
  {
    assert (ws + [w])[..|ws|] == ws;
  }

  lemma WordGrows(w: string, c: char)
    requires !IsWhitespace(c)
    ensures IsWord([c]) && (IsWord(w) ==> IsWord(w + [c]))
  {
    hide IsWhitespace;
  }

  lemma {:induction false} WordsAreWords(s: string)
    ensures forall i :: 0 <= i < |Words(s)| ==> IsWord(Words(s)[i])
    ensures Flatten(Words(s)) == Ink(s)
  {
    hide IsWhitespace, Words, IsWord, Ink, Flatten;
    if s == "" {
      NoWords();
    } else {
      var n := |s| - 1;
      var rest, c := s[..n], s[n];
      assert s == rest + [c];
      WordsAreWords(rest);
      WordsStep(rest, c);
      InkStep(rest, c);
      var before := Words(rest);
      if !IsWhitespace(c) {
        if rest == "" || IsWhitespace(rest[n - 1]) {
          FlattenSnoc(before, [c]);
          WordGrows("", c);
        } else {
          var m := |before| - 1;
          assert before == before[..m] + [before[m]];
          FlattenSnoc(before[..m], before[m]);
          FlattenSnoc(before[..m], before[m] + [c]);
          WordGrows(before[m], c);
        }
      }
    }
  }

  lemma {:induction false} WordsExtend(s: string, w: string)
    requires IsWord(w) && (s == "" || IsWhitespace(s[|s| - 1]))
    ensures Words(s + w) == Words(s) + [w]
    decreases |w|
  {
    hide IsWhitespace, Words;
    var n := |w| - 1;
    WordsStep(s + w[..n], w[n]);
    assert s + w == s + w[..n] + [w[n]];
    if n == 0 {
      assert s + w[..n] == s && w == [w[0]];
    } else {
      WordsExtend(s, w[..n]);
      assert w == w[..n] + [w[n]] && (s + w[..n])[|s + w[..n]| - 1] == w[n - 1];
    }
  }

  /** Joining words and splitting them again gives the words. */
  lemma {:induction false} JoinedSplits(ws: seq<string>)
    requires forall i :: 0 <= i < |ws| ==> IsWord(ws[i])
    ensures Words(Join(ws)) == ws
  {
    hide IsWhitespace, IsWord, Words;
    if |ws| == 0 {
      NoWords();
    } else if |ws| == 1 {
      NoWords();
      WordsExtend("", ws[0]);
      assert "" + ws[0] == ws[0];
    } else {
      var n := |ws| - 1;
      JoinedSplits(ws[..n]);
      SpaceAddsNoWord(Join(ws[..n]));
      WordsExtend(Join(ws[..n]) + " ", ws[n]);
    }
  }

  lemma NoWords()
    ensures Words("") == [] && Flatten([]) == "" == Ink("")
  {
  }

  lemma SpaceAddsNoWord(s: string)
    ensures Words(s + " ") == Words(s) && IsWhitespace((s + " ")[|s|])
  {
    assert s + " " == s + [' '] && IsWhitespace(' ');
    WordsStep(s, ' ');
  }

  // ---------- What is joined ----------

  const COMMON_WORDS: seq<string> := [
    "a", "an", "as", "at", "be", "by", "do", "go", "he", "if", "in", "is", "it", "me", "my",
    "no", "of", "on", "or", "so", "to", "up", "us", "we", "am", "are", "can", "did", "for",
    "get", "got", "had", "has", "her", "him", "his", "its", "let", "may", "nor", "not", "now",
    "off", "old", "one", "our", "out", "own", "ran", "run", "saw", "say", "see", "set", "she",
    "the", "too", "two", "use", "was", "way", "who", "why", "yet", "you", "all", "and", "any",
    "but", "few", "how", "man", "new", "per", "put", "via"]

  function AsciiLower(c: char): char {
    if 'A' <= c <= 'Z' then (c as int + 32) as char else c
  }

  function ToAsciiLower(s: string): string {
    seq(|s|, i requires 0 <= i < |s| => AsciiLower(s[i]))
  }

  predicate IsCommonWord(w: string) {
    ToAsciiLower(w) in COMMON_WORDS
  }

  predicate IsValidSingleChar(w: string) {
    w == "a" || w == "i" || w == "A" || w == "I"
  }

  /** `alphabetic` is `char::is_alphabetic`. */
  predicate IsPurelyAlpha(w: string, alphabetic: char -> bool) {
    w != "" && forall i :: 0 <= i < |w| ==> alphabetic(w[i])
  }

  function AlphaLen(w: string, alphabetic: char -> bool): nat {
    if w == "" then 0 else AlphaLen(w[..|w| - 1], alphabetic) + if alphabetic(w[|w| - 1]) then 1 else 0
  }

  predicate IsOrphan(w: string, alphabetic: char -> bool) {
    AlphaLen(w, alphabetic) == 1 && IsPurelyAlpha(w, alphabetic) && !IsValidSingleChar(w)
  }

  predicate IsShortFragment(w: string, alphabetic: char -> bool) {
    2 <= AlphaLen(w, alphabetic) <= 3 && IsPurelyAlpha(w, alphabetic) && !IsCommonWord(w)
  }

  predicate IsLikelySuffix(w: string, alphabetic: char -> bool) {
    AlphaLen(w, alphabetic) == 4 && IsPurelyAlpha(w, alphabetic) && !IsCommonWord(w)
  }

  predicate ShouldStartMerge(w: string, next: string, alphabetic: char -> bool) {
    && IsPurelyAlpha(w, alphabetic)
    && IsPurelyAlpha(next, alphabetic)
    && (|| IsOrphan(w, alphabetic)
        || IsOrphan(next, alphabetic)
        || (IsShortFragment(w, alphabetic) && (IsShortFragment(next, alphabetic) || IsLikelySuffix(next, alphabetic)))
        || (IsValidSingleChar(w) && AlphaLen(next, alphabetic) <= 3 && !IsCommonWord(next))
        || (IsCommonWord(w) && AlphaLen(w, alphabetic) <= 3
            && (IsShortFragment(next, alphabetic) || IsLikelySuffix(next, alphabetic))))
  }

  predicate ShouldContinueMerge(current: string, next: string, hadShortFragment: bool, alphabetic: char -> bool) {
    && hadShortFragment
    && IsPurelyAlpha(next, alphabetic)
    && (|| AlphaLen(next, alphabetic) <= 3
        || (AlphaLen(next, alphabetic) == 4 && !IsCommonWord(next) && AlphaLen(current, alphabetic) <= 5))
  }

  // ---------- Which words belong together ----------

  lemma {:induction false} AlphaLenIsLength(w: string, alphabetic: char -> bool)
    requires forall i :: 0 <= i < |w| ==> alphabetic(w[i])
    ensures AlphaLen(w, alphabetic) == |w|
  {
    if w != "" {
      AlphaLenIsLength(w[..|w| - 1], alphabetic);
    }
  }

  /** A word of two to `most` letters that is not common. */
  predicate IsUncommon(w: string, most: nat) {
    2 <= |w| <= most && !IsCommonWord(w)
  }

  /** A word of one letter other than a and i. */
  predicate IsLoneLetter(w: string) {
    |w| == 1 && w != "a" && w != "i" && w != "A" && w != "I"
  }

  /** Two words of letters begin a merge exactly if one of them is a lone letter; or the second is not common and has
      two to four letters while the first has two or three, or up to three letters behind "a" or "i", or up to four
      behind "a". So a longer first word never begins one with a second word of more than one letter. */
  lemma StartsByLength(w: string, next: string, alphabetic: char -> bool)
    requires IsPurelyAlpha(w, alphabetic) && IsPurelyAlpha(next, alphabetic)
    ensures ShouldStartMerge(w, next, alphabetic) <==>
      || IsLoneLetter(w) || IsLoneLetter(next)
      || (2 <= |w| <= 3 && IsUncommon(next, 4))
      || (|w| == 1 && |next| <= 3 && !IsCommonWord(next))
      || (|w| == 1 && IsCommonWord(w) && IsUncommon(next, 4))
  {
    hide IsCommonWord;
    AlphaLenIsLength(w, alphabetic);
    AlphaLenIsLength(next, alphabetic);
  }

  /** It can go on at all exactly if one of the two words it begins with is a lone letter, or an uncommon word of two
      or three letters, or the first is a single letter and the second has at most three. */
  lemma ShortByLength(w: string, next: string, alphabetic: char -> bool)
    requires IsPurelyAlpha(w, alphabetic) && IsPurelyAlpha(next, alphabetic)
    ensures BeginsShort(w, next, alphabetic) <==>
      || IsLoneLetter(w) || IsLoneLetter(next)
      || IsUncommon(w, 3) || IsUncommon(next, 3)
      || (|w| == 1 && |next| <= 3)
  {
    hide IsCommonWord;
    AlphaLenIsLength(w, alphabetic);
    AlphaLenIsLength(next, alphabetic);
  }

  /** A merge goes on through words of up to three letters, and through an uncommon one of four while it has no
      more than five itself. */
  lemma ContinuesByLength(current: string, next: string, short: bool, alphabetic: char -> bool)
    requires forall i :: 0 <= i < |current| ==> alphabetic(current[i])
    ensures ShouldContinueMerge(current, next, short, alphabetic) <==>
      && short && IsPurelyAlpha(next, alphabetic)
      && (|next| <= 3 || (|next| == 4 && |current| <= 5 && !IsCommonWord(next)))
  {
    hide IsCommonWord;
    AlphaLenIsLength(current, alphabetic);
    if IsPurelyAlpha(next, alphabetic) {
      AlphaLenIsLength(next, alphabetic);
    }
  }

  // ---------- The meaning of merging ----------

  predicate Starts(words: seq<string>, a: nat, alphabetic: char -> bool) {
    a + 1 < |words| && ShouldStartMerge(words[a], words[a + 1], alphabetic)
  }

  /** One of the two words that begin a merge looks like a piece of a word. */
  predicate BeginsShort(w: string, next: string, alphabetic: char -> bool) {
    || IsShortFragment(w, alphabetic) || IsShortFragment(next, alphabetic)
    || IsOrphan(w, alphabetic) || IsOrphan(next, alphabetic)
    || (IsValidSingleChar(w) && AlphaLen(next, alphabetic) <= 3)
  }

  /** Word i joins the merge that began at word a. Whether the merge has a short fragment is settled by its first
      two words: later ones join only if it has. */
  predicate Joins(words: seq<string>, a: nat, i: nat, alphabetic: char -> bool)
    requires a + 2 <= i < |words|
  {
    ShouldContinueMerge(Flatten(words[a..i]), words[i], BeginsShort(words[a], words[a + 1], alphabetic), alphabetic)
  }

  /** Words a to b - 1 form one group: a single word that starts no merge, or a merge that goes on as long as it can. */
  ghost predicate IsGroup(words: seq<string>, a: nat, b: nat, alphabetic: char -> bool) {
    && a < b <= |words|
    && (b == a + 1 <==> !Starts(words, a, alphabetic))
    && (b > a + 1 ==> (forall i :: a + 2 <= i < b ==> Joins(words, a, i, alphabetic))
                      && (b < |words| ==> !Joins(words, a, b, alphabetic)))
  }

  ghost predicate GroupAt(words: seq<string>, cuts: seq<nat>, output: seq<string>, g: nat, alphabetic: char -> bool)
    requires g + 1 < |cuts| && g < |output|
  {
    IsGroup(words, cuts[g], cuts[g + 1], alphabetic) && output[g] == Flatten(words[cuts[g]..cuts[g + 1]])
  }

  /** The output is the words of consecutive groups, each concatenated; group g begins at word cuts[g]. */
  ghost predicate IsMerging(words: seq<string>, cuts: seq<nat>, output: seq<string>, alphabetic: char -> bool) {
    && |cuts| == |output| + 1
    && cuts[0] == 0
    && (forall g: nat :: g < |output| ==> GroupAt(words, cuts, output, g, alphabetic))
  }

  ghost predicate Merges(words: seq<string>, output: seq<string>, alphabetic: char -> bool) {
    exists cuts: seq<nat> :: IsMerging(words, cuts, output, alphabetic) && cuts[|output|] == |words|
  }

  method MergeWords(words: seq<string>, alphabetic: char -> bool) returns (output: seq<string>)
    ensures Merges(words, output, alphabetic)
  {
    hide Starts, Joins, GroupAt, Flatten;
    output := [];
    var i := 0;
    ghost var cuts: seq<nat> := [0];
    while i < |words|
      invariant i <= |words| && IsMerging(words, cuts, output, alphabetic) && cuts[|output|] == i
    {
      ghost var a := i;
      var word := words[i];
      StartsMeaning(words, i, alphabetic);
      if i + 1 < |words| && ShouldStartMerge(word, words[i + 1], alphabetic) {
        var merged, short;
        merged, short, i := MergeRun(words, i, alphabetic);
        AddGroup(words, cuts, output, i, merged, alphabetic);
        output := output + [merged];
      } else {
        i := i + 1;
        FlattenOne(words, a);
        AddGroup(words, cuts, output, i, word, alphabetic);
        output := output + [word];
      }
      cuts := cuts + [i];
    }
  }

  lemma StartsMeaning(words: seq<string>, a: nat, alphabetic: char -> bool)
    ensures Starts(words, a, alphabetic) <==> a + 1 < |words| && ShouldStartMerge(words[a], words[a + 1], alphabetic)
  {
  }

  lemma AddGroup(words: seq<string>, cuts: seq<nat>, output: seq<string>, b: nat, merged: string, alphabetic: char -> bool)
    requires IsMerging(words, cuts, output, alphabetic) && IsGroup(words, cuts[|output|], b, alphabetic)
    requires merged == Flatten(words[cuts[|output|]..b])
    ensures IsMerging(words, cuts + [b], output + [merged], alphabetic)
  {
    hide IsGroup, Flatten;
    forall g: nat | g < |output| + 1 ensures GroupAt(words, cuts + [b], output + [merged], g, alphabetic) {
      assert g < |output| ==> GroupAt(words, cuts, output, g, alphabetic);
    }
  }

  /** The inner loop: from word a on, the longest run that joins. */
  method MergeRun(words: seq<string>, a: nat, alphabetic: char -> bool) returns (merged: string, short: bool, i: nat)
    requires Starts(words, a, alphabetic)
    ensures IsGroup(words, a, i, alphabetic) && i > a + 1 && merged == Flatten(words[a..i])
    ensures short == BeginsShort(words[a], words[a + 1], alphabetic)
  {
    hide ShouldStartMerge, IsShortFragment, IsOrphan, IsValidSingleChar;
    merged := words[a];
    short := BeginsShort(words[a], words[a + 1], alphabetic);
    FlattenOne(words, a);
    FlattenMore(words, a, a + 1);
    merged := merged + words[a + 1];
    i := a + 2;
    while i < |words| && ShouldContinueMerge(merged, words[i], short, alphabetic)
      invariant a + 2 <= i <= |words| && merged == Flatten(words[a..i])
      invariant short == BeginsShort(words[a], words[a + 1], alphabetic)
      invariant forall j :: a + 2 <= j < i ==> Joins(words, a, j, alphabetic)
    {
      if IsShortFragment(words[i], alphabetic) || IsOrphan(words[i], alphabetic) {
        short := true;
      }
      FlattenMore(words, a, i);
      merged := merged + words[i];
      i := i + 1;
    }
  }

  lemma FlattenOne(words: seq<string>, a: nat)
    requires a < |words|
    ensures Flatten(words[a..a + 1]) == words[a]
  {
    assert words[a..a + 1] == [words[a]] && [words[a]][..0] == [];
  }

  lemma FlattenMore(words: seq<string>, a: nat, b: nat)
    requires a <= b < |words|
    ensures Flatten(words[a..b + 1]) == Flatten(words[a..b]) + words[b]
  {
    assert words[a..b + 1][..b - a] == words[a..b];
  }

  // ---------- Laws of merging ----------

  lemma GroupEndIsUnique(words: seq<string>, a: nat, b: nat, c: nat, alphabetic: char -> bool)
    requires IsGroup(words, a, b, alphabetic) && IsGroup(words, a, c, alphabetic)
    ensures b == c
  {
    hide Starts, Joins;
  }

  /** Merging is a function of the words. */
  lemma {:induction false} CutsAreUnique(words: seq<string>, cuts: seq<nat>, output: seq<string>,
                                         cuts': seq<nat>, output': seq<string>, n: nat, alphabetic: char -> bool)
    requires IsMerging(words, cuts, output, alphabetic) && IsMerging(words, cuts', output', alphabetic)
    requires n <= |output| && n <= |output'|
    ensures cuts[..n + 1] == cuts'[..n + 1] && output[..n] == output'[..n]
  {
    hide IsGroup, Flatten;
    if n > 0 {
      CutsAreUnique(words, cuts, output, cuts', output', n - 1, alphabetic);
      assert cuts[n - 1] == cuts[..n][n - 1] == cuts'[n - 1];
      assert GroupAt(words, cuts, output, n - 1, alphabetic) && GroupAt(words, cuts', output', n - 1, alphabetic);
      GroupEndIsUnique(words, cuts[n - 1], cuts[n], cuts'[n], alphabetic);
      assert cuts[..n + 1] == cuts[..n] + [cuts[n]] && cuts'[..n + 1] == cuts'[..n] + [cuts'[n]];
      assert output[..n] == output[..n - 1] + [output[n - 1]] && output'[..n] == output'[..n - 1] + [output'[n - 1]];
    }
  }

  lemma MergesIsUnique(words: seq<string>, output: seq<string>, output': seq<string>, alphabetic: char -> bool)
    requires Merges(words, output, alphabetic) && Merges(words, output', alphabetic)
    ensures output == output'
  {
    hide IsGroup, Flatten;
    var cuts: seq<nat> :| IsMerging(words, cuts, output, alphabetic) && cuts[|output|] == |words|;
    var cuts': seq<nat> :| IsMerging(words, cuts', output', alphabetic) && cuts'[|output'|] == |words|;
    var n := Min(|output|, |output'|);
    CutsAreUnique(words, cuts, output, cuts', output', n, alphabetic);
    assert cuts[..n + 1][n] == cuts'[..n + 1][n];
    GroupsAreNotEmpty(words, cuts, output, alphabetic, n);
    GroupsAreNotEmpty(words, cuts', output', alphabetic, n);
    assert output[..|output|] == output && output'[..|output'|] == output';
  }

  lemma GroupsAreNotEmpty(words: seq<string>, cuts: seq<nat>, output: seq<string>, alphabetic: char -> bool, n: nat)
    requires IsMerging(words, cuts, output, alphabetic) && n <= |output|
    ensures n < |output| ==> cuts[n] < |words|
  {
    assert n < |output| ==> GroupAt(words, cuts, output, n, alphabetic);
  }

  /** No character is lost, added or moved. */
  lemma {:induction false} MergingKeepsText(words: seq<string>, cuts: seq<nat>, output: seq<string>, n: nat,
                                            alphabetic: char -> bool)
    requires IsMerging(words, cuts, output, alphabetic) && n <= |output|
    ensures cuts[n] <= |words| && Flatten(output[..n]) == Flatten(words[..cuts[n]])
  {
    hide Starts, Joins;
    if n > 0 {
      MergingKeepsText(words, cuts, output, n - 1, alphabetic);
      assert GroupAt(words, cuts, output, n - 1, alphabetic);
      assert output[..n][..n - 1] == output[..n - 1];
      FlattenSplit(words, cuts[n - 1], cuts[n]);
    }
  }

  lemma {:induction false} FlattenSplit(words: seq<string>, a: nat, b: nat)
    requires a <= b <= |words|
    ensures Flatten(words[..b]) == Flatten(words[..a]) + Flatten(words[a..b])
    decreases b
  {
    if a < b {
      FlattenSplit(words, a, b - 1);
      FlattenMore(words, a, b - 1);
      assert words[..b][..b - 1] == words[..b - 1];
    }
  }

  /** A word is in some group. */
  lemma {:induction false} WordHasGroup(words: seq<string>, cuts: seq<nat>, output: seq<string>, n: nat, i: nat,
                                        alphabetic: char -> bool) returns (g: nat)
    requires IsMerging(words, cuts, output, alphabetic) && n <= |output| && i < cuts[n]
    ensures g < |output| && cuts[g] <= i < cuts[g + 1]
  {
    if i < cuts[n - 1] {
      g := WordHasGroup(words, cuts, output, n - 1, i, alphabetic);
    } else {
      g := n - 1;
    }
  }

  /** Output word g is input word i, with the same text before it and behind it. */
  ghost predicate StandsFor(words: seq<string>, output: seq<string>, g: nat, i: nat) {
    && g < |output| && i < |words| && output[g] == words[i]
    && Flatten(output[..g]) == Flatten(words[..i]) && Flatten(output[g + 1..]) == Flatten(words[i + 1..])
  }

  /** A word that is not purely alphabetic stays a word of its own, in its place. */
  lemma OtherWordsSurvive(words: seq<string>, output: seq<string>, i: nat, alphabetic: char -> bool)
    requires Merges(words, output, alphabetic) && i < |words| && !IsPurelyAlpha(words[i], alphabetic)
    ensures exists g: nat :: StandsFor(words, output, g, i)
  {
    hide Starts, Joins, IsPurelyAlpha, Flatten;
    var cuts: seq<nat> :| IsMerging(words, cuts, output, alphabetic) && cuts[|output|] == |words|;
    var g := WordHasGroup(words, cuts, output, |output|, i, alphabetic);
    var a, b := cuts[g], cuts[g + 1];
    assert GroupAt(words, cuts, output, g, alphabetic);
    GroupIsAlpha(words, a, b, i, alphabetic);
    assert a == i && b == i + 1;
    FlattenOne(words, a);
    MergingKeepsText(words, cuts, output, g, alphabetic);
    MergingKeepsText(words, cuts, output, |output|, alphabetic);
    assert output[..|output|] == output && words[..|words|] == words;
    FlattenAround(words, i);
    FlattenAround(output, g);
    SameRest(Flatten(words[..i]) + words[i], Flatten(output[g + 1..]), Flatten(words[i + 1..]));
    assert StandsFor(words, output, g, i);
  }

  lemma SameRest(a: string, b: string, c: string)
    ensures a + b == a + c ==> b == c
  {
    assert (a + b)[|a|..] == b && (a + c)[|a|..] == c;
  }

  lemma FlattenAround(words: seq<string>, i: nat)
    requires i < |words|
    ensures Flatten(words) == (Flatten(words[..i]) + words[i]) + Flatten(words[i + 1..])
  {
    assert words[..|words|] == words;
    FlattenSplit(words, i + 1, |words|);
    assert words[i + 1..|words|] == words[i + 1..];
    FlattenMore(words, 0, i);
    assert words[0..i + 1] == words[..i + 1] && words[0..i] == words[..i];
  }

  lemma GroupIsAlpha(words: seq<string>, a: nat, b: nat, i: nat, alphabetic: char -> bool)
    requires IsGroup(words, a, b, alphabetic) && a <= i < b
    ensures b == a + 1 || IsPurelyAlpha(words[i], alphabetic)
  {
    hide AlphaLen, IsOrphan, IsShortFragment, IsLikelySuffix, IsCommonWord, IsValidSingleChar, BeginsShort, Flatten;
    if b > a + 1 {
      assert Starts(words, a, alphabetic);
      assert i >= a + 2 ==> Joins(words, a, i, alphabetic);
    }
  }

  // ---------- The whole function ----------

  method FixPdfSpacing(input: string, alphabetic: char -> bool) returns (r: string)
    ensures ByteLen(input) < 3 || ' ' !in input || |Words(input)| < 2 ==> r == input
    ensures ByteLen(input) >= 3 && ' ' in input && |Words(input)| >= 2 ==> Merges(Words(input), Words(r), alphabetic)
    ensures Ink(r) == Ink(input)
  {
    if ByteLen(input) < 3 || ' ' !in input {
      return input;
    }
    var words := Words(input);
    if |words| < 2 {
      return input;
    }
    var output := MergeWords(words, alphabetic);
    r := Join(output);
    WordsAreWords(input);
    MergedSplits(words, output, alphabetic);
    WordsAreWords(r);
  }

  lemma MergedSplits(words: seq<string>, output: seq<string>, alphabetic: char -> bool)
    requires Merges(words, output, alphabetic) && forall i :: 0 <= i < |words| ==> IsWord(words[i])
    ensures Words(Join(output)) == output && Flatten(output) == Flatten(words)
  {
    hide IsWord, Starts, Joins, Words, Join, Flatten;
    var cuts: seq<nat> :| IsMerging(words, cuts, output, alphabetic) && cuts[|output|] == |words|;
    MergingKeepsText(words, cuts, output, |output|, alphabetic);
    assert output[..|output|] == output && words[..|words|] == words;
    forall g | 0 <= g < |output| ensures IsWord(output[g]) {
      assert GroupAt(words, cuts, output, g, alphabetic);
      GroupIsWord(words, cuts[g], cuts[g + 1]);
    }
    JoinedSplits(output);
  }

  lemma {:induction false} GroupIsWord(words: seq<string>, a: nat, b: nat)
    requires a < b <= |words| && forall i :: 0 <= i < |words| ==> IsWord(words[i])
    ensures IsWord(Flatten(words[a..b]))
    decreases b
  {
    if a + 1 == b {
      FlattenOne(words, a);
    } else {
      GroupIsWord(words, a, b - 1);
      FlattenMore(words, a, b - 1);
    }
  }
}
