/** From the chunked document over the search to the snippets: every hit that is handled is shown. */
module SnippetsOfMatches {
  import opened Basics
  import opened Sorting
  import opened Utf8
  import opened LexChunks
  import opened LexMatches
  import opened LexIndex
  import opened Windows
  import opened Snippets

  /** What `tokenize` makes: a text that does not begin with a blank. */
  ghost predicate IsToken(token: seq<byte>)
    requires token != []
  {
    IsText(token) && !IsAsciiWhitespace(token[0])
  }

  /** Both are of the same length, with lead bytes of the same width and continuation bytes in the same places. */
  ghost predicate SameShape(text: seq<byte>, other: seq<byte>) {
    |text| == |other| && forall i :: 0 <= i < |text| ==> SameKind(text[i], other[i])
  }

  predicate SameKind(a: byte, b: byte) {
    IsContinuation(a) == IsContinuation(b) && Width(a) == Width(b) && IsAsciiWhitespace(a) == IsAsciiWhitespace(b)
  }

  /** Lower-casing ASCII moves no character boundary. */
  lemma LowerKeepsShape(text: seq<byte>)
    ensures SameShape(text, AsciiLower(text))
  {
  }

  lemma SameKinds(text: seq<byte>, other: seq<byte>, i: nat)
    requires SameShape(text, other) && i < |text|
    ensures SameKind(text[i], other[i])
  {
  }

  /** Where a text occurs in another text, it ends at a character boundary if it begins at one. */
  lemma {:induction false} TextEndsAtBoundary(text: seq<byte>, lower: seq<byte>, token: seq<byte>, i: nat)
    requires IsText(text) && IsText(token) && i + |token| <= |text| && IsBoundary(text, i)
    requires |lower| == |text| && SameShape(text, lower) && lower[i..i + |token|] == token
    ensures IsBoundary(text, i + |token|)
    decreases |token|
  {
    hide IsText, SameShape, Width, IsBoundary;
    if token != [] {
      var w := Width(token[0]);
      assert lower[i] == lower[i..i + |token|][0] == token[0];
      SameKinds(text, lower, i);
      NextBoundary(text, i);
      RestIsText(token);
      PartOfPart(lower, i, i + |token|, w, |token|);
      assert token[w..] == token[w..|token|];
      TextEndsAtBoundary(text, lower, token[w..], i + w);
    }
  }

  lemma NextBoundary(text: seq<byte>, i: nat)
    requires IsText(text) && i < |text| && IsBoundary(text, i)
    ensures i + Width(text[i]) <= |text| && IsBoundary(text, i + Width(text[i]))
  {
    hide IsText, IsBoundary;
    NextChar(text, i);
  }

  lemma RestIsText(token: seq<byte>)
    requires IsText(token) && token != []
    ensures var w := Width(token[0]); w <= |token| && IsText(token[w..])
  {
  }

  /** An occurrence of a token in the lower-cased text spans whole characters of the text. */
  lemma MatchSpansCharacters(text: seq<byte>, token: seq<byte>, i: nat)
    requires IsText(text) && token != [] && IsToken(token) && MatchAt(AsciiLower(text), token, i)
    ensures IsTokenAt(text, (i, i + |token|))
  {
    hide AsciiLower, SameShape, IsText;
    var lower := AsciiLower(text);
    LowerKeepsShape(text);
    assert lower[i] == lower[i..i + |token|][0] == token[0];
    SameKinds(text, lower, i);
    TokenBegins(token);
    TextEndsAtBoundary(text, lower, token, i);
  }

  lemma TokenBegins(token: seq<byte>)
    requires IsText(token) && token != []
    ensures !IsContinuation(token[0])
  {
    assert token[..Width(token[0])][0] == token[0];
  }

  lemma {:induction false} GreedyAreMatches(haystack: seq<byte>, needle: seq<byte>, i: nat)
    requires needle != [] && i in Greedy(haystack, needle, 0)
    ensures MatchAt(haystack, needle, i)
  {
    GreedyIsDisjoint(haystack, needle, 0);
    assert i in AsSet(Greedy(haystack, needle, 0));
  }

  lemma {:induction false} SpansAreTokens(text: seq<byte>, tokens: seq<seq<byte>>, o: Occurrence)
    requires IsText(text) && forall k :: 0 <= k < |tokens| ==> tokens[k] != [] && IsToken(tokens[k])
    requires o in AllSpans(tokens, AsciiLower(text))
    ensures IsTokenAt(text, o)
  {
    hide IsText, IsToken, IsTokenAt, Greedy, AsciiLower;
    var n := |tokens| - 1;
    if o in AllSpans(tokens[..n], AsciiLower(text)) {
      SpansAreTokens(text, tokens[..n], o);
    } else {
      var starts := Greedy(AsciiLower(text), tokens[n], 0);
      var spans := Spans(starts, |tokens[n]|);
      assert o in spans;
      var k :| 0 <= k < |spans| && spans[k] == o;
      assert starts[k] in starts;
      GreedyAreMatches(AsciiLower(text), tokens[n], starts[k]);
      MatchSpansCharacters(text, tokens[n], starts[k]);
    }
  }

  /** The occurrences a search reports for a section, shown as snippets of that section: each one handled
      before the cap on snippets lies wholly inside a slice. */
  lemma SearchHitsAreShown(text: seq<byte>, tokens: seq<seq<byte>>, window: nat, cap: nat, i: nat)
    requires IsText(text) && forall k :: 0 <= k < |tokens| ==> tokens[k] != [] && IsToken(tokens[k])
    requires i < Handled(text, StableSort(AllSpans(tokens, AsciiLower(text)), StartsEarlier), window, cap, 0)
    ensures var occurrences := StableSort(AllSpans(tokens, AsciiLower(text)), StartsEarlier);
      Shown(occurrences[i], Slices(text, occurrences, window, cap))
  {
    var spans := AllSpans(tokens, AsciiLower(text));
    var occurrences := StableSort(spans, StartsEarlier);
    assert IsOrder(StartsEarlier);
    SortSorts(spans, StartsEarlier);
    SameMembers(spans, StartsEarlier);
    hide AllSpans, StableSort, Slices, IsTokenAt;
    forall k | 0 <= k < |occurrences| ensures IsTokenAt(text, occurrences[k]) {
      assert occurrences[k] in spans;
      SpansAreTokens(text, tokens, occurrences[k]);
    }
    forall j, k | 0 <= j < k < |occurrences| ensures occurrences[j].0 <= occurrences[k].0 {
      assert StartsEarlier(occurrences[j], occurrences[k]);
    }
    HandledOccurrencesAreShown(text, occurrences, window, cap, i);
  }

  lemma {:induction false} PrefixIsText(bs: seq<byte>, i: nat)
    requires IsText(bs) && i <= |bs| && IsBoundary(bs, i)
    ensures IsText(bs[..i])
  {
    if i > 0 {
      CharThenText(bs);
      var w := Width(bs[0]);
      if i >= w {
        assert i > w && i < |bs| ==> bs[w..][i - w] == bs[i];
        PrefixIsText(bs[w..], i - w);
        assert bs[..i][..w] == bs[..w] && bs[..i][w..] == bs[w..][..i - w];
      }
    }
  }

  /** Every section of a document is itself a text, with the lower-cased content the search runs on. */
  lemma SectionsAreTexts(text: seq<byte>, i: nat)
    requires IsText(text) && i < |Sections(text, Marks(text))|
    ensures var s := Sections(text, Marks(text))[i]; IsText(s.content) && s.contentLower == AsciiLower(s.content)
  {
    MarksAscend(text);
    var marks := Marks(text);
    SectionAt(text, marks, i);
    hide Marks, Sections;
    var a, b := marks[i], marks[i + 1];
    assert a < b;
    PrefixIsText(text, b);
    assert IsBoundary(text[..b], a);
    TextFrom(text[..b], a);
    assert text[..b][a..] == text[a..b];
  }

  /** The document was chunked from a text. */
  ghost predicate IsChunked(d: Document) {
    exists text :: IsText(text) && d.sections == Sections(text, Marks(text))
  }

  lemma ChunkedSection(d: Document, s: Section)
    requires IsChunked(d) && s in d.sections
    ensures IsText(s.content) && s.contentLower == AsciiLower(s.content)
  {
    var text :| IsText(text) && d.sections == Sections(text, Marks(text));
    var i :| 0 <= i < |d.sections| && d.sections[i] == s;
    SectionsAreTexts(text, i);
  }

  /** From the chunked documents over the search and the ranking to the snippets: whatever match a query returns,
      each of its occurrences that is handled before the cap lies wholly inside a snippet of the match. */
  lemma MatchesAreShown(docs: seq<Document>, tokens: seq<seq<byte>>, uriFilter: Option<seq<byte>>, scopeFilter: Option<seq<byte>>,
                        m: LexMatch, window: nat, cap: nat, i: nat)
    requires forall k :: 0 <= k < |docs| ==> IsChunked(docs[k])
    requires forall k :: 0 <= k < |tokens| ==> tokens[k] != [] && IsToken(tokens[k])
    requires m in Ranked(Hits(docs, tokens, uriFilter, scopeFilter))
    requires i < Handled(m.content, m.occurrences, window, cap, 0)
    ensures IsText(m.content) && Shown(m.occurrences[i], Slices(m.content, m.occurrences, window, cap))
  {
    hide IsChunked, IsToken, Hits, Ranked, Handled, Slices, Shown, SectionMatches, Passes;
    var hits := Hits(docs, tokens, uriFilter, scopeFilter);
    RankedAreHits(hits, m);
    HitsAre(docs, tokens, uriFilter, scopeFilter, m);
    var d, s :| d in docs && Passes(d, uriFilter, scopeFilter) && s in d.sections
      && SectionMatches(tokens, s.contentLower) && m == MatchOf(d, s, tokens);
    ChunkedSection(d, s);
    SearchHitsAreShown(s.content, tokens, window, cap, i);
  }
}
