/**
 The phrase matcher of `classes/text_analyzer.py` (`EnhancedTextAnalyzer`):
 the exact tier (a case-insensitive literal search), the normalised tier
 (search in the lemmatised text, mapped back to original offsets by
 counting words), the gate of the semantic tier, and the tier order of
 `is_phrase_in_text`.
 */
module Matcher {
  import opened Options
  import opened Strings
  import opened Tokens
  import opened Morphology

  /** A `(start, end)` pair of character offsets into the original text. */
  datatype Span = Span(start: int, end: int)

  /** The `match_type` strings: "exact", "normalized", "semantic", "merged", "none". */
  datatype MatchKind = Exact | Normalized | Semantic | Merged | NoMatch

  /** The `(found, match_type, positions)` triple of `is_phrase_in_text`. */
  datatype MatchOutcome = MatchOutcome(found: bool, kind: MatchKind, spans: seq<Span>)

  /**
   The matcher's collaborators: the normaliser's capabilities, the fuzzy
   scorer (`fuzz.partial_ratio(a, b) / 100`), and the positions the semantic
   tier reports for a phrase and a text, which this model leaves unspecified.
   */
  datatype Engine = Engine(
    morph: Morph,
    similarity: (string, string) -> real,
    semanticSpans: (string, string) -> seq<Span>)

  /** The default `threshold` of `is_phrase_in_text`. */
  const DefaultThreshold: real := 0.85

  /* ---------------- exact tier ---------------- */

  /** `phrase` occurs at offset `i` of `text` under `re.IGNORECASE`. */
  predicate MatchesAt(m: Morph, phrase: string, text: string, i: int) {
    && 0 <= i
    && i + |phrase| <= |text|
    && forall k :: 0 <= k < |phrase| ==> m.fold(phrase[k]) == m.fold(text[i + k])
  }

  /**
   `finditer` of an escaped literal from offset `i`: after a match the scan
   resumes at its end, and after an empty match one character further on.
   */
  function FindFrom(m: Morph, phrase: string, text: string, i: nat): (r: seq<Span>)
    requires i <= |text| + 1
    ensures forall k :: 0 <= k < |r| ==>
              i <= r[k].start && r[k].end == r[k].start + |phrase| && MatchesAt(m, phrase, text, r[k].start)
    ensures forall a, b :: 0 <= a < b < |r| ==> r[a].end <= r[b].start && r[a].start < r[b].start
    decreases |text| + 1 - i
  {
    if i > |text| then []
    else if MatchesAt(m, phrase, text, i) then
      var next := if |phrase| == 0 then i + 1 else i + |phrase|;
      var rest := FindFrom(m, phrase, text, next);
      var r := [Span(i, i + |phrase|)] + rest;
      assert forall k :: 0 < k < |r| ==> r[k] == rest[k - 1];
      r
    else FindFrom(m, phrase, text, i + 1)
  }

  /** Offset `j` is the start of `sp` or lies strictly inside it. */
  predicate SpanCovers(sp: Span, j: int) {
    sp.start == j || sp.start < j < sp.end
  }

  /** Every occurrence at or after `i` is reported, or lies strictly inside a reported one. */
  ghost predicate CoversMatches(m: Morph, phrase: string, text: string, i: nat, r: seq<Span>) {
    forall j :: i <= j && MatchesAt(m, phrase, text, j) ==> exists k :: 0 <= k < |r| && SpanCovers(r[k], j)
  }

  lemma {:induction false} FindFromCoversAt(m: Morph, phrase: string, text: string, i: nat, j: int)
    requires i <= |text| + 1 && i <= j && MatchesAt(m, phrase, text, j)
    ensures exists k :: 0 <= k < |FindFrom(m, phrase, text, i)| && SpanCovers(FindFrom(m, phrase, text, i)[k], j)
    decreases |text| + 1 - i
  {
    if MatchesAt(m, phrase, text, i) {
      var next := if |phrase| == 0 then i + 1 else i + |phrase|;
      if next <= j {
        FindFromCoversAt(m, phrase, text, next, j);
      }
      CoversAfterMatch(m, phrase, text, i, j);
    } else {
      assert FindFrom(m, phrase, text, i) == FindFrom(m, phrase, text, i + 1);
      FindFromCoversAt(m, phrase, text, i + 1, j);
    }
  }

  /** A match at `i` covers `j` itself, or the scan resumed after it covers `j`. */
  lemma CoversAfterMatch(m: Morph, phrase: string, text: string, i: nat, j: int)
    requires i <= |text| + 1 && i <= j && MatchesAt(m, phrase, text, i)
    requires var next := if |phrase| == 0 then i + 1 else i + |phrase|;
             var rest := FindFrom(m, phrase, text, next);
             next <= j ==> exists k :: 0 <= k < |rest| && SpanCovers(rest[k], j)
    ensures exists k :: 0 <= k < |FindFrom(m, phrase, text, i)| && SpanCovers(FindFrom(m, phrase, text, i)[k], j)
  {
    var r := FindFrom(m, phrase, text, i);
    var next := if |phrase| == 0 then i + 1 else i + |phrase|;
    var rest := FindFrom(m, phrase, text, next);
    assert r == [Span(i, i + |phrase|)] + rest;
    if j < next {
      assert SpanCovers(r[0], j);
    } else {
      var k :| 0 <= k < |rest| && SpanCovers(rest[k], j);
      assert r[k + 1] == rest[k];
    }
  }

  lemma FindFromComplete(m: Morph, phrase: string, text: string, i: nat)
    requires i <= |text| + 1
    ensures CoversMatches(m, phrase, text, i, FindFrom(m, phrase, text, i))
  {
    forall j | i <= j && MatchesAt(m, phrase, text, j)
      ensures exists k :: 0 <= k < |FindFrom(m, phrase, text, i)| && SpanCovers(FindFrom(m, phrase, text, i)[k], j)
    {
      FindFromCoversAt(m, phrase, text, i, j);
    }
  }

  /**
   `find_exact_phrase_positions`: the non-overlapping case-insensitive
   occurrences of `phrase`, left to right. There is no word-boundary test
   and no special case for an empty phrase.
   */
  function ExactPositions(m: Morph, phrase: string, text: string): seq<Span> {
    FindFrom(m, phrase, text, 0)
  }

  /** The exact tier is sound, ordered, and misses no occurrence. */
  lemma ExactPositionsSpec(m: Morph, phrase: string, text: string)
    ensures forall k :: 0 <= k < |ExactPositions(m, phrase, text)| ==>
              var sp := ExactPositions(m, phrase, text)[k];
              0 <= sp.start && sp.end == sp.start + |phrase| <= |text| && MatchesAt(m, phrase, text, sp.start)
    ensures CoversMatches(m, phrase, text, 0, ExactPositions(m, phrase, text))
  {
    FindFromComplete(m, phrase, text, 0);
  }

  lemma {:induction false} FindFromEmpty(m: Morph, text: string, i: nat)
    requires i <= |text| + 1
    ensures |FindFrom(m, "", text, i)| == |text| + 1 - i
    ensures forall k :: 0 <= k < |FindFrom(m, "", text, i)| ==> FindFrom(m, "", text, i)[k] == Span(i + k, i + k)
    decreases |text| + 1 - i
  {
    if i <= |text| {
      assert MatchesAt(m, "", text, i);
      FindFromEmpty(m, text, i + 1);
      var rest := FindFrom(m, "", text, i + 1);
      assert FindFrom(m, "", text, i) == [Span(i, i)] + rest;
    }
  }

  /** An empty phrase is not rejected: it "occurs" as an empty span at every offset 0..|text|. */
  lemma ExactEmptyPhrase(m: Morph, text: string)
    ensures |ExactPositions(m, "", text)| == |text| + 1
    ensures forall k :: 0 <= k <= |text| ==> ExactPositions(m, "", text)[k] == Span(k, k)
  {
    FindFromEmpty(m, text, 0);
  }

  /* ---------------- normalised tier ---------------- */

  /**
   Maps one match `[mt.start, mt.end)` in the normalised text `nt` to
   original offsets: `start_idx` and `end_idx` count the whitespace-separated
   words before the match's start and end, and index the original tokens `tw`.
   */
  function MapMatch(nt: string, tw: seq<Token>, mt: Span): Option<Span>
    requires 0 <= mt.start <= mt.end <= |nt|
  {
    var si := WordCount(nt[..mt.start]);
    var ei := WordCount(nt[..mt.end]);
    if si < |tw| && ei <= |tw| then
      Some(Span(tw[si].start, if ei > 0 then tw[ei - 1].end else tw[|tw| - 1].end))
    else None
  }

  /**
   A mapped span starts at some token's start and ends at some token's end. It
   is inverted (`start > end`) exactly when the match starts and ends within
   the same word count and that count is positive, i.e. the match starts inside
   a word and does not reach past it.
   */
  lemma MapMatchSpec(nt: string, tw: seq<Token>, mt: Span)
    requires 0 <= mt.start <= mt.end <= |nt|
    requires forall a :: 0 <= a < |tw| ==> tw[a].start < tw[a].end
    requires forall a, b :: 0 <= a < b < |tw| ==> tw[a].end < tw[b].start
    ensures MapMatch(nt, tw, mt).Some? ==>
              var sp := MapMatch(nt, tw, mt).value;
              && (exists a :: 0 <= a < |tw| && sp.start == tw[a].start)
              && (exists b :: 0 <= b < |tw| && sp.end == tw[b].end)
              && (sp.start > sp.end <==> (WordCount(nt[..mt.start]) == WordCount(nt[..mt.end]) > 0))
  {
    var si := WordCount(nt[..mt.start]);
    var ei := WordCount(nt[..mt.end]);
    WordCountMonotone(nt, mt.start, mt.end);
    assert nt[..mt.end][..mt.start] == nt[..mt.start];
    if si < |tw| && ei <= |tw| {
      if ei == 0 {
        assert tw[0].start < tw[0].end <= tw[|tw| - 1].end;
      } else if si < ei - 1 {
        assert tw[si].end < tw[ei - 1].start;
      }
    }
  }

  /** The matches of `ms` that map to a span, each mapped, in match order. */
  function MapMatches(nt: string, tw: seq<Token>, ms: seq<Span>): (r: seq<Span>)
    requires forall k :: 0 <= k < |ms| ==> 0 <= ms[k].start <= ms[k].end <= |nt|
    ensures |r| <= |ms|
    ensures forall k :: 0 <= k < |r| ==> exists j :: 0 <= j < |ms| && MapMatch(nt, tw, ms[j]) == Some(r[k])
    ensures forall j :: 0 <= j < |ms| && MapMatch(nt, tw, ms[j]).Some? ==> MapMatch(nt, tw, ms[j]).value in r
  {
    if |ms| == 0 then []
    else
      var rest := MapMatches(nt, tw, ms[1..]);
      assert forall j :: 1 <= j < |ms| ==> ms[j] == ms[1..][j - 1];
      assert forall k :: 0 <= k < |rest| ==> exists j :: 0 <= j < |ms| && MapMatch(nt, tw, ms[j]) == Some(rest[k]) by {
        forall k | 0 <= k < |rest| ensures exists j :: 0 <= j < |ms| && MapMatch(nt, tw, ms[j]) == Some(rest[k]) {
          var j :| 0 <= j < |ms[1..]| && MapMatch(nt, tw, ms[1..][j]) == Some(rest[k]);
          assert ms[j + 1] == ms[1..][j];
        }
      }
      match MapMatch(nt, tw, ms[0])
      case Some(sp) =>
        var r := [sp] + rest;
        assert forall k :: 0 < k < |r| ==> r[k] == rest[k - 1];
        r
      case None => rest
  }

  /** `MapMatch` of each match, in match order. */
  function Mapped(nt: string, tw: seq<Token>, ms: seq<Span>): (os: seq<Option<Span>>)
    requires forall k :: 0 <= k < |ms| ==> 0 <= ms[k].start <= ms[k].end <= |nt|
    ensures |os| == |ms| && forall j :: 0 <= j < |ms| ==> os[j] == MapMatch(nt, tw, ms[j])
  {
    seq(|ms|, j requires 0 <= j < |ms| => MapMatch(nt, tw, ms[j]))
  }

  /** The spans are exactly the present mappings of the matches, in match order. */
  lemma {:induction false} MapMatchesSomes(nt: string, tw: seq<Token>, ms: seq<Span>)
    requires forall k :: 0 <= k < |ms| ==> 0 <= ms[k].start <= ms[k].end <= |nt|
    ensures MapMatches(nt, tw, ms) == Somes(Mapped(nt, tw, ms))
  {
    if |ms| > 0 {
      assert MapMatches(nt, tw, ms[1..]) == Somes(Mapped(nt, tw, ms[1..])) by {
        MapMatchesSomes(nt, tw, ms[1..]);
      }
      assert Mapped(nt, tw, ms)[1..] == Mapped(nt, tw, ms[1..]);
    }
  }

  /**
   Every match that maps to a span has that span in `r`, at the position
   given by the number of earlier matches that map: once each, in match order.
   */
  predicate RankOrdered(nt: string, tw: seq<Token>, ms: seq<Span>, r: seq<Span>)
    requires forall k :: 0 <= k < |ms| ==> 0 <= ms[k].start <= ms[k].end <= |nt|
  {
    forall j :: 0 <= j < |ms| && MapMatch(nt, tw, ms[j]).Some? ==>
      var rank := |Somes(Mapped(nt, tw, ms)[..j])|;
      rank < |r| && r[rank] == MapMatch(nt, tw, ms[j]).value
  }

  /** Every match that maps to a span contributes that span once, in match order. */
  lemma MapMatchesInOrder(nt: string, tw: seq<Token>, ms: seq<Span>)
    requires forall k :: 0 <= k < |ms| ==> 0 <= ms[k].start <= ms[k].end <= |nt|
    ensures RankOrdered(nt, tw, ms, MapMatches(nt, tw, ms))
  {
    MapMatchesSomes(nt, tw, ms);
    SomesRank(Mapped(nt, tw, ms));
  }

  /**
   `find_normalized_phrase_positions`: occurrences of the normalised phrase in
   the normalised text, each mapped to the original text's tokens (found on
   the text as given, not lower-cased); matches whose word indices fall
   outside the token list are dropped.
   */
  /** The matches of the normalised phrase in the normalised text, as `finditer` reports them. */
  function NormalizedMatches(m: Morph, phrase: string, text: string): (ms: seq<Span>)
    ensures forall k :: 0 <= k < |ms| ==> 0 <= ms[k].start <= ms[k].end <= |NormalizePhrase(m, text)|
  {
    FindFrom(m, NormalizePhrase(m, phrase), NormalizePhrase(m, text), 0)
  }

  /**
   `find_normalized_phrase_positions`: occurrences of the normalised phrase in
   the normalised text, each mapped to the original text's tokens (found on
   the text as given, not lower-cased); matches whose word indices fall
   outside the token list are dropped.
   */
  function NormalizedPositions(m: Morph, phrase: string, text: string): (r: seq<Span>)
    ensures |r| <= |NormalizedMatches(m, phrase, text)|
    ensures forall k :: 0 <= k < |r| ==>
              var tw := Tokenize(m.isWord, text);
              && (exists a :: 0 <= a < |tw| && r[k].start == tw[a].start)
              && (exists b :: 0 <= b < |tw| && r[k].end == tw[b].end)
              && 0 <= r[k].start <= |text| && 0 <= r[k].end <= |text|
    ensures var nt := NormalizePhrase(m, text);
            var ms := NormalizedMatches(m, phrase, text);
            forall j :: 0 <= j < |ms| && MapMatch(nt, Tokenize(m.isWord, text), ms[j]).Some? ==>
              MapMatch(nt, Tokenize(m.isWord, text), ms[j]).value in r
    ensures var nt := NormalizePhrase(m, text);
            var ms := NormalizedMatches(m, phrase, text);
            forall k :: 0 <= k < |r| ==> exists j :: 0 <= j < |ms| && MapMatch(nt, Tokenize(m.isWord, text), ms[j]) == Some(r[k])
    ensures r == Somes(Mapped(NormalizePhrase(m, text), Tokenize(m.isWord, text), NormalizedMatches(m, phrase, text)))
  {
    var nt := NormalizePhrase(m, text);
    var ms := NormalizedMatches(m, phrase, text);
    if |ms| == 0 then []
    else
      var tw := Tokenize(m.isWord, text);
      MapMatchesOnTokens(nt, tw, ms, |text|);
      MapMatchesSomes(nt, tw, ms);
      MapMatches(nt, tw, ms)
  }

  /**
   The normalised tier reports, for every match of the normalised phrase in
   the normalised text whose word counts fall inside the text's tokens, its
   mapped span, at the position given by the number of earlier such matches.
   */
  lemma NormalizedPositionsInOrder(m: Morph, phrase: string, text: string)
    ensures RankOrdered(NormalizePhrase(m, text), Tokenize(m.isWord, text), NormalizedMatches(m, phrase, text), NormalizedPositions(m, phrase, text))
  {
    var nt := NormalizePhrase(m, text);
    SomesRank(Mapped(nt, Tokenize(m.isWord, text), NormalizedMatches(m, phrase, text)));
  }

  /** Every mapped span starts at a token's start and ends at a token's end, so it lies within the tokens' range. */
  lemma MapMatchesOnTokens(nt: string, tw: seq<Token>, ms: seq<Span>, n: int)
    requires forall k :: 0 <= k < |ms| ==> 0 <= ms[k].start <= ms[k].end <= |nt|
    requires forall a :: 0 <= a < |tw| ==> 0 <= tw[a].start < tw[a].end <= n
    requires forall a, b :: 0 <= a < b < |tw| ==> tw[a].end < tw[b].start
    ensures forall k :: 0 <= k < |MapMatches(nt, tw, ms)| ==>
              var sp := MapMatches(nt, tw, ms)[k];
              && (exists a :: 0 <= a < |tw| && sp.start == tw[a].start)
              && (exists b :: 0 <= b < |tw| && sp.end == tw[b].end)
              && 0 <= sp.start <= n && 0 <= sp.end <= n
  {
    var r := MapMatches(nt, tw, ms);
    forall k | 0 <= k < |r|
      ensures && (exists a :: 0 <= a < |tw| && r[k].start == tw[a].start)
              && (exists b :: 0 <= b < |tw| && r[k].end == tw[b].end)
              && 0 <= r[k].start <= n && 0 <= r[k].end <= n
    {
      var j :| 0 <= j < |ms| && MapMatch(nt, tw, ms[j]) == Some(r[k]);
      MapMatchSpec(nt, tw, ms[j]);
    }
  }

  /* ---------------- semantic tier ---------------- */

  /**
   The gate in front of the semantic tier: at least three whitespace-separated
   words in the raw phrase, non-empty keyword sets on both sides, at least 70%
   of the phrase's keywords among the text's, and a fuzzy score of the two
   normalised strings reaching the threshold.
   */
  predicate SemanticGate(e: Engine, phrase: string, text: string, threshold: real) {
    var pk := Keywords(e.morph, phrase);
    var tk := Keywords(e.morph, text);
    && WordCount(phrase) >= 3
    && pk != {}
    && tk != {}
    && (|pk * tk| as real) / (|pk| as real) >= 0.7
    && e.similarity(NormalizePhrase(e.morph, phrase), NormalizePhrase(e.morph, text)) >= threshold
  }

  /* ---------------- the three tiers ---------------- */

  /**
   `is_phrase_in_text`: the first tier with a non-empty result wins, in the
   order exact, normalised, semantic; otherwise `(False, "none", [])`.
   */
  function IsPhraseInText(e: Engine, phrase: string, text: string, threshold: real): (r: MatchOutcome)
    ensures r.found <==> |r.spans| > 0
    ensures !r.found ==> r == MatchOutcome(false, NoMatch, [])
    ensures r.kind != Merged
    ensures r.kind == Exact <==> |ExactPositions(e.morph, phrase, text)| > 0
    ensures r.kind == Exact ==> r.spans == ExactPositions(e.morph, phrase, text)
    ensures r.kind == Normalized <==>
              |ExactPositions(e.morph, phrase, text)| == 0 && |NormalizedPositions(e.morph, phrase, text)| > 0
    ensures r.kind == Normalized ==> r.spans == NormalizedPositions(e.morph, phrase, text)
    ensures r.kind == Semantic ==>
              && |ExactPositions(e.morph, phrase, text)| == 0
              && |NormalizedPositions(e.morph, phrase, text)| == 0
              && SemanticGate(e, phrase, text, threshold)
              && r.spans == e.semanticSpans(phrase, text)
    ensures r.kind == Semantic <==>
              && |ExactPositions(e.morph, phrase, text)| == 0
              && |NormalizedPositions(e.morph, phrase, text)| == 0
              && WordCount(phrase) >= 3
              && SemanticGate(e, phrase, text, threshold)
              && |e.semanticSpans(phrase, text)| > 0
    ensures r.kind == NoMatch <==> !r.found
    ensures WordCount(phrase) < 3 ==> r.kind != Semantic
  {
    var exact := ExactPositions(e.morph, phrase, text);
    if |exact| > 0 then MatchOutcome(true, Exact, exact)
    else
      var normalized := NormalizedPositions(e.morph, phrase, text);
      if |normalized| > 0 then MatchOutcome(true, Normalized, normalized)
      else if WordCount(phrase) >= 3 && SemanticGate(e, phrase, text, threshold) && |e.semanticSpans(phrase, text)| > 0 then
        MatchOutcome(true, Semantic, e.semanticSpans(phrase, text))
      else MatchOutcome(false, NoMatch, [])
  }

  /**
   The exact tier ignores word boundaries: "ab" is found inside the single
   word "cab", whatever the rest of the engine does.
   */
  lemma ExactIgnoresWordBoundaries(e: Engine, threshold: real)
    requires e.morph.fold('c') != e.morph.fold('a')
    ensures IsPhraseInText(e, "ab", "cab", threshold) == MatchOutcome(true, Exact, [Span(1, 3)])
  {
    var m := e.morph;
    assert !MatchesAt(m, "ab", "cab", 0) by {
      assert "ab"[0] == 'a' && "cab"[0] == 'c';
    }
    assert MatchesAt(m, "ab", "cab", 1) by {
      assert "cab"[1] == 'a' && "cab"[2] == 'b';
    }
    assert FindFrom(m, "ab", "cab", 3) == [] by {
      assert !MatchesAt(m, "ab", "cab", 3);
      assert FindFrom(m, "ab", "cab", 4) == [];
    }
    assert ExactPositions(m, "ab", "cab") == [Span(1, 3)];
  }

  /**
   A lemmatiser that maps the word "ab" to "abx" (lower-casing and case
   folding are the identity, word characters are 'a'..'z').
   */
  function ExampleMorph(): Morph {
    Morph(c => 'a' <= c <= 'z', c => c, c => c, w => if w == "ab" then Some("abx") else Some(w))
  }

  lemma ExampleTextTokens()
    ensures Tokenize(ExampleMorph().isWord, "ab c") == [Token(0, 2), Token(3, 4)]
  {
    var isWord := ExampleMorph().isWord;
    var text := "ab c";
    assert RunEnd(isWord, text, 2) == 2;
    assert RunEnd(isWord, text, 0) == 2;
    assert RunEnd(isWord, text, 3) == 4;
    assert TokensFrom(isWord, text, 4) == [];
    assert TokensFrom(isWord, text, 3) == [Token(3, 4)];
    assert TokensFrom(isWord, text, 2) == [Token(3, 4)];
  }

  lemma ExampleTextWords()
    ensures PhraseWords(ExampleMorph(), "ab c") == ["ab", "c"]
  {
    var m := ExampleMorph();
    var text := "ab c";
    assert Lower(m, text) == text;
    ExampleTextTokens();
    var ws := TokenTexts(text, Tokenize(m.isWord, text));
    assert |ws| == 2;
    assert ws[0] == text[0..2] == "ab";
    assert ws[1] == text[3..4] == "c";
  }

  lemma ExampleTextLemmas()
    ensures NormalizeWords(ExampleMorph(), ["ab", "c"]) == ["abx", "c"]
  {
    var m := ExampleMorph();
    assert NormalizeWord(m, "ab") == "abx";
    assert NormalizeWord(m, "c") == "c";
  }

  lemma ExampleTextNormalized()
    ensures NormalizePhrase(ExampleMorph(), "ab c") == "abx c"
  {
    assert Join(["abx", "c"], " ") == "abx c" by {
      assert ["abx", "c"][1..] == ["c"];
    }
    ExampleTextWords();
    ExampleTextLemmas();
    NormalizePhraseFrom(ExampleMorph(), "ab c", ["ab", "c"], ["abx", "c"]);
  }

  lemma ExamplePhraseNormalized()
    ensures NormalizePhrase(ExampleMorph(), "x") == "x"
  {
    var m := ExampleMorph();
    assert RunEnd(m.isWord, "x", 0) == 1;
    assert TokensFrom(m.isWord, "x", 0) == [Token(0, 1)];
    assert Lower(m, "x") == "x";
    assert Words(m.isWord, "x") == ["x"] by {
      var ws := TokenTexts("x", [Token(0, 1)]);
      assert |ws| == 1;
      assert ws[0] == "x"[0..1] == "x";
    }
  }

  lemma ExampleNoExactMatch()
    ensures ExactPositions(ExampleMorph(), "x", "ab c") == []
  {
    var m := ExampleMorph();
    var text := "ab c";
    forall i | 0 <= i <= 4 ensures !MatchesAt(m, "x", text, i) {
      if i < 4 {
        assert m.fold("x"[0]) != m.fold(text[i + 0]);
      }
    }
    assert FindFrom(m, "x", text, 5) == [];
    assert FindFrom(m, "x", text, 4) == [];
    assert FindFrom(m, "x", text, 3) == [];
    assert FindFrom(m, "x", text, 2) == [];
    assert FindFrom(m, "x", text, 1) == [];
  }

  lemma ExampleNormalizedMatch()
    ensures FindFrom(ExampleMorph(), "x", "abx c", 0) == [Span(2, 3)]
  {
    var m := ExampleMorph();
    var nt := "abx c";
    forall i | 0 <= i <= 5 && i != 2 ensures !MatchesAt(m, "x", nt, i) {
      if i < 5 {
        assert m.fold("x"[0]) != m.fold(nt[i + 0]);
      }
    }
    assert MatchesAt(m, "x", nt, 2);
    assert FindFrom(m, "x", nt, 6) == [];
    assert FindFrom(m, "x", nt, 5) == [];
    assert FindFrom(m, "x", nt, 4) == [];
    assert FindFrom(m, "x", nt, 3) == [];
  }

  lemma ExampleMapMatch()
    ensures MapMatch("abx c", [Token(0, 2), Token(3, 4)], Span(2, 3)) == Some(Span(3, 2))
  {
    var nt := "abx c";
    assert nt[..2] == "ab" && nt[..3] == "abx";
    assert IsWordPiece("ab") && IsWordPiece("abx");
    RunsOfWordPiece("ab", true);
    RunsOfWordPiece("abx", true);
  }

  /**
   The normalised tier can report an inverted span: "x" does not occur in
   "ab c", but it occurs in the normalised text "abx c" inside the first
   lemma, one word in at both ends of the match, so the span runs from the
   start of the second token (3) to the end of the first (2).
   */
  lemma NormalizedTierInvertsSpan(e: Engine, threshold: real)
    requires e.morph == ExampleMorph()
    ensures IsPhraseInText(e, "x", "ab c", threshold) == MatchOutcome(true, Normalized, [Span(3, 2)])
  {
    var m := ExampleMorph();
    assert ExactPositions(m, "x", "ab c") == [] by {
      ExampleNoExactMatch();
    }
    assert NormalizedPositions(m, "x", "ab c") == [Span(3, 2)] by {
      ExampleTextTokens();
      ExampleTextNormalized();
      ExamplePhraseNormalized();
      ExampleNormalizedMatch();
      ExampleMapMatch();
      var tw := Tokenize(m.isWord, "ab c");
      assert MapMatches("abx c", tw, [Span(2, 3)]) == [Span(3, 2)];
    }
    NormalizedTierWins(e, "x", "ab c", threshold);
  }

  /** With no exact occurrence and some normalised one, the outcome is the normalised tier's positions. */
  lemma NormalizedTierWins(e: Engine, phrase: string, text: string, threshold: real)
    requires |ExactPositions(e.morph, phrase, text)| == 0 && |NormalizedPositions(e.morph, phrase, text)| > 0
    ensures IsPhraseInText(e, phrase, text, threshold) == MatchOutcome(true, Normalized, NormalizedPositions(e.morph, phrase, text))
  {
  }
}
