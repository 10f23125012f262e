/**
 `TextAnalyzer` of `classes/text_analyzer.py`: the analysis of one utterance
 against a list of dictionaries (which dictionaries apply to which speaker,
 which phrases matched, one highlight per matched position), its result
 cache, and the batch analysis of a conversation.
 */
module Analyzer {
  import opened Options
  import opened Seqs
  import opened Strings
  import opened Matcher
  import opened Highlights
  import opened Conversation

  /** A dictionary as the analyzer receives it: `id`, `name`, `type`, `phrases`, `color`. */
  datatype Dictionary = Dictionary(id: int, name: string, dictType: string, phrases: seq<string>, colour: Option<string>)

  /**
   An `AnalysisResult`: the matched phrases per dictionary id, the highlights
   in discovery order, and the rendered text. The always-empty `rude_words`,
   `greetings` and `other_matches` fields are not modelled.
   */
  datatype AnalysisResult = AnalysisResult(matched: map<int, seq<string>>, highlights: seq<Highlight>, rendered: seq<Piece>)

  /** A dictionary typed "client" applies only to the client, one typed "operator" only to the operator, any other to both. */
  predicate Applies(dictType: string, speaker: string) {
    !((dictType == Client && speaker != Client) || (dictType == Operator && speaker != Operator))
  }

  /** The outcome the analyzer obtains for one phrase: the matcher with its default threshold. */
  function Outcome(e: Engine, phrase: string, text: string): MatchOutcome {
    IsPhraseInText(e, phrase, text, DefaultThreshold)
  }

  /** One highlight per position of a found phrase, in position order. */
  function HighlightsFor(d: Dictionary, phrase: string, o: MatchOutcome): (hs: seq<Highlight>)
    ensures |hs| == |o.spans|
    ensures forall i :: 0 <= i < |hs| ==>
              hs[i] == Highlight(phrase, o.spans[i].start, o.spans[i].end, d.name, d.id, d.colour, o.kind)
  {
    seq(|o.spans|, i requires 0 <= i < |o.spans| => Highlight(phrase, o.spans[i].start, o.spans[i].end, d.name, d.id, d.colour, o.kind))
  }

  /** The phrase loop for one dictionary: the found phrases, in order, and their highlights. */
  function ScanPhrases(e: Engine, d: Dictionary, phrases: seq<string>, text: string): (r: (seq<string>, seq<Highlight>))
    decreases |phrases|
  {
    if |phrases| == 0 then ([], [])
    else
      var p := phrases[0];
      var o := Outcome(e, p, text);
      var rest := ScanPhrases(e, d, phrases[1..], text);
      if o.found then ([p] + rest.0, HighlightsFor(d, p, o) + rest.1) else rest
  }

  /** `h` was produced for phrase `p` of dictionary `d` at one of the positions the matcher reported. */
  ghost predicate HighlightOf(e: Engine, d: Dictionary, text: string, h: Highlight) {
    && h.phrase in d.phrases
    && h.dictId == d.id && h.dictName == d.name && h.colour == d.colour
    && Outcome(e, h.phrase, text).found
    && h.kind == Outcome(e, h.phrase, text).kind
    && Span(h.start, h.end) in Outcome(e, h.phrase, text).spans
  }

  /** `h` is a highlight of phrase `p` of dictionary `d` at `sp`. */
  predicate HighlightAt(h: Highlight, d: Dictionary, p: string, sp: Span) {
    h.phrase == p && h.dictId == d.id && h.start == sp.start && h.end == sp.end
  }

  ghost predicate Highlighted(hs: seq<Highlight>, d: Dictionary, p: string, sp: Span) {
    exists h :: h in hs && HighlightAt(h, d, p, sp)
  }

  /** Every position reported for `p` has a highlight of `d` in `hs`. */
  ghost predicate AllSpansHighlighted(e: Engine, d: Dictionary, p: string, text: string, hs: seq<Highlight>) {
    forall sp :: sp in Outcome(e, p, text).spans ==> Highlighted(hs, d, p, sp)
  }

  lemma AllSpansHighlightedAppend(e: Engine, d: Dictionary, p: string, text: string, hs: seq<Highlight>, after: seq<Highlight>)
    requires AllSpansHighlighted(e, d, p, text, hs)
    ensures AllSpansHighlighted(e, d, p, text, hs + after)
  {
    forall sp | sp in Outcome(e, p, text).spans ensures Highlighted(hs + after, d, p, sp) {
      var h :| h in hs && HighlightAt(h, d, p, sp);
      assert h in hs + after;
    }
  }

  lemma AllSpansHighlightedPrepend(e: Engine, d: Dictionary, p: string, text: string, before: seq<Highlight>, hs: seq<Highlight>)
    requires AllSpansHighlighted(e, d, p, text, hs)
    ensures AllSpansHighlighted(e, d, p, text, before + hs)
  {
    forall sp | sp in Outcome(e, p, text).spans ensures Highlighted(before + hs, d, p, sp) {
      var h :| h in hs && HighlightAt(h, d, p, sp);
      assert h in before + hs;
    }
  }

  /**
   A phrase is listed exactly when the matcher finds it; every highlight
   comes from a found phrase at a reported position; and every reported
   position of every listed phrase is highlighted.
   */
  lemma ScanPhrasesSpec(e: Engine, d: Dictionary, phrases: seq<string>, text: string)
    requires forall k :: 0 <= k < |phrases| ==> phrases[k] in d.phrases
    ensures forall x :: x in ScanPhrases(e, d, phrases, text).0 <==>
              exists k :: 0 <= k < |phrases| && phrases[k] == x && Outcome(e, x, text).found
    ensures forall h :: h in ScanPhrases(e, d, phrases, text).1 ==> HighlightOf(e, d, text, h)
    ensures forall k :: 0 <= k < |phrases| ==> AllSpansHighlighted(e, d, phrases[k], text, ScanPhrases(e, d, phrases, text).1)
  {
    ScanPhrasesListed(e, d, phrases, text);
    ScanPhrasesSound(e, d, phrases, text);
    ScanPhrasesComplete(e, d, phrases, text);
  }

  lemma {:induction false} ScanPhrasesListed(e: Engine, d: Dictionary, phrases: seq<string>, text: string)
    ensures forall x :: x in ScanPhrases(e, d, phrases, text).0 <==>
              exists k :: 0 <= k < |phrases| && phrases[k] == x && Outcome(e, x, text).found
    decreases |phrases|
  {
    if |phrases| > 0 {
      var p := phrases[0];
      var rest := ScanPhrases(e, d, phrases[1..], text).0;
      var r := ScanPhrases(e, d, phrases, text).0;
      ScanPhrasesListed(e, d, phrases[1..], text);
      assert r == if Outcome(e, p, text).found then [p] + rest else rest;
      forall x ensures x in r <==> exists k :: 0 <= k < |phrases| && phrases[k] == x && Outcome(e, x, text).found {
        if exists k :: 0 <= k < |phrases[1..]| && phrases[1..][k] == x && Outcome(e, x, text).found {
          var k :| 0 <= k < |phrases[1..]| && phrases[1..][k] == x && Outcome(e, x, text).found;
          assert phrases[k + 1] == x;
        }
        if exists k :: 0 <= k < |phrases| && phrases[k] == x && Outcome(e, x, text).found {
          var k :| 0 <= k < |phrases| && phrases[k] == x && Outcome(e, x, text).found;
          if k > 0 {
            assert phrases[1..][k - 1] == x;
          }
        }
      }
    }
  }

  lemma {:induction false} ScanPhrasesSound(e: Engine, d: Dictionary, phrases: seq<string>, text: string)
    requires forall k :: 0 <= k < |phrases| ==> phrases[k] in d.phrases
    ensures forall h :: h in ScanPhrases(e, d, phrases, text).1 ==> HighlightOf(e, d, text, h)
    decreases |phrases|
  {
    if |phrases| > 0 {
      var p := phrases[0];
      var o := Outcome(e, p, text);
      var rest := ScanPhrases(e, d, phrases[1..], text).1;
      var r := ScanPhrases(e, d, phrases, text).1;
      var mine := HighlightsFor(d, p, o);
      assert forall h :: h in rest ==> HighlightOf(e, d, text, h) by {
        assert forall k :: 0 <= k < |phrases[1..]| ==> phrases[1..][k] == phrases[k + 1];
        ScanPhrasesSound(e, d, phrases[1..], text);
      }
      if o.found {
        assert r == mine + rest;
        forall h | h in mine ensures HighlightOf(e, d, text, h) {
          var i :| 0 <= i < |mine| && mine[i] == h;
          assert Span(h.start, h.end) == o.spans[i];
        }
      } else {
        assert r == rest;
      }
    }
  }

  /** The highlights made for one phrase mark every position the matcher reported for it. */
  lemma HighlightsForComplete(e: Engine, d: Dictionary, p: string, text: string)
    ensures AllSpansHighlighted(e, d, p, text, HighlightsFor(d, p, Outcome(e, p, text)))
  {
    var o := Outcome(e, p, text);
    var mine := HighlightsFor(d, p, o);
    forall sp | sp in o.spans ensures Highlighted(mine, d, p, sp) {
      var i :| 0 <= i < |o.spans| && o.spans[i] == sp;
      assert mine[i] in mine && HighlightAt(mine[i], d, p, sp);
    }
  }

  lemma {:induction false} ScanPhrasesComplete(e: Engine, d: Dictionary, phrases: seq<string>, text: string)
    ensures forall k :: 0 <= k < |phrases| ==> AllSpansHighlighted(e, d, phrases[k], text, ScanPhrases(e, d, phrases, text).1)
    decreases |phrases|
  {
    if |phrases| > 0 {
      var p := phrases[0];
      var o := Outcome(e, p, text);
      var rest := ScanPhrases(e, d, phrases[1..], text).1;
      assert forall k :: 1 <= k < |phrases| ==> AllSpansHighlighted(e, d, phrases[k], text, rest) by {
        ScanPhrasesComplete(e, d, phrases[1..], text);
        assert forall k :: 1 <= k < |phrases| ==> phrases[k] == phrases[1..][k - 1];
      }
      assert ScanPhrases(e, d, phrases, text).1 == if o.found then HighlightsFor(d, p, o) + rest else rest;
      CompleteStep(e, d, phrases, text, rest, ScanPhrases(e, d, phrases, text).1);
    }
  }

  /** One phrase more in front: its positions are highlighted, and so stay those of the phrases after it. */
  lemma CompleteStep(e: Engine, d: Dictionary, phrases: seq<string>, text: string, rest: seq<Highlight>, r: seq<Highlight>)
    requires |phrases| > 0
    requires forall k :: 1 <= k < |phrases| ==> AllSpansHighlighted(e, d, phrases[k], text, rest)
    requires var o := Outcome(e, phrases[0], text);
             r == if o.found then HighlightsFor(d, phrases[0], o) + rest else rest
    ensures forall k :: 0 <= k < |phrases| ==> AllSpansHighlighted(e, d, phrases[k], text, r)
  {
    var p := phrases[0];
    var o := Outcome(e, p, text);
    var mine := HighlightsFor(d, p, o);
    forall k | 0 <= k < |phrases| ensures AllSpansHighlighted(e, d, phrases[k], text, r) {
      if k == 0 {
        if o.found {
          HighlightsForComplete(e, d, p, text);
          AllSpansHighlightedAppend(e, d, p, text, mine, rest);
        } else {
          assert o.spans == [];
        }
      } else if o.found {
        AllSpansHighlightedPrepend(e, d, phrases[k], text, mine, rest);
      }
    }
  }

  /** The dictionary loop: scanned in order, a later dictionary with the same id and a match replacing an earlier entry. */
  function ScanDictionaries(e: Engine, ds: seq<Dictionary>, text: string, speaker: string): (r: (map<int, seq<string>>, seq<Highlight>))
    decreases |ds|
  {
    if |ds| == 0 then (map[], [])
    else
      var prev := ScanDictionaries(e, ds[..|ds| - 1], text, speaker);
      var d := ds[|ds| - 1];
      if !Applies(d.dictType, speaker) then prev
      else
        var mine := ScanPhrases(e, d, d.phrases, text);
        (if |mine.0| > 0 then prev.0[d.id := mine.0] else prev.0, prev.1 + mine.1)
  }

  /** Dictionary `d` applies to the speaker and has at least one found phrase. */
  predicate Contributes(e: Engine, d: Dictionary, text: string, speaker: string) {
    Applies(d.dictType, speaker) && |ScanPhrases(e, d, d.phrases, text).0| > 0
  }

  /** Some dictionary with id `id` contributes. */
  ghost predicate SomeContributor(e: Engine, ds: seq<Dictionary>, text: string, speaker: string, id: int) {
    exists j :: 0 <= j < |ds| && ds[j].id == id && Contributes(e, ds[j], text, speaker)
  }

  function IdOfDictionary(d: Dictionary): int { d.id }

  /** `Contributes` and the found phrases, as functions of the dictionary. */
  function ContributesTo(e: Engine, text: string, speaker: string): Dictionary -> bool {
    (d: Dictionary) => Contributes(e, d, text, speaker)
  }

  /** `v` is the list of phrases of `d` found in `text`. */
  function FoundIn(e: Engine, text: string): (Dictionary, seq<string>) -> bool {
    (d: Dictionary, v: seq<string>) => v == ScanPhrases(e, d, d.phrases, text).0
  }

  /** An id is a key of `matched_phrases` exactly when some dictionary with that id contributes. */
  lemma {:induction false} ScanDictionariesKeys(e: Engine, ds: seq<Dictionary>, text: string, speaker: string)
    ensures forall id :: id in ScanDictionaries(e, ds, text, speaker).0 <==> SomeContributor(e, ds, text, speaker, id)
    decreases |ds|
  {
    if |ds| > 0 {
      var p := ds[..|ds| - 1];
      var n := |ds| - 1;
      var prev := ScanDictionaries(e, p, text, speaker);
      var m := ScanDictionaries(e, ds, text, speaker).0;
      ScanDictionariesKeys(e, p, text, speaker);
      forall id ensures id in m <==> SomeContributor(e, ds, text, speaker, id) {
        if SomeContributor(e, p, text, speaker, id) {
          var j :| 0 <= j < |p| && p[j].id == id && Contributes(e, p[j], text, speaker);
          assert ds[j] == p[j];
        }
        if SomeContributor(e, ds, text, speaker, id) {
          var j :| 0 <= j < |ds| && ds[j].id == id && Contributes(e, ds[j], text, speaker);
          if j < n {
            assert ds[j] == p[j];
          }
        }
      }
    }
  }

  /** The phrases stored under an id are those of the last contributing dictionary with that id. */
  lemma {:induction false} ScanDictionariesMatched(e: Engine, ds: seq<Dictionary>, text: string, speaker: string)
    ensures HoldsLast(ds, ContributesTo(e, text, speaker), IdOfDictionary, FoundIn(e, text), ScanDictionaries(e, ds, text, speaker).0)
    decreases |ds|
  {
    if |ds| > 0 {
      var p := ds[..|ds| - 1];
      var d := ds[|ds| - 1];
      var c := ContributesTo(e, text, speaker);
      var prev := ScanDictionaries(e, p, text, speaker).0;
      assert HoldsLast(p, c, IdOfDictionary, FoundIn(e, text), prev) by {
        ScanDictionariesMatched(e, p, text, speaker);
      }
      var v := ScanPhrases(e, d, d.phrases, text).0;
      assert ScanDictionaries(e, ds, text, speaker).0 == if c(d) then prev[IdOfDictionary(d) := v] else prev;
      HoldsLastStep(ds, c, IdOfDictionary, FoundIn(e, text), prev, v, ScanDictionaries(e, ds, text, speaker).0);
    }
  }

  /** Every highlight belongs to a dictionary of `ds` that applies to the speaker and marks a reported position of one of its found phrases. */
  ghost predicate HighlightsSound(e: Engine, ds: seq<Dictionary>, text: string, speaker: string, hs: seq<Highlight>) {
    forall h :: h in hs ==> exists j :: 0 <= j < |ds| && Applies(ds[j].dictType, speaker) && HighlightOf(e, ds[j], text, h)
  }

  /** Every reported position of every phrase of a dictionary of `ds` that applies to the speaker is highlighted. */
  ghost predicate HighlightsComplete(e: Engine, ds: seq<Dictionary>, text: string, speaker: string, hs: seq<Highlight>) {
    forall j, k :: 0 <= j < |ds| && Applies(ds[j].dictType, speaker) && 0 <= k < |ds[j].phrases| ==>
      AllSpansHighlighted(e, ds[j], ds[j].phrases[k], text, hs)
  }

  /**
   Every highlight belongs to a dictionary that applies to the speaker and
   marks a reported position of one of its found phrases; conversely every
   reported position of every phrase of an applicable dictionary is highlighted.
   */
  lemma {:induction false} ScanDictionariesHighlights(e: Engine, ds: seq<Dictionary>, text: string, speaker: string)
    ensures HighlightsSound(e, ds, text, speaker, ScanDictionaries(e, ds, text, speaker).1)
    ensures HighlightsComplete(e, ds, text, speaker, ScanDictionaries(e, ds, text, speaker).1)
    decreases |ds|
  {
    if |ds| > 0 {
      var p := ds[..|ds| - 1];
      var d := ds[|ds| - 1];
      var prev := ScanDictionaries(e, p, text, speaker).1;
      assert HighlightsSound(e, p, text, speaker, prev) && HighlightsComplete(e, p, text, speaker, prev) by {
        ScanDictionariesHighlights(e, p, text, speaker);
      }
      var hs := ScanDictionaries(e, ds, text, speaker).1;
      assert hs == if Applies(d.dictType, speaker) then prev + ScanPhrases(e, d, d.phrases, text).1 else prev;
      var mine := ScanPhrases(e, d, d.phrases, text).1;
      assert && (forall h :: h in mine ==> HighlightOf(e, d, text, h))
             && (forall k :: 0 <= k < |d.phrases| ==> AllSpansHighlighted(e, d, d.phrases[k], text, mine)) by {
        ScanPhrasesSpec(e, d, d.phrases, text);
      }
      HighlightsSoundStep(e, ds, text, speaker, prev, mine, hs);
      HighlightsCompleteStep(e, ds, text, speaker, prev, mine, hs);
    }
  }

  /** One dictionary more keeps every highlight accounted for. */
  lemma HighlightsSoundStep(e: Engine, ds: seq<Dictionary>, text: string, speaker: string,
                            prev: seq<Highlight>, mine: seq<Highlight>, hs: seq<Highlight>)
    requires |ds| > 0 && HighlightsSound(e, ds[..|ds| - 1], text, speaker, prev)
    requires forall h :: h in mine ==> HighlightOf(e, ds[|ds| - 1], text, h)
    requires hs == if Applies(ds[|ds| - 1].dictType, speaker) then prev + mine else prev
    ensures HighlightsSound(e, ds, text, speaker, hs)
  {
    var p := ds[..|ds| - 1];
    var n := |ds| - 1;
    forall h | h in hs ensures exists j :: 0 <= j < |ds| && Applies(ds[j].dictType, speaker) && HighlightOf(e, ds[j], text, h) {
      if h in prev {
        var j :| 0 <= j < |p| && Applies(p[j].dictType, speaker) && HighlightOf(e, p[j], text, h);
        assert ds[j] == p[j];
      } else {
        assert Applies(ds[n].dictType, speaker) && h in mine;
      }
    }
  }

  /** One dictionary more keeps every reported position highlighted. */
  lemma HighlightsCompleteStep(e: Engine, ds: seq<Dictionary>, text: string, speaker: string,
                               prev: seq<Highlight>, mine: seq<Highlight>, hs: seq<Highlight>)
    requires |ds| > 0 && HighlightsComplete(e, ds[..|ds| - 1], text, speaker, prev)
    requires var d := ds[|ds| - 1];
             forall k :: 0 <= k < |d.phrases| ==> AllSpansHighlighted(e, d, d.phrases[k], text, mine)
    requires hs == if Applies(ds[|ds| - 1].dictType, speaker) then prev + mine else prev
    ensures HighlightsComplete(e, ds, text, speaker, hs)
  {
    var p := ds[..|ds| - 1];
    var n := |ds| - 1;
    var d := ds[n];
    forall j, k | 0 <= j < |ds| && Applies(ds[j].dictType, speaker) && 0 <= k < |ds[j].phrases|
      ensures AllSpansHighlighted(e, ds[j], ds[j].phrases[k], text, hs)
    {
      if j < n {
        assert ds[j] == p[j];
        assert AllSpansHighlighted(e, p[j], p[j].phrases[k], text, prev);
        if Applies(d.dictType, speaker) {
          AllSpansHighlightedAppend(e, ds[j], ds[j].phrases[k], text, prev, mine);
        }
      } else {
        AllSpansHighlightedPrepend(e, d, d.phrases[k], text, prev, mine);
      }
    }
  }

  /** The uncached body of `analyze_utterance`; it depends on the utterance's text and speaker only. */
  function Analyze(e: Engine, text: string, speaker: string, ds: seq<Dictionary>): AnalysisResult {
    var r := ScanDictionaries(e, ds, text, speaker);
    AnalysisResult(r.0, r.1, if |r.1| > 0 then AddHighlights(text, r.1) else [Plain(text)])
  }

  /**
   When every highlight lies within the text and is not inverted, the
   rendered text with its markup removed is the utterance's text.
   */
  lemma AnalyzeRendersText(e: Engine, text: string, speaker: string, ds: seq<Dictionary>)
    requires var hs := Analyze(e, text, speaker, ds).highlights;
             forall k :: 0 <= k < |hs| ==> 0 <= hs[k].start <= hs[k].end <= |text|
    ensures TextOf(Analyze(e, text, speaker, ds).rendered) == text
  {
    AddHighlightsRoundTrip(text, Analyze(e, text, speaker, ds).highlights);
  }

  lemma ExactOutcomeInBounds(e: Engine, p: string, text: string, sp: Span)
    requires Outcome(e, p, text).kind == Exact && sp in Outcome(e, p, text).spans
    ensures 0 <= sp.start <= sp.end <= |text|
  {
    var xs := ExactPositions(e.morph, p, text);
    assert Outcome(e, p, text).spans == xs;
    var k :| 0 <= k < |xs| && xs[k] == sp;
    assert MatchesAt(e.morph, p, text, xs[k].start);
  }

  /** Highlights from the exact tier always lie within the text and are never inverted. */
  lemma ExactHighlightsInBounds(e: Engine, text: string, speaker: string, ds: seq<Dictionary>)
    ensures forall h :: h in Analyze(e, text, speaker, ds).highlights && h.kind == Exact ==>
              0 <= h.start <= h.end <= |text|
  {
    var hs := ScanDictionaries(e, ds, text, speaker).1;
    assert HighlightsSound(e, ds, text, speaker, hs) by {
      ScanDictionariesHighlights(e, ds, text, speaker);
    }
    forall h | h in hs && h.kind == Exact ensures 0 <= h.start <= h.end <= |text| {
      var j :| 0 <= j < |ds| && Applies(ds[j].dictType, speaker) && HighlightOf(e, ds[j], text, h);
      ExactOutcomeInBounds(e, h.phrase, text, Span(h.start, h.end));
    }
    assert Analyze(e, text, speaker, ds).highlights == hs;
  }

  /**
   An inverted span from the normalised tier reaches the rendering: a
   dictionary holding the single phrase "x", applied to "ab c" with a
   lemmatiser that maps "ab" to "abx", renders a text that reads "ab  c" once
   the markup is removed.
   */
  lemma ExamplePhraseScan(e: Engine, d: Dictionary)
    requires e.morph == ExampleMorph() && d.phrases == ["x"]
    ensures ScanPhrases(e, d, d.phrases, "ab c").1 == [Highlight("x", 3, 2, d.name, d.id, d.colour, Normalized)]
  {
    NormalizedTierInvertsSpan(e, DefaultThreshold);
    SingleSpanScan(e, d, "x", "ab c", Span(3, 2));
  }

  /** A single phrase found at a single position gives the one highlight of that position. */
  lemma SingleSpanScan(e: Engine, d: Dictionary, p: string, text: string, sp: Span)
    requires Outcome(e, p, text) == MatchOutcome(true, Normalized, [sp])
    ensures ScanPhrases(e, d, [p], text).1 == [Highlight(p, sp.start, sp.end, d.name, d.id, d.colour, Normalized)]
  {
    ScanPhrasesSingle(e, d, p, text);
    var o := Outcome(e, p, text);
    assert |HighlightsFor(d, p, o)| == 1;
  }

  /** A single phrase gives its highlights when found and nothing otherwise. */
  lemma ScanPhrasesSingle(e: Engine, d: Dictionary, p: string, text: string)
    ensures var o := Outcome(e, p, text);
            ScanPhrases(e, d, [p], text) == if o.found then ([p], HighlightsFor(d, p, o)) else ([], [])
  {
    var o := Outcome(e, p, text);
    var mine := HighlightsFor(d, p, o);
    assert [p][1..] == [];
    assert ScanPhrases(e, d, [], text) == ([], []);
    assert [p] + [] == [p] && mine + [] == mine;
  }

  lemma InvertedSpanReachesRendering(e: Engine, speaker: string, d: Dictionary)
    requires e.morph == ExampleMorph()
    requires d.phrases == ["x"] && Applies(d.dictType, speaker)
    ensures Analyze(e, "ab c", speaker, [d]).highlights == [Highlight("x", 3, 2, d.name, d.id, d.colour, Normalized)]
    ensures TextOf(Analyze(e, "ab c", speaker, [d]).rendered) == "ab  c"
  {
    var h := Highlight("x", 3, 2, d.name, d.id, d.colour, Normalized);
    ExamplePhraseScan(e, d);
    assert [d][..0] == [];
    assert ScanDictionaries(e, [d], "ab c", speaker).1 == [h];
    InvertedSpanRepeatsText(h);
  }

  /* ---------------- the result cache ---------------- */

  /**
   The cache key: the utterance text and the hash of the dictionaries'
   string form. The text and the integer hash are recoverable from the
   source's `f"{text}_{hash}"` string, so the pair is the same key.
   */
  datatype CacheKey = CacheKey(text: string, fingerprint: int)

  /** `analysis_cache` with `cache_hits` and `cache_misses`. */
  datatype AnalyzerState = AnalyzerState(cache: map<CacheKey, AnalysisResult>, hits: nat, misses: nat)

  /** The cache is emptied when an insertion takes it past this many entries. */
  const CacheLimit: nat := 1000

  function InitialState(): AnalyzerState {
    AnalyzerState(map[], 0, 0)
  }

  ghost predicate CacheBounded(a: AnalyzerState) {
    |a.cache| <= CacheLimit
  }

  /** `r` is the analysis of `text` for some speaker and some dictionaries whose fingerprint is `fingerprint`. */
  ghost predicate AnalysisOf(e: Engine, fp: seq<Dictionary> -> int, text: string, fingerprint: int, r: AnalysisResult) {
    exists s: string, ds: seq<Dictionary> :: fp(ds) == fingerprint && r == Analyze(e, text, s, ds)
  }

  /** Every cached result is the analysis of its key's text for dictionaries with its key's fingerprint. */
  ghost predicate CacheSound(e: Engine, fp: seq<Dictionary> -> int, a: AnalyzerState) {
    forall k :: k in a.cache ==> AnalysisOf(e, fp, k.text, k.fingerprint, a.cache[k])
  }

  /**
   `analyze_utterance`: a hit returns the stored result and counts a hit; a
   miss analyses, stores, empties the cache if it now holds more than
   `CacheLimit` entries, and counts a miss. `fp` stands for
   `hash(str(dictionaries))`. The speaker is not part of the key.
   */
  function AnalyzeUtterance(e: Engine, fp: seq<Dictionary> -> int, a: AnalyzerState, u: Utterance, ds: seq<Dictionary>): (r: (AnalysisResult, AnalyzerState))
    ensures r.1.hits + r.1.misses == a.hits + a.misses + 1
    ensures CacheKey(u.text, fp(ds)) in a.cache ==> r == (a.cache[CacheKey(u.text, fp(ds))], a.(hits := a.hits + 1))
    ensures CacheKey(u.text, fp(ds)) !in a.cache ==>
              && r.0 == Analyze(e, u.text, u.speaker, ds)
              && r.1.hits == a.hits && r.1.misses == a.misses + 1
    ensures CacheKey(u.text, fp(ds)) !in a.cache && |a.cache| < CacheLimit ==>
              r.1.cache == a.cache[CacheKey(u.text, fp(ds)) := r.0]
    ensures CacheKey(u.text, fp(ds)) !in a.cache && |a.cache| >= CacheLimit ==> r.1.cache == map[]
  {
    var key := CacheKey(u.text, fp(ds));
    if key in a.cache then (a.cache[key], a.(hits := a.hits + 1))
    else
      var res := Analyze(e, u.text, u.speaker, ds);
      var c := a.cache[key := res];
      (res, AnalyzerState(if |c| > CacheLimit then map[] else c, a.hits, a.misses + 1))
  }

  /** The cache never holds more than `CacheLimit` entries, and only results of genuine analyses. */
  lemma AnalyzeUtteranceInvariant(e: Engine, fp: seq<Dictionary> -> int, a: AnalyzerState, u: Utterance, ds: seq<Dictionary>)
    requires CacheBounded(a) && CacheSound(e, fp, a)
    ensures CacheBounded(AnalyzeUtterance(e, fp, a, u, ds).1)
    ensures CacheSound(e, fp, AnalyzeUtterance(e, fp, a, u, ds).1)
    ensures AnalysisOf(e, fp, u.text, fp(ds), AnalyzeUtterance(e, fp, a, u, ds).0)
  {
    var key := CacheKey(u.text, fp(ds));
    var r := AnalyzeUtterance(e, fp, a, u, ds);
    if key !in a.cache {
      var c := a.cache[key := r.0];
      assert |c| == |a.cache| + 1;
      assert AnalysisOf(e, fp, u.text, fp(ds), r.0) by {
        assert r.0 == Analyze(e, u.text, u.speaker, ds);
      }
      forall k | k in r.1.cache ensures AnalysisOf(e, fp, k.text, k.fingerprint, r.1.cache[k]) {
        if k != key {
          assert r.1.cache[k] == a.cache[k];
        }
      }
    }
  }

  /** Analysing the same utterance twice in a row gives the same result, whether or not the cache was emptied in between. */
  lemma AnalyzeUtteranceRepeat(e: Engine, fp: seq<Dictionary> -> int, a: AnalyzerState, u: Utterance, ds: seq<Dictionary>)
    requires CacheBounded(a)
    ensures var (r1, a1) := AnalyzeUtterance(e, fp, a, u, ds);
            AnalyzeUtterance(e, fp, a1, u, ds).0 == r1
  {
  }

  /**
   The speaker is not part of the key: once a text has been analysed for
   one speaker, the same text from another speaker gets that stored result,
   even though dictionaries restricted to one speaker would have been
   filtered differently.
   */
  lemma CacheIgnoresSpeaker(e: Engine, fp: seq<Dictionary> -> int, a: AnalyzerState, u1: Utterance, u2: Utterance, ds: seq<Dictionary>)
    requires CacheBounded(a) && |a.cache| < CacheLimit
    requires u1.text == u2.text && CacheKey(u1.text, fp(ds)) !in a.cache
    ensures var (r1, a1) := AnalyzeUtterance(e, fp, a, u1, ds);
            && r1 == Analyze(e, u1.text, u1.speaker, ds)
            && AnalyzeUtterance(e, fp, a1, u2, ds).0 == Analyze(e, u1.text, u1.speaker, ds)
  {
    var key := CacheKey(u1.text, fp(ds));
    assert |a.cache[key := Analyze(e, u1.text, u1.speaker, ds)]| == |a.cache| + 1;
  }

  /** `clear_cache`: empties the result cache; the counters and the phrase normalisation cache are kept. */
  function ClearCache(a: AnalyzerState): (r: AnalyzerState)
    ensures r.cache == map[] && r.hits == a.hits && r.misses == a.misses
  {
    a.(cache := map[])
  }

  /** After `clear_cache` the next analysis is computed afresh for the utterance's own speaker. */
  lemma ClearCacheForcesMiss(e: Engine, fp: seq<Dictionary> -> int, a: AnalyzerState, u: Utterance, ds: seq<Dictionary>)
    ensures AnalyzeUtterance(e, fp, ClearCache(a), u, ds).0 == Analyze(e, u.text, u.speaker, ds)
    ensures AnalyzeUtterance(e, fp, ClearCache(a), u, ds).1.misses == a.misses + 1
  {
  }

  /* ---------------- batch ---------------- */

  /** The key of a batch result: `f"{speaker}_{start_time}"`, kept as the pair it is built from. */
  datatype BatchKey = BatchKey(speaker: string, startTime: real)

  /** `analyze_conversation_batch`: every utterance analysed in order, a later utterance with the same key replacing an earlier result. */
  function AnalyzeBatch(e: Engine, fp: seq<Dictionary> -> int, a: AnalyzerState, us: seq<Utterance>, ds: seq<Dictionary>): (r: (map<BatchKey, AnalysisResult>, AnalyzerState))
    ensures r.1.hits + r.1.misses == a.hits + a.misses + |us|
    decreases |us|
  {
    if |us| == 0 then (map[], a)
    else
      var prev := AnalyzeBatch(e, fp, a, us[..|us| - 1], ds);
      var u := us[|us| - 1];
      var step := AnalyzeUtterance(e, fp, prev.1, u, ds);
      (prev.0[BatchKey(u.speaker, u.startTime) := step.0], step.1)
  }

  /** Every utterance of the conversation has a result under its `(speaker, start_time)` key. */
  lemma {:induction false} AnalyzeBatchKeys(e: Engine, fp: seq<Dictionary> -> int, a: AnalyzerState, us: seq<Utterance>, ds: seq<Dictionary>)
    ensures forall i :: 0 <= i < |us| ==> BatchKey(us[i].speaker, us[i].startTime) in AnalyzeBatch(e, fp, a, us, ds).0
    decreases |us|
  {
    if |us| > 0 {
      var p := us[..|us| - 1];
      var prev := AnalyzeBatch(e, fp, a, p, ds).0;
      assert forall i :: 0 <= i < |p| ==> KeyOf(p[i]) in prev by {
        AnalyzeBatchKeys(e, fp, a, p, ds);
      }
      var v := AnalyzeUtterance(e, fp, AnalyzeBatch(e, fp, a, p, ds).1, us[|us| - 1], ds).0;
      assert AnalyzeBatch(e, fp, a, us, ds).0 == prev[KeyOf(us[|us| - 1]) := v];
      KeysStep(us, p, KeyOf, prev, v, AnalyzeBatch(e, fp, a, us, ds).0);
    }
  }

  /** The batch keeps the cache bounded and sound. */
  lemma {:induction false} AnalyzeBatchInvariant(e: Engine, fp: seq<Dictionary> -> int, a: AnalyzerState, us: seq<Utterance>, ds: seq<Dictionary>)
    requires CacheBounded(a) && CacheSound(e, fp, a)
    ensures CacheBounded(AnalyzeBatch(e, fp, a, us, ds).1) && CacheSound(e, fp, AnalyzeBatch(e, fp, a, us, ds).1)
    decreases |us|
  {
    if |us| > 0 {
      var p := us[..|us| - 1];
      AnalyzeBatchInvariant(e, fp, a, p, ds);
      AnalyzeUtteranceInvariant(e, fp, AnalyzeBatch(e, fp, a, p, ds).1, us[|us| - 1], ds);
    }
  }

  function KeyOf(u: Utterance): BatchKey { BatchKey(u.speaker, u.startTime) }

  function AnyUtterance(u: Utterance): bool { true }

  /** `r` is an analysis of `u`'s text for dictionaries with fingerprint `fingerprint`. */
  ghost function AnalysedText(e: Engine, fp: seq<Dictionary> -> int, fingerprint: int): (Utterance, AnalysisResult) -> bool {
    (u: Utterance, r: AnalysisResult) => AnalysisOf(e, fp, u.text, fingerprint, r)
  }

  /** Each stored batch result is an analysis of the text of the last utterance with that key. */
  lemma {:induction false} AnalyzeBatchResults(e: Engine, fp: seq<Dictionary> -> int, a: AnalyzerState, us: seq<Utterance>, ds: seq<Dictionary>)
    requires CacheBounded(a) && CacheSound(e, fp, a)
    ensures HoldsLast(us, AnyUtterance, KeyOf, AnalysedText(e, fp, fp(ds)), AnalyzeBatch(e, fp, a, us, ds).0)
    decreases |us|
  {
    if |us| > 0 {
      var p := us[..|us| - 1];
      var u := us[|us| - 1];
      var prev := AnalyzeBatch(e, fp, a, p, ds);
      var step := AnalyzeUtterance(e, fp, prev.1, u, ds);
      assert HoldsLast(p, AnyUtterance, KeyOf, AnalysedText(e, fp, fp(ds)), prev.0) by {
        AnalyzeBatchResults(e, fp, a, p, ds);
      }
      assert AnalysedText(e, fp, fp(ds))(u, step.0) by {
        AnalyzeBatchInvariant(e, fp, a, p, ds);
        AnalyzeUtteranceInvariant(e, fp, prev.1, u, ds);
      }
      assert AnalyzeBatch(e, fp, a, us, ds).0 == prev.0[KeyOf(u) := step.0];
      HoldsLastStep(us, AnyUtterance, KeyOf, AnalysedText(e, fp, fp(ds)), prev.0, step.0, AnalyzeBatch(e, fp, a, us, ds).0);
    }
  }
}
