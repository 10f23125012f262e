/**
 The normaliser of `classes/text_analyzer.py` (`EnhancedMorphAnalyzer`):
 lemmatisation of words and phrases, the phrase-level cache, and keyword
 extraction. The morphology library, Python's `\w` class and `str.lower()`
 are not modelled; they are the fields of a `Morph` value handed in by the
 caller.
 */
module Morphology {
  import opened Options
  import opened Strings
  import opened Tokens

  /**
   The text capabilities the normaliser depends on:
   `isWord` is the `\w` character class, `lower` the per-character
   `str.lower()`, `fold` the case folding of `re.IGNORECASE` (two characters
   match when their folds are equal; it is coarser than `lower`, e.g. it
   identifies 'ſ' with 's'), and `parse` the lemmatiser, `None` when it
   raises.
   */
  datatype Morph = Morph(isWord: char -> bool, lower: char -> char, fold: char -> char, parse: string -> Option<string>)

  /** `s.lower()`. */
  function Lower(m: Morph, s: string): (r: string)
    ensures |r| == |s|
    ensures forall k :: 0 <= k < |s| ==> r[k] == m.lower(s[k])
  {
    seq(|s|, k requires 0 <= k < |s| => m.lower(s[k]))
  }

  /** `normalize_word`: the lemma, or the lower-cased word when the lemmatiser fails. */
  function NormalizeWord(m: Morph, w: string): string {
    match m.parse(w)
    case Some(base) => base
    case None => Lower(m, w)
  }

  /** When the lemmatiser fails the word is only lower-cased: same length, character by character. */
  lemma NormalizeWordFallback(m: Morph, w: string)
    requires m.parse(w).None?
    ensures |NormalizeWord(m, w)| == |w|
    ensures forall k :: 0 <= k < |w| ==> NormalizeWord(m, w)[k] == m.lower(w[k])
  {
  }

  function NormalizeWords(m: Morph, ws: seq<string>): (r: seq<string>)
    ensures |r| == |ws|
    ensures forall k :: 0 <= k < |ws| ==> r[k] == NormalizeWord(m, ws[k])
  {
    if |ws| == 0 then [] else [NormalizeWord(m, ws[0])] + NormalizeWords(m, ws[1..])
  }

  /** The `\b\w+\b` tokens of the lower-cased phrase. */
  function PhraseWords(m: Morph, phrase: string): seq<string> {
    Words(m.isWord, Lower(m, phrase))
  }

  /** `normalize_phrase` without its cache: token lemmas joined by single spaces. */
  function NormalizePhrase(m: Morph, phrase: string): string {
    Join(NormalizeWords(m, PhraseWords(m, phrase)), " ")
  }

  /** A phrase's normalised form is the join of its words' lemmas. */
  lemma NormalizePhraseFrom(m: Morph, phrase: string, ws: seq<string>, ns: seq<string>)
    requires PhraseWords(m, phrase) == ws && NormalizeWords(m, ws) == ns
    ensures NormalizePhrase(m, phrase) == Join(ns, " ")
  {
  }

  /**
   When every lemma is a non-empty run of non-space characters, a normalised
   phrase with at least one token splits back into exactly the lemmas of the
   phrase's tokens, in token order, and `len(norm.split())` equals the number
   of tokens.
   */
  lemma NormalizePhraseStructure(m: Morph, phrase: string)
    requires forall k :: 0 <= k < |PhraseWords(m, phrase)| ==> IsWordPiece(NormalizeWord(m, PhraseWords(m, phrase)[k]))
    ensures |PhraseWords(m, phrase)| > 0 ==> SplitOn(NormalizePhrase(m, phrase), ' ') == NormalizeWords(m, PhraseWords(m, phrase))
    ensures WordCount(NormalizePhrase(m, phrase)) == |Tokenize(m.isWord, Lower(m, phrase))|
  {
    var lemmas := NormalizeWords(m, PhraseWords(m, phrase));
    if |lemmas| > 0 {
      forall k | 0 <= k < |lemmas| ensures ' ' !in lemmas[k] {
        assert IsWordPiece(lemmas[k]);
        assert IsSpace(' ');
      }
      SplitJoin(lemmas, ' ');
    }
    WordCountOfJoin(lemmas);
  }

  /* ---------------- phrase cache ---------------- */

  /** Every cached entry is the normalisation of its key. */
  ghost predicate CacheValid(m: Morph, cache: map<string, string>) {
    forall k :: k in cache ==> cache[k] == NormalizePhrase(m, k)
  }

  /** `normalize_phrase` with `phrase_normalize_cache`: a hit returns the stored value, a miss stores the result. */
  function NormalizePhraseCached(m: Morph, cache: map<string, string>, phrase: string): (r: (string, map<string, string>))
    ensures phrase in r.1 && r.1[phrase] == r.0
    ensures forall k :: k in cache ==> k in r.1 && r.1[k] == cache[k]
    ensures r.1.Keys == cache.Keys + {phrase}
    ensures CacheValid(m, cache) ==> r.0 == NormalizePhrase(m, phrase) && CacheValid(m, r.1)
  {
    if phrase in cache then (cache[phrase], cache)
    else
      var n := NormalizePhrase(m, phrase);
      (n, cache[phrase := n])
  }

  /** A second call with the same phrase returns the identical value and leaves the cache as it was. */
  lemma NormalizePhraseCachedRepeat(m: Morph, cache: map<string, string>, phrase: string)
    ensures var (v, c) := NormalizePhraseCached(m, cache, phrase);
            NormalizePhraseCached(m, c, phrase) == (v, c)
  {
  }

  /* ---------------- keywords ---------------- */

  /** The stop words of `get_phrase_keywords`. */
  const StopWords: set<string> := {
    "я", "мне", "меня", "ты", "тебе", "тебя", "он", "его", "ей", "она",
    "мы", "нам", "нас", "вы", "вам", "вас", "они", "им", "их",
    "в", "на", "за", "под", "над", "от", "до", "из", "к", "по", "со", "у",
    "и", "а", "но", "да", "или", "ли", "же", "бы", "вот", "всё", "все",
    "не", "ни", "как", "так", "то", "это", "что", "чтоб", "чтобы", "для",
    "о", "об", "про", "с", "со", "из-за", "из", "от", "до", "по", "под",
    "над", "перед", "при", "через", "сквозь", "между", "среди", "вокруг"
  }

  /** A token survives the keyword filter when, as lower-cased and before lemmatisation, it is long enough and no stop word. */
  predicate IsKeywordToken(w: string) {
    |w| > 2 && w !in StopWords
  }

  /** The loop of `get_phrase_keywords`: lemmas of the surviving tokens. */
  function KeywordsOf(m: Morph, words: seq<string>): (r: set<string>)
    ensures forall x :: x in r <==> exists k :: 0 <= k < |words| && IsKeywordToken(words[k]) && NormalizeWord(m, words[k]) == x
  {
    if |words| == 0 then {}
    else
      var rest := KeywordsOf(m, words[1..]);
      assert forall k :: 1 <= k < |words| ==> words[k] == words[1..][k - 1];
      (if IsKeywordToken(words[0]) then {NormalizeWord(m, words[0])} else {}) + rest
  }

  /** `get_phrase_keywords`. */
  function Keywords(m: Morph, phrase: string): set<string> {
    KeywordsOf(m, PhraseWords(m, phrase))
  }
}
