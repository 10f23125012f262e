/**
 Word tokens as Python's `re.finditer(r'\b\w+\b', s)` finds them. With `\w`
 an abstract character class, each match is a maximal run of word
 characters: `\b` holds at both ends exactly because the run cannot be
 extended. A token is a half-open range of offsets into the scanned string.
 */
module Tokens {

  datatype Token = Token(start: nat, end: nat)

  /** `t` is a maximal run of word characters of `s`. */
  ghost predicate IsMaximalRun(isWord: char -> bool, s: string, t: Token) {
    && t.start < t.end <= |s|
    && (forall k :: t.start <= k < t.end ==> isWord(s[k]))
    && (t.start == 0 || !isWord(s[t.start - 1]))
    && (t.end == |s| || !isWord(s[t.end]))
  }

  /** End of the run of word characters that starts at `i`. */
  function RunEnd(isWord: char -> bool, s: string, i: nat): (j: nat)
    requires i <= |s|
    ensures i <= j <= |s|
    ensures forall k :: i <= k < j ==> isWord(s[k])
    ensures j == |s| || !isWord(s[j])
    decreases |s| - i
  {
    if i < |s| && isWord(s[i]) then RunEnd(isWord, s, i + 1) else i
  }

  /** The left-to-right scan for runs from offset `i`, where `i` is not inside a run. */
  function TokensFrom(isWord: char -> bool, s: string, i: nat): (ts: seq<Token>)
    requires i <= |s|
    ensures forall k :: 0 <= k < |ts| ==> i <= ts[k].start < ts[k].end <= |s|
    decreases |s| - i
  {
    if i == |s| then []
    else if !isWord(s[i]) then TokensFrom(isWord, s, i + 1)
    else
      var e := RunEnd(isWord, s, i);
      [Token(i, e)] + TokensFrom(isWord, s, e)
  }

  predicate OutsideRun(isWord: char -> bool, s: string, i: nat)
    requires i <= |s|
  {
    i == 0 || i == |s| || !isWord(s[i - 1]) || !isWord(s[i])
  }

  lemma {:induction false} TokensFromMaximal(isWord: char -> bool, s: string, i: nat)
    requires i <= |s| && OutsideRun(isWord, s, i)
    ensures forall k :: 0 <= k < |TokensFrom(isWord, s, i)| ==> IsMaximalRun(isWord, s, TokensFrom(isWord, s, i)[k])
    decreases |s| - i
  {
    if i < |s| {
      var ts := TokensFrom(isWord, s, i);
      if !isWord(s[i]) {
        assert ts == TokensFrom(isWord, s, i + 1);
        TokensFromMaximal(isWord, s, i + 1);
      } else {
        var e := RunEnd(isWord, s, i);
        var rest := TokensFrom(isWord, s, e);
        TokensFromMaximal(isWord, s, e);
        assert ts == [Token(i, e)] + rest;
        assert IsMaximalRun(isWord, s, ts[0]);
        assert forall k :: 0 <= k < |rest| ==> ts[k + 1] == rest[k];
      }
    }
  }

  lemma {:induction false} TokensFromOrdered(isWord: char -> bool, s: string, i: nat)
    requires i <= |s|
    ensures forall k :: 0 <= k < |TokensFrom(isWord, s, i)| ==> isWord(s[TokensFrom(isWord, s, i)[k].start])
    ensures forall a, b :: 0 <= a < b < |TokensFrom(isWord, s, i)| ==>
              TokensFrom(isWord, s, i)[a].end < TokensFrom(isWord, s, i)[b].start
    decreases |s| - i
  {
    if i < |s| {
      var ts := TokensFrom(isWord, s, i);
      if !isWord(s[i]) {
        assert ts == TokensFrom(isWord, s, i + 1);
        TokensFromOrdered(isWord, s, i + 1);
      } else {
        var e := RunEnd(isWord, s, i);
        var rest := TokensFrom(isWord, s, e);
        TokensFromOrdered(isWord, s, e);
        assert ts == [Token(i, e)] + rest;
        forall k | 0 <= k < |ts| ensures isWord(s[ts[k].start]) {
          if k > 0 {
            assert ts[k] == rest[k - 1];
          }
        }
        forall a, b | 0 <= a < b < |ts| ensures ts[a].end < ts[b].start {
          assert ts[b] == rest[b - 1];
          assert isWord(s[rest[b - 1].start]);
          if a > 0 {
            assert ts[a] == rest[a - 1];
          }
        }
      }
    }
  }

  /** Every word character of `s` at or after `i` lies inside one of `ts`. */
  ghost predicate CoversFrom(isWord: char -> bool, s: string, i: nat, ts: seq<Token>) {
    forall p :: i <= p < |s| && isWord(s[p]) ==> exists k :: 0 <= k < |ts| && ts[k].start <= p < ts[k].end
  }

  lemma {:induction false} TokensFromCover(isWord: char -> bool, s: string, i: nat)
    requires i <= |s|
    ensures CoversFrom(isWord, s, i, TokensFrom(isWord, s, i))
    decreases |s| - i
  {
    if i < |s| {
      var ts := TokensFrom(isWord, s, i);
      if !isWord(s[i]) {
        assert ts == TokensFrom(isWord, s, i + 1);
        TokensFromCover(isWord, s, i + 1);
        assert CoversFrom(isWord, s, i, ts) by {
          forall p | i <= p < |s| && isWord(s[p]) ensures exists k :: 0 <= k < |ts| && ts[k].start <= p < ts[k].end {
            assert i + 1 <= p;
          }
        }
      } else {
        var e := RunEnd(isWord, s, i);
        var rest := TokensFrom(isWord, s, e);
        assert CoversFrom(isWord, s, e, rest) by {
          TokensFromCover(isWord, s, e);
        }
        assert ts == [Token(i, e)] + rest;
        CoverStep(isWord, s, i, e, rest);
      }
    }
  }

  /** A run `[i, e)` in front of tokens covering everything from `e` covers everything from `i`. */
  lemma CoverStep(isWord: char -> bool, s: string, i: nat, e: nat, rest: seq<Token>)
    requires i <= e <= |s| && CoversFrom(isWord, s, e, rest)
    ensures CoversFrom(isWord, s, i, [Token(i, e)] + rest)
  {
    var ts := [Token(i, e)] + rest;
    forall p | i <= p < |s| && isWord(s[p]) ensures exists k :: 0 <= k < |ts| && ts[k].start <= p < ts[k].end {
      if p < e {
        assert ts[0].start <= p < ts[0].end;
      } else {
        var k :| 0 <= k < |rest| && rest[k].start <= p < rest[k].end;
        assert ts[k + 1] == rest[k];
      }
    }
  }

  /**
   `re.finditer(r'\b\w+\b', s)`: the maximal word runs of `s`, strictly
   left to right with at least one non-word character between neighbours,
   and together covering every word character.
   */
  function Tokenize(isWord: char -> bool, s: string): (ts: seq<Token>)
    ensures forall k :: 0 <= k < |ts| ==> IsMaximalRun(isWord, s, ts[k])
    ensures forall k :: 0 <= k < |ts| ==> 0 <= ts[k].start < ts[k].end <= |s|
    ensures forall a, b :: 0 <= a < b < |ts| ==> ts[a].end < ts[b].start
    ensures forall p :: 0 <= p < |s| && isWord(s[p]) ==> exists k :: 0 <= k < |ts| && ts[k].start <= p < ts[k].end
  {
    TokensFromMaximal(isWord, s, 0);
    TokensFromOrdered(isWord, s, 0);
    TokensFromCover(isWord, s, 0);
    TokensFrom(isWord, s, 0)
  }

  /** The texts of the tokens, in order: `re.findall(r'\b\w+\b', s)`. */
  function TokenTexts(s: string, ts: seq<Token>): (ws: seq<string>)
    requires forall k :: 0 <= k < |ts| ==> ts[k].start <= ts[k].end <= |s|
    ensures |ws| == |ts|
    ensures forall k :: 0 <= k < |ts| ==> ws[k] == s[ts[k].start..ts[k].end]
  {
    if |ts| == 0 then [] else [s[ts[0].start..ts[0].end]] + TokenTexts(s, ts[1..])
  }

  /** `re.findall(r'\b\w+\b', s)`. */
  function Words(isWord: char -> bool, s: string): seq<string> {
    TokenTexts(s, Tokenize(isWord, s))
  }
}
