/**
 The handful of Python `str` operations the system relies on: whitespace
 stripping, splitting on a separator, joining, `len(s.split())`, and slicing
 with Python's clamping of out-of-range and negative bounds.
 */
module Strings {

  /** Python's `str.isspace()` set: what `strip()` and `split()` treat as whitespace. */
  predicate IsSpace(c: char) {
    || c == ' '
    || ('\t' <= c <= '\r')
    || ('\U{1C}' <= c <= '\U{1F}')
    || c == '\U{85}'
    || c == '\U{A0}'
    || c == '\U{1680}'
    || ('\U{2000}' <= c <= '\U{200A}')
    || c == '\U{2028}'
    || c == '\U{2029}'
    || c == '\U{202F}'
    || c == '\U{205F}'
    || c == '\U{3000}'
  }

  /* ---------------- strip ---------------- */

  /** The first offset at or after `i` that holds no whitespace, or `|s|`. */
  function SkipSpaces(s: string, i: nat): (j: nat)
    requires i <= |s|
    ensures i <= j <= |s|
    ensures forall k :: i <= k < j ==> IsSpace(s[k])
    ensures j == |s| || !IsSpace(s[j])
    decreases |s| - i
  {
    if i < |s| && IsSpace(s[i]) then SkipSpaces(s, i + 1) else i
  }

  /** The end of `s[lo..j]` once its trailing whitespace is dropped. */
  function TrimEnd(s: string, lo: nat, j: nat): (e: nat)
    requires lo <= j <= |s|
    ensures lo <= e <= j
    ensures forall k :: e <= k < j ==> IsSpace(s[k])
    ensures e == lo || !IsSpace(s[e - 1])
    decreases j
  {
    if j > lo && IsSpace(s[j - 1]) then TrimEnd(s, lo, j - 1) else j
  }

  /** Everything of `s` outside `s[a..b]` is whitespace. */
  predicate SpaceOutside(s: string, a: int, b: int)
    requires 0 <= a <= b <= |s|
  {
    && (forall k :: 0 <= k < a ==> IsSpace(s[k]))
    && (forall k :: b <= k < |s| ==> IsSpace(s[k]))
  }

  /** `s.strip()`: the longest infix that neither starts nor ends with whitespace. */
  function Strip(s: string): (r: string)
    ensures |r| <= |s|
    ensures r == [] || (!IsSpace(r[0]) && !IsSpace(r[|r| - 1]))
    ensures r == [] <==> forall k :: 0 <= k < |s| ==> IsSpace(s[k])
    ensures exists a, b :: 0 <= a <= b <= |s| && SpaceOutside(s, a, b) && r == s[a..b]
  {
    var a := SkipSpaces(s, 0);
    var b := TrimEnd(s, a, |s|);
    s[a..b]
  }

  /** Only one infix has the shape `Strip` promises, so the contract fixes the result. */
  lemma StripUnique(s: string, a: nat, b: nat)
    requires a <= b <= |s| && SpaceOutside(s, a, b)
    requires a == b || (!IsSpace(s[a]) && !IsSpace(s[b - 1]))
    requires a == b ==> forall k :: 0 <= k < |s| ==> IsSpace(s[k])
    ensures Strip(s) == s[a..b]
  {
  }

  /** Stripping is the identity exactly on strings with no surrounding whitespace. */
  lemma StripFixesStripped(s: string)
    ensures Strip(s) == s <==> (s == [] || (!IsSpace(s[0]) && !IsSpace(s[|s| - 1])))
  {
  }

  /* ---------------- split / join ---------------- */

  /** `sep.join(parts)`. */
  function Join(parts: seq<string>, sep: string): string {
    if |parts| == 0 then ""
    else if |parts| == 1 then parts[0]
    else parts[0] + sep + Join(parts[1..], sep)
  }

  /** Appending a part appends the separator and the part. */
  lemma {:induction false} JoinSnoc(parts: seq<string>, x: string, sep: string)
    requires |parts| > 0
    ensures Join(parts + [x], sep) == Join(parts, sep) + sep + x
  {
    if |parts| > 1 {
      JoinSnoc(parts[1..], x, sep);
      assert (parts + [x])[1..] == parts[1..] + [x];
    } else {
      assert (parts + [x])[1..] == [x];
    }
  }

  function IndexOf(s: string, c: char): (i: nat)
    requires c in s
    ensures i < |s| && s[i] == c && c !in s[..i]
    ensures forall k :: 0 <= k < i ==> s[k] != c
  {
    if s[0] == c then 0 else 1 + IndexOf(s[1..], c)
  }

  /** `s.split(sep)` for a one-character separator: empty pieces are kept. */
  function SplitOn(s: string, sep: char): (parts: seq<string>)
    ensures |parts| >= 1
    ensures forall k :: 0 <= k < |parts| ==> sep !in parts[k]
    ensures Join(parts, [sep]) == s
    decreases |s|
  {
    if sep !in s then [s]
    else
      var i := IndexOf(s, sep);
      var rest := SplitOn(s[i + 1..], sep);
      assert s == s[..i] + [sep] + s[i + 1..];
      [s[..i]] + rest
  }

  lemma IndexOfAfterPiece(a: string, sep: char, b: string)
    requires sep !in a
    ensures sep in a + [sep] + b
    ensures IndexOf(a + [sep] + b, sep) == |a|
  {
    var s := a + [sep] + b;
    assert s[|a|] == sep;
    assert forall k :: 0 <= k < |a| ==> s[k] == a[k];
  }

  /** Splitting undoes joining when no piece contains the separator. */
  lemma {:induction false} SplitJoin(parts: seq<string>, sep: char)
    requires |parts| >= 1
    requires forall k :: 0 <= k < |parts| ==> sep !in parts[k]
    ensures SplitOn(Join(parts, [sep]), sep) == parts
  {
    if |parts| > 1 {
      var tail := Join(parts[1..], [sep]);
      var s := parts[0] + [sep] + tail;
      assert Join(parts, [sep]) == s;
      IndexOfAfterPiece(parts[0], sep, tail);
      assert s[..|parts[0]|] == parts[0];
      assert s[|parts[0]| + 1..] == tail;
      SplitJoin(parts[1..], sep);
      assert SplitOn(s, sep) == [parts[0]] + SplitOn(tail, sep);
      assert parts == [parts[0]] + parts[1..];
    }
  }

  /* ---------------- len(s.split()) ---------------- */

  /** Number of maximal non-whitespace runs of `s`, given whether the character before `s` was whitespace. */
  function RunsAfter(s: string, afterSpace: bool): nat {
    if |s| == 0 then 0
    else (if afterSpace && !IsSpace(s[0]) then 1 else 0) + RunsAfter(s[1..], IsSpace(s[0]))
  }

  /** `len(s.split())`: how many whitespace-separated words `s` has. */
  function WordCount(s: string): nat {
    RunsAfter(s, true)
  }

  lemma {:induction false} RunsAfterConcat(a: string, b: string, afterSpace: bool)
    ensures RunsAfter(a + b, afterSpace)
         == RunsAfter(a, afterSpace) + RunsAfter(b, if |a| == 0 then afterSpace else IsSpace(a[|a| - 1]))
  {
    if |a| > 0 {
      assert (a + b)[1..] == a[1..] + b;
      RunsAfterConcat(a[1..], b, IsSpace(a[0]));
    } else {
      assert a + b == b;
    }
  }

  /** Counting words of longer prefixes never gives fewer words. */
  lemma WordCountMonotone(s: string, i: nat, j: nat)
    requires i <= j <= |s|
    ensures WordCount(s[..i]) <= WordCount(s[..j])
  {
    assert s[..j] == s[..i] + s[i..j];
    RunsAfterConcat(s[..i], s[i..j], true);
  }

  predicate IsWordPiece(w: string) {
    |w| > 0 && forall k :: 0 <= k < |w| ==> !IsSpace(w[k])
  }

  lemma {:induction false} RunsOfWordPiece(w: string, afterSpace: bool)
    requires IsWordPiece(w)
    ensures RunsAfter(w, afterSpace) == (if afterSpace then 1 else 0)
  {
    if |w| > 1 {
      RunsOfWordPiece(w[1..], false);
    }
  }

  /** Joining non-empty, whitespace-free words with single spaces yields a string with exactly that many words. */
  lemma {:induction false} WordCountOfJoin(parts: seq<string>)
    requires forall k :: 0 <= k < |parts| ==> IsWordPiece(parts[k])
    ensures WordCount(Join(parts, " ")) == |parts|
  {
    if |parts| == 1 {
      RunsOfWordPiece(parts[0], true);
    } else if |parts| > 1 {
      var tail := Join(parts[1..], " ");
      WordCountOfJoin(parts[1..]);
      RunsAfterConcat(parts[0], " " + tail, true);
      RunsOfWordPiece(parts[0], true);
      assert (" " + tail)[1..] == tail;
      assert parts[0] + " " + tail == parts[0] + (" " + tail);
    }
  }

  /* ---------------- slicing ---------------- */

  /** Python's normalisation of one slice bound: negative counts from the end, then clamp to [0, n]. */
  function SliceBound(i: int, n: nat): (b: nat)
    ensures b <= n
    ensures 0 <= i <= n ==> b == i
  {
    if i < 0 then (if i + n < 0 then 0 else i + n)
    else if i > n then n
    else i
  }

  /** `s[a:b]` with Python's semantics: never fails, empty when the bounds cross. */
  function PySlice(s: string, a: int, b: int): (r: string)
    ensures 0 <= a <= b <= |s| ==> r == s[a..b]
    ensures b <= a && 0 <= b ==> r == []
  {
    var i := SliceBound(a, |s|);
    var j := SliceBound(b, |s|);
    if i < j then s[i..j] else []
  }
}
