/**
 `add_highlights_to_text` of `classes/text_analyzer.py`: highlights are
 de-duplicated by their `(start, end)` pair, sorted by start, swept left to
 right merging every highlight that starts no later than the current one ends,
 and rendered as alternating plain and marked pieces of the text. The `<mark>`
 element is modelled as a `Marked` piece carrying the attributes it prints.
 */
module Highlights {
  import opened Options
  import opened Strings
  import opened Seqs
  import opened Matcher

  /** A `ConversationHighlight`: a phrase found at `[start, end)` of an utterance, with its dictionary. */
  datatype Highlight = Highlight(
    phrase: string,
    start: int,
    end: int,
    dictName: string,
    dictId: int,
    colour: Option<string>,
    kind: MatchKind)

  /** A piece of the rendered text: untouched text, or a `<mark>` element around the highlighted text. */
  datatype Piece =
    | Plain(text: string)
    | Marked(text: string, colour: string, kind: MatchKind, dictName: string, dictId: int)

  const MergedName: string := "multiple"
  const MergedColour: string := "#ff9900"
  const FallbackColour: string := "#cccccc"

  /** The dictionary fields every merged highlight carries. */
  predicate IsMergedMarker(h: Highlight) {
    h.kind == Merged && h.dictName == MergedName && h.dictId == 0 && h.colour == Some(MergedColour)
  }

  function SpanKey(h: Highlight): (int, int) {
    (h.start, h.end)
  }

  function StartKey(h: Highlight): real {
    h.start as real
  }

  predicate WellFormed(h: Highlight) {
    h.start <= h.end
  }

  /** `o` covers every offset `x` covers. */
  predicate Contains(o: Highlight, x: Highlight) {
    o.start <= x.start && x.end <= o.end
  }

  ghost predicate CoveredBy(x: Highlight, out: seq<Highlight>) {
    exists i :: 0 <= i < |out| && Contains(out[i], x)
  }

  /** `o` starts where one input starts, ends where one input ends, and is an input or a merged highlight. */
  ghost predicate FromInputs(o: Highlight, ins: seq<Highlight>) {
    && (exists k :: 0 <= k < |ins| && o.start == ins[k].start)
    && (exists k :: 0 <= k < |ins| && o.end == ins[k].end)
    && (o in ins || IsMergedMarker(o))
  }

  predicate StartSorted(hs: seq<Highlight>) {
    forall i, j :: 0 <= i < j < |hs| ==> hs[i].start <= hs[j].start
  }

  /** Each highlight ends strictly before the next one starts. */
  predicate Gapped(hs: seq<Highlight>) {
    forall i :: 0 <= i < |hs| - 1 ==> hs[i].end < hs[i + 1].start
  }

  /** No two highlights share an offset, and they are in text order. */
  predicate Disjoint(hs: seq<Highlight>) {
    forall i, j :: 0 <= i < j < |hs| ==> hs[i].end < hs[j].start
  }

  /* ---------------- merging ---------------- */

  /** The highlight that replaces two overlapping ones. */
  function Combine(a: Highlight, b: Highlight): (c: Highlight)
    ensures c.start <= a.start && c.start <= b.start && (c.start == a.start || c.start == b.start)
    ensures c.end >= a.end && c.end >= b.end && (c.end == a.end || c.end == b.end)
    ensures Contains(c, a) && Contains(c, b)
    ensures IsMergedMarker(c)
    ensures c.phrase == a.phrase + "|" + b.phrase
  {
    Highlight(
      a.phrase + "|" + b.phrase,
      if a.start <= b.start then a.start else b.start,
      if a.end >= b.end then a.end else b.end,
      MergedName, 0, Some(MergedColour), Merged)
  }

  /** The sweep with `cur` as the highlight being grown and `rest` still to visit. */
  function Sweep(cur: Highlight, rest: seq<Highlight>): (r: seq<Highlight>)
    ensures 1 <= |r| <= 1 + |rest|
    decreases |rest|
  {
    if |rest| == 0 then [cur]
    else if rest[0].start <= cur.end then Sweep(Combine(cur, rest[0]), rest[1..])
    else [cur] + Sweep(rest[0], rest[1..])
  }

  /** On start-sorted input the sweep's results are in start order and separated by gaps. */
  lemma {:induction false} SweepGapped(cur: Highlight, rest: seq<Highlight>)
    requires StartSorted(rest)
    requires forall k :: 0 <= k < |rest| ==> cur.start <= rest[k].start
    ensures Sweep(cur, rest)[0].start == cur.start
    ensures Gapped(Sweep(cur, rest))
    ensures StartSorted(Sweep(cur, rest))
    decreases |rest|
  {
    if |rest| > 0 {
      if rest[0].start <= cur.end {
        SweepGapped(Combine(cur, rest[0]), rest[1..]);
      } else {
        var tail := Sweep(rest[0], rest[1..]);
        SweepGapped(rest[0], rest[1..]);
        var r := [cur] + tail;
        assert forall i :: 1 <= i < |r| ==> r[i] == tail[i - 1];
        assert Gapped(r) by {
          forall i | 0 <= i < |r| - 1 ensures r[i].end < r[i + 1].start {
            if i == 0 {
              assert r[1] == tail[0];
            }
          }
        }
        assert StartSorted(r) by {
          forall i, j | 0 <= i < j < |r| ensures r[i].start <= r[j].start {
            assert tail[0].start <= tail[j - 1].start;
          }
        }
      }
    }
  }

  /** Every highlight visited by the sweep ends up inside one of its results. */
  lemma {:induction false} SweepCovers(cur: Highlight, rest: seq<Highlight>)
    ensures CoveredBy(cur, Sweep(cur, rest))
    ensures forall k :: 0 <= k < |rest| ==> CoveredBy(rest[k], Sweep(cur, rest))
    decreases |rest|
  {
    var r := Sweep(cur, rest);
    if |rest| == 0 {
      assert Contains(r[0], cur);
    } else if rest[0].start <= cur.end {
      var c := Combine(cur, rest[0]);
      SweepCovers(c, rest[1..]);
      var i :| 0 <= i < |r| && Contains(r[i], c);
      assert Contains(r[i], cur) && Contains(r[i], rest[0]);
      forall k | 1 <= k < |rest| ensures CoveredBy(rest[k], r) {
        assert rest[k] == rest[1..][k - 1];
      }
    } else {
      var tail := Sweep(rest[0], rest[1..]);
      SweepCovers(rest[0], rest[1..]);
      assert r == [cur] + tail;
      assert Contains(r[0], cur);
      forall k | 0 <= k < |rest| ensures CoveredBy(rest[k], r) {
        var i :| 0 <= i < |tail| && Contains(tail[i], rest[k]) by {
          if k > 0 {
            assert rest[k] == rest[1..][k - 1];
          }
        }
        assert r[i + 1] == tail[i];
      }
    }
  }

  /** Every result of the sweep takes its bounds from the visited highlights. */
  lemma {:induction false} SweepFromInputs(cur: Highlight, rest: seq<Highlight>)
    ensures forall o :: o in Sweep(cur, rest) ==> FromInputs(o, [cur] + rest)
    decreases |rest|
  {
    if |rest| == 0 {
      assert ([cur] + rest)[0] == cur;
    } else if rest[0].start <= cur.end {
      var c := Combine(cur, rest[0]);
      var r := Sweep(c, rest[1..]);
      assert forall o :: o in r ==> FromInputs(o, [c] + rest[1..]) by {
        SweepFromInputs(c, rest[1..]);
      }
      assert Sweep(cur, rest) == r;
      SweepMergeStep(cur, rest, r);
    } else {
      var tail := Sweep(rest[0], rest[1..]);
      assert forall o :: o in tail ==> FromInputs(o, rest) by {
        SweepFromInputs(rest[0], rest[1..]);
        assert [rest[0]] + rest[1..] == rest;
      }
      assert Sweep(cur, rest) == [cur] + tail;
      SweepKeepStep(cur, rest, tail);
    }
  }

  /** Results drawn from the combined head and the rest are drawn from the head, the next and the rest. */
  lemma SweepMergeStep(cur: Highlight, rest: seq<Highlight>, r: seq<Highlight>)
    requires |rest| > 0
    requires forall o :: o in r ==> FromInputs(o, [Combine(cur, rest[0])] + rest[1..])
    ensures forall o :: o in r ==> FromInputs(o, [cur] + rest)
  {
    var ins := [cur] + rest;
    var c := Combine(cur, rest[0]);
    var ins' := [c] + rest[1..];
    assert ins[0] == cur && ins[1] == rest[0];
    forall o | o in r ensures FromInputs(o, ins) {
      assert FromInputs(o, ins');
      var a :| 0 <= a < |ins'| && o.start == ins'[a].start;
      var b :| 0 <= b < |ins'| && o.end == ins'[b].end;
      if a > 0 {
        assert ins'[a] == ins[a + 1];
      }
      if b > 0 {
        assert ins'[b] == ins[b + 1];
      }
      if o in ins' && o != c {
        var q :| 0 <= q < |ins'| && ins'[q] == o;
        assert ins[q + 1] == o;
      }
    }
  }

  /** Keeping the head in front of results drawn from the rest draws them all from head and rest. */
  lemma SweepKeepStep(cur: Highlight, rest: seq<Highlight>, tail: seq<Highlight>)
    requires forall o :: o in tail ==> FromInputs(o, rest)
    ensures forall o :: o in [cur] + tail ==> FromInputs(o, [cur] + rest)
  {
    var ins := [cur] + rest;
    assert ins[0] == cur;
    forall o | o in tail ensures FromInputs(o, ins) {
      var a :| 0 <= a < |rest| && o.start == rest[a].start;
      var b :| 0 <= b < |rest| && o.end == rest[b].end;
      assert ins[a + 1] == rest[a] && ins[b + 1] == rest[b];
      if o in rest {
        var q :| 0 <= q < |rest| && rest[q] == o;
        assert ins[q + 1] == o;
      }
    }
  }

  /** Merging well-formed highlights yields well-formed highlights. */
  lemma {:induction false} SweepWellFormed(cur: Highlight, rest: seq<Highlight>)
    requires WellFormed(cur)
    requires forall k :: 0 <= k < |rest| ==> WellFormed(rest[k])
    ensures forall i :: 0 <= i < |Sweep(cur, rest)| ==> WellFormed(Sweep(cur, rest)[i])
    decreases |rest|
  {
    if |rest| > 0 {
      if rest[0].start <= cur.end {
        SweepWellFormed(Combine(cur, rest[0]), rest[1..]);
      } else {
        SweepWellFormed(rest[0], rest[1..]);
        var tail := Sweep(rest[0], rest[1..]);
        assert forall i :: 1 <= i < |tail| + 1 ==> ([cur] + tail)[i] == tail[i - 1];
      }
    }
  }

  lemma GappedWellFormedDisjoint(hs: seq<Highlight>)
    requires Gapped(hs)
    requires forall i :: 0 <= i < |hs| ==> WellFormed(hs[i])
    ensures Disjoint(hs)
  {
    forall i, j | 0 <= i < j < |hs| ensures hs[i].end < hs[j].start {
      GappedChain(hs, i, j);
    }
  }

  lemma {:induction false} GappedChain(hs: seq<Highlight>, i: nat, j: nat)
    requires Gapped(hs)
    requires forall k :: 0 <= k < |hs| ==> WellFormed(hs[k])
    requires i < j < |hs|
    ensures hs[i].end < hs[j].start
    decreases j - i
  {
    if j > i + 1 {
      GappedChain(hs, i, j - 1);
      assert hs[j - 1].start <= hs[j - 1].end;
    }
  }

  /** The unique highlights sorted by start: the input of the sweep. */
  function SortedUnique(hs: seq<Highlight>): seq<Highlight> {
    SortBy(DedupBy(hs, SpanKey), StartKey)
  }

  /** The merged highlights of `add_highlights_to_text`. */
  function MergeHighlights(hs: seq<Highlight>): (r: seq<Highlight>)
    ensures |r| <= |hs|
    ensures r == [] <==> hs == []
  {
    var s := SortedUnique(hs);
    if |s| == 0 then [] else Sweep(s[0], s[1..])
  }

  lemma SortedUniqueMembers(hs: seq<Highlight>)
    ensures forall x :: x in SortedUnique(hs) ==> x in hs
  {
    var d := DedupBy(hs, SpanKey);
    var s := SortBy(d, StartKey);
    DedupBySubset(hs, SpanKey);
    forall x | x in s ensures x in hs {
      assert x in multiset(s);
      assert x in multiset(d);
    }
  }

  lemma SortedUniqueKeys(hs: seq<Highlight>)
    ensures forall k :: 0 <= k < |hs| ==> HasKey(SortedUnique(hs), SpanKey, SpanKey(hs[k]))
  {
    var d := DedupBy(hs, SpanKey);
    var s := SortBy(d, StartKey);
    assert s == SortedUnique(hs);
    DedupByCovers(hs, SpanKey);
    forall k | 0 <= k < |hs| ensures HasKey(s, SpanKey, SpanKey(hs[k])) {
      var j :| 0 <= j < |d| && SpanKey(d[j]) == SpanKey(hs[k]);
      assert d[j] in multiset(d);
      assert d[j] in multiset(s);
      var i :| 0 <= i < |s| && s[i] == d[j];
    }
  }

  lemma SortedUniqueSorted(hs: seq<Highlight>)
    ensures StartSorted(SortedUnique(hs))
  {
    SortByStable(DedupBy(hs, SpanKey), StartKey);
  }

  /** The merged highlights are in start order, each ending strictly before the next one starts. */
  lemma MergeHighlightsGapped(hs: seq<Highlight>)
    ensures Gapped(MergeHighlights(hs)) && StartSorted(MergeHighlights(hs))
  {
    var s := SortedUnique(hs);
    SortedUniqueSorted(hs);
    if |s| > 0 {
      assert StartSorted(s[1..]);
      SweepGapped(s[0], s[1..]);
    }
  }

  /** Every input highlight lies inside one of the merged highlights. */
  lemma MergeHighlightsCovers(hs: seq<Highlight>)
    ensures forall k :: 0 <= k < |hs| ==> CoveredBy(hs[k], MergeHighlights(hs))
  {
    var s := SortedUnique(hs);
    var r := MergeHighlights(hs);
    SortedUniqueKeys(hs);
    if |s| > 0 {
      var cur := s[0];
      var rest := s[1..];
      SweepCovers(cur, rest);
      forall k | 0 <= k < |hs| ensures CoveredBy(hs[k], r) {
        var i :| 0 <= i < |s| && SpanKey(s[i]) == SpanKey(hs[k]);
        var o :| 0 <= o < |r| && Contains(r[o], s[i]) by {
          if i > 0 {
            assert s[i] == rest[i - 1];
          }
        }
        assert Contains(r[o], hs[k]);
      }
    }
  }

  /** Each merged highlight starts where an input starts, ends where an input ends, and is an input or a "multiple" highlight. */
  lemma MergeHighlightsFromInputs(hs: seq<Highlight>)
    ensures forall o :: o in MergeHighlights(hs) ==> FromInputs(o, hs)
  {
    var s := SortedUnique(hs);
    var r := MergeHighlights(hs);
    SortedUniqueMembers(hs);
    if |s| > 0 {
      assert s == [s[0]] + s[1..];
      SweepFromInputs(s[0], s[1..]);
      forall o | o in r ensures FromInputs(o, hs) {
        assert FromInputs(o, s);
        var a :| 0 <= a < |s| && o.start == s[a].start;
        var b :| 0 <= b < |s| && o.end == s[b].end;
        assert s[a] in hs && s[b] in hs;
        var a' :| 0 <= a' < |hs| && hs[a'] == s[a];
        var b' :| 0 <= b' < |hs| && hs[b'] == s[b];
      }
    }
  }

  /** Merging well-formed highlights gives well-formed, pairwise disjoint highlights in text order. */
  lemma MergeHighlightsDisjoint(hs: seq<Highlight>)
    requires forall k :: 0 <= k < |hs| ==> WellFormed(hs[k])
    ensures forall i :: 0 <= i < |MergeHighlights(hs)| ==> WellFormed(MergeHighlights(hs)[i])
    ensures Disjoint(MergeHighlights(hs))
  {
    var s := SortedUnique(hs);
    var r := MergeHighlights(hs);
    SortedUniqueMembers(hs);
    MergeHighlightsGapped(hs);
    if |s| > 0 {
      forall k | 0 <= k < |s| ensures WellFormed(s[k]) {
        assert s[k] in hs;
      }
      SweepWellFormed(s[0], s[1..]);
      GappedWellFormedDisjoint(r);
    }
  }

  /* ---------------- merging only what touches ---------------- */

  /** Offset `p` lies in `[x.start, x.end]`: the sweep treats a highlight's end as touching the next start. */
  predicate Inside(p: int, x: Highlight) {
    x.start <= p <= x.end
  }

  /** Every offset of `o` lies in some highlight of `ins`: `o` bridges no gap between them. */
  ghost predicate Connected(o: Highlight, ins: seq<Highlight>) {
    forall p :: Inside(p, o) ==> exists k :: 0 <= k < |ins| && Inside(p, ins[k])
  }

  /** Combining a connected highlight with a later one that starts inside it leaves no gap. */
  lemma CombineConnected(cur: Highlight, x: Highlight, ins: seq<Highlight>)
    requires Connected(cur, ins) && x in ins && WellFormed(x)
    requires cur.start <= x.start <= cur.end
    ensures Connected(Combine(cur, x), ins)
  {
    var c := Combine(cur, x);
    var i :| 0 <= i < |ins| && ins[i] == x;
    forall p | Inside(p, c) ensures exists k :: 0 <= k < |ins| && Inside(p, ins[k]) {
      if !Inside(p, cur) {
        assert Inside(p, ins[i]);
      }
    }
  }

  /** On start-sorted input every result of the sweep is connected through the visited highlights. */
  lemma {:induction false} SweepConnected(cur: Highlight, rest: seq<Highlight>, ins: seq<Highlight>)
    requires Connected(cur, ins) && StartSorted(rest)
    requires forall k :: 0 <= k < |rest| ==> rest[k] in ins && WellFormed(rest[k]) && cur.start <= rest[k].start
    ensures forall o :: o in Sweep(cur, rest) ==> Connected(o, ins)
    decreases |rest|
  {
    if |rest| == 0 {
      assert Sweep(cur, rest) == [cur];
    } else if rest[0].start <= cur.end {
      CombineConnected(cur, rest[0], ins);
      SweepConnected(Combine(cur, rest[0]), rest[1..], ins);
    } else {
      var x := rest[0];
      assert Connected(x, ins) by {
        var i :| 0 <= i < |ins| && ins[i] == x;
        forall p | Inside(p, x) ensures exists k :: 0 <= k < |ins| && Inside(p, ins[k]) {
          assert Inside(p, ins[i]);
        }
      }
      SweepConnected(x, rest[1..], ins);
      assert Sweep(cur, rest) == [cur] + Sweep(x, rest[1..]);
    }
  }

  /**
   Merging joins only highlights that overlap or touch: every offset of a
   merged highlight lies in some input highlight. With `MergeHighlightsCovers`
   and `MergeHighlightsGapped` this makes the merged highlights exactly the
   connected runs of the inputs.
   */
  lemma MergeHighlightsExact(hs: seq<Highlight>)
    requires forall k :: 0 <= k < |hs| ==> WellFormed(hs[k])
    ensures forall o :: o in MergeHighlights(hs) ==> Connected(o, hs)
  {
    var s := SortedUnique(hs);
    SortedUniqueMembers(hs);
    SortedUniqueSorted(hs);
    if |s| > 0 {
      var cur := s[0];
      var rest := s[1..];
      assert Connected(cur, s) by {
        forall p | Inside(p, cur) ensures exists k :: 0 <= k < |s| && Inside(p, s[k]) {
          assert Inside(p, s[0]);
        }
      }
      forall k | 0 <= k < |rest| ensures rest[k] in s && WellFormed(rest[k]) && cur.start <= rest[k].start {
        assert rest[k] == s[k + 1];
        assert s[k + 1] in hs;
      }
      SweepConnected(cur, rest, s);
      forall o | o in MergeHighlights(hs) ensures Connected(o, hs) {
        forall p | Inside(p, o) ensures exists k :: 0 <= k < |hs| && Inside(p, hs[k]) {
          var j :| 0 <= j < |s| && Inside(p, s[j]);
          assert s[j] in hs;
          var k :| 0 <= k < |hs| && hs[k] == s[j];
        }
      }
    }
  }

  /* ---------------- idempotence ---------------- */

  lemma {:induction false} SweepGappedIdentity(cur: Highlight, rest: seq<Highlight>)
    requires Gapped([cur] + rest)
    ensures Sweep(cur, rest) == [cur] + rest
    decreases |rest|
  {
    if |rest| > 0 {
      var s := [cur] + rest;
      assert s[0] == cur && s[1] == rest[0];
      assert cur.end < rest[0].start;
      assert Gapped([rest[0]] + rest[1..]) by {
        assert [rest[0]] + rest[1..] == rest;
        forall i | 0 <= i < |rest| - 1 ensures rest[i].end < rest[i + 1].start {
          assert rest[i] == s[i + 1] && rest[i + 1] == s[i + 2];
        }
      }
      SweepGappedIdentity(rest[0], rest[1..]);
      assert [rest[0]] + rest[1..] == rest;
    }
  }

  /** Merging well-formed highlights a second time changes nothing. */
  lemma MergeHighlightsIdempotent(hs: seq<Highlight>)
    requires forall k :: 0 <= k < |hs| ==> WellFormed(hs[k])
    ensures MergeHighlights(MergeHighlights(hs)) == MergeHighlights(hs)
  {
    var r := MergeHighlights(hs);
    MergeHighlightsGapped(hs);
    MergeHighlightsDisjoint(hs);
    if |r| > 0 {
      DedupByDistinct(r, SpanKey);
      assert SortedBy(r, StartKey);
      SortBySorted(r, StartKey);
      assert r == [r[0]] + r[1..];
      SweepGappedIdentity(r[0], r[1..]);
    }
  }

  /* ---------------- rendering ---------------- */

  /** The colour printed in the mark: the dictionary colour, or grey when it is `None` or empty. */
  function ShownColour(h: Highlight): (c: string)
    ensures c != ""
    ensures h.colour.Some? && h.colour.value != "" ==> c == h.colour.value
  {
    match h.colour
    case Some(c) => if c == "" then FallbackColour else c
    case None => FallbackColour
  }

  function MarkOf(text: string, h: Highlight): Piece {
    Marked(PySlice(text, h.start, h.end), ShownColour(h), h.kind, h.dictName, h.dictId)
  }

  /** The rendering loop from offset `last`: the text before each mark, the mark, and the text after the last one. */
  function RenderFrom(text: string, hs: seq<Highlight>, last: int): seq<Piece>
    decreases |hs|
  {
    if |hs| == 0 then
      if last < |text| then [Plain(PySlice(text, last, |text|))] else []
    else
      var h := hs[0];
      Gap(text, last, h.start) + [MarkOf(text, h)]
        + RenderFrom(text, hs[1..], h.end)
  }

  /** `add_highlights_to_text`: the text unchanged without highlights, otherwise the merged highlights rendered. */
  function AddHighlights(text: string, hs: seq<Highlight>): seq<Piece> {
    if |hs| == 0 then [Plain(text)] else RenderFrom(text, MergeHighlights(hs), 0)
  }

  /** The characters of the rendered text with the markup removed. */
  function TextOf(ps: seq<Piece>): string {
    if |ps| == 0 then "" else ps[0].text + TextOf(ps[1..])
  }

  /** The marks of a rendering, in order. */
  function Marks(ps: seq<Piece>): seq<Piece> {
    if |ps| == 0 then [] else (if ps[0].Marked? then [ps[0]] else []) + Marks(ps[1..])
  }

  lemma {:induction false} TextOfConcat(a: seq<Piece>, b: seq<Piece>)
    ensures TextOf(a + b) == TextOf(a) + TextOf(b)
  {
    if |a| > 0 {
      assert (a + b)[1..] == a[1..] + b;
      TextOfConcat(a[1..], b);
    } else {
      assert a + b == b;
    }
  }

  lemma {:induction false} MarksConcat(a: seq<Piece>, b: seq<Piece>)
    ensures Marks(a + b) == Marks(a) + Marks(b)
  {
    if |a| > 0 {
      assert (a + b)[1..] == a[1..] + b;
      MarksConcat(a[1..], b);
    } else {
      assert a + b == b;
    }
  }

  /** Highlights that can be cut out of `text` in order without overlapping. */
  predicate Renderable(text: string, hs: seq<Highlight>, last: int) {
    && (forall i :: 0 <= i < |hs| ==> 0 <= hs[i].start <= hs[i].end <= |text|)
    && (forall i :: 0 <= i < |hs| - 1 ==> hs[i].end <= hs[i + 1].start)
    && (|hs| > 0 ==> last <= hs[0].start)
  }

  lemma TextOfSingle(p: Piece)
    ensures TextOf([p]) == p.text
  {
    assert TextOf([p]) == p.text + TextOf([]);
  }

  lemma MarksSingle(p: Piece)
    ensures Marks([p]) == if p.Marked? then [p] else []
  {
    assert Marks([p]) == (if p.Marked? then [p] else []) + Marks([]);
  }

  /** One step of the rendering loop: the gap before `hs[0]`, its mark, and the rest. */
  lemma RenderFromStep(text: string, hs: seq<Highlight>, last: int)
    requires |hs| > 0
    ensures RenderFrom(text, hs, last)
         == Gap(text, last, hs[0].start) + [MarkOf(text, hs[0])] + RenderFrom(text, hs[1..], hs[0].end)
  {
  }

  /** The plain piece emitted before a mark starting at `start`, if the scan is not already past it. */
  function Gap(text: string, last: int, start: int): seq<Piece> {
    if start > last then [Plain(PySlice(text, last, start))] else []
  }

  lemma SliceThree(text: string, a: nat, b: nat, c: nat)
    requires a <= b <= c <= |text|
    ensures text[a..] == text[a..b] + text[b..c] + text[c..]
  {
  }

  /** Removing the markup from the rendering of in-bounds, ordered, non-overlapping highlights gives back the text from `last`. */
  lemma {:induction false} RenderFromText(text: string, hs: seq<Highlight>, last: int)
    requires 0 <= last <= |text|
    requires Renderable(text, hs, last)
    ensures TextOf(RenderFrom(text, hs, last)) == text[last..]
    decreases |hs|
  {
    if |hs| == 0 {
      if last < |text| {
        TextOfSingle(Plain(PySlice(text, last, |text|)));
      }
    } else {
      var h := hs[0];
      var pre := Gap(text, last, h.start);
      var mk := MarkOf(text, h);
      var tail := RenderFrom(text, hs[1..], h.end);
      RenderFromStep(text, hs, last);
      assert Renderable(text, hs[1..], h.end) by {
        assert forall i :: 0 <= i < |hs| - 1 ==> hs[1..][i] == hs[i + 1];
      }
      RenderFromText(text, hs[1..], h.end);
      TextOfConcat(pre + [mk], tail);
      TextOfConcat(pre, [mk]);
      TextOfSingle(mk);
      assert TextOf(pre) == text[last..h.start] by {
        if h.start > last {
          TextOfSingle(pre[0]);
        }
      }
      SliceThree(text, last, h.start, h.end);
    }
  }

  /** The rendering holds exactly one mark per highlight, in order, showing the highlighted slice. */
  lemma {:induction false} RenderFromMarks(text: string, hs: seq<Highlight>, last: int)
    ensures Marks(RenderFrom(text, hs, last)) == seq(|hs|, i requires 0 <= i < |hs| => MarkOf(text, hs[i]))
    decreases |hs|
  {
    if |hs| > 0 {
      var h := hs[0];
      var pre := Gap(text, last, h.start);
      var mk := MarkOf(text, h);
      var tail := RenderFrom(text, hs[1..], h.end);
      RenderFromStep(text, hs, last);
      RenderFromMarks(text, hs[1..], h.end);
      MarksConcat(pre + [mk], tail);
      MarksConcat(pre, [mk]);
      MarksSingle(mk);
      assert Marks(pre) == [] by {
        if h.start > last {
          MarksSingle(pre[0]);
        }
      }
    } else if last < |text| {
      MarksSingle(Plain(PySlice(text, last, |text|)));
    }
  }

  /**
   Highlighting in-bounds, well-formed highlights only adds markup: the text
   is unchanged, there is one mark per merged highlight, and every input
   highlight lies inside a merged one.
   */
  lemma AddHighlightsRoundTrip(text: string, hs: seq<Highlight>)
    requires forall k :: 0 <= k < |hs| ==> 0 <= hs[k].start <= hs[k].end <= |text|
    ensures TextOf(AddHighlights(text, hs)) == text
    ensures |Marks(AddHighlights(text, hs))| == |MergeHighlights(hs)|
    ensures forall k :: 0 <= k < |hs| ==> CoveredBy(hs[k], MergeHighlights(hs))
  {
    MergeHighlightsCovers(hs);
    if |hs| == 0 {
      assert TextOf([Plain(text)]) == text + TextOf([]);
      assert Marks([Plain(text)]) == [] + Marks([]);
    } else {
      var r := MergeHighlights(hs);
      assert Renderable(text, r, 0) by {
        MergeHighlightsFromInputs(hs);
        MergeHighlightsDisjoint(hs);
        forall i | 0 <= i < |r| ensures 0 <= r[i].start <= r[i].end <= |text| {
          assert r[i] in r;
          assert FromInputs(r[i], hs);
        }
        MergeHighlightsGapped(hs);
        forall i | 0 <= i < |r| - 1 ensures r[i].end <= r[i + 1].start {
        }
      }
      RenderFromText(text, r, 0);
      RenderFromMarks(text, r, 0);
    }
  }

  /**
   An inverted span is not rejected: a single highlight at `(3, 2)` of "ab c"
   renders as "ab ", an empty mark and " c", so the text with the markup
   removed repeats the space.
   */
  lemma InvertedSpanRepeatsText(h: Highlight)
    requires h.start == 3 && h.end == 2
    ensures TextOf(AddHighlights("ab c", [h])) == "ab  c"
  {
    var text := "ab c";
    var pre := Gap(text, 0, 3);
    var mk := MarkOf(text, h);
    var tail := RenderFrom(text, [], 2);
    assert AddHighlights(text, [h]) == pre + [mk] + tail by {
      SingleHighlightMerged(h);
      RenderFromStep(text, [h], 0);
    }
    assert TextOf(pre) == "ab " by {
      TextOfSingle(pre[0]);
    }
    assert TextOf(tail) == " c" by {
      TextOfSingle(tail[0]);
    }
    assert TextOf([mk]) == "" by {
      TextOfSingle(mk);
      assert PySlice(text, 3, 2) == [];
    }
    TextOfConcat(pre + [mk], tail);
    TextOfConcat(pre, [mk]);
  }

  /** A single highlight is merged into itself. */
  lemma SingleHighlightMerged(h: Highlight)
    ensures MergeHighlights([h]) == [h]
  {
    var hs := [h];
    assert hs[..0] == [];
    assert DedupBy(hs, SpanKey) == [h];
    assert SortedUnique(hs) == [h];
  }
}
