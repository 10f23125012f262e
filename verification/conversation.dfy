/**
 `ConversationAnalyzer` of `classes/conversation_analyzer.py`, without the
 audio: the transcribed segments of the two channels are labelled by speaker,
 ordered by start time, and neighbouring utterances of one speaker separated
 by a short pause are merged. Times are seconds, modelled as reals.
 */
module Conversation {
  import opened Strings
  import opened Seqs

  /** An `Utterance`: one speaker's text between two instants. */
  datatype Utterance = Utterance(speaker: string, text: string, startTime: real, endTime: real)

  /** A Whisper segment: its `text`, `start` and `end`. */
  datatype Segment = Segment(text: string, start: real, end: real)

  /** A `ConversationAnalysis`. */
  datatype ConversationAnalysis = ConversationAnalysis(utterances: seq<Utterance>, duration: real)

  const Client: string := "client"
  const Operator: string := "operator"

  /** The default `max_pause` of `merge_adjacent_utterances`, in seconds. */
  const DefaultMaxPause: real := 1.0

  /** `cur` continues `last`: same speaker, and it starts at most `maxPause` after `last` ends. */
  predicate Mergeable(last: Utterance, cur: Utterance, maxPause: real) {
    cur.speaker == last.speaker && cur.startTime - last.endTime <= maxPause
  }

  /** `last` extended by `cur`. */
  function Absorb(last: Utterance, cur: Utterance): Utterance {
    Utterance(last.speaker, last.text + " " + cur.text, last.startTime, cur.endTime)
  }

  /** One turn of the loop: `cur` is merged into the last result or appended to the results. */
  function Step(m: seq<Utterance>, cur: Utterance, maxPause: real): (r: seq<Utterance>)
    requires |m| > 0
    ensures |r| == |m| || |r| == |m| + 1
    ensures r[0].startTime == m[0].startTime
  {
    var last := m[|m| - 1];
    if Mergeable(last, cur, maxPause) then m[..|m| - 1] + [Absorb(last, cur)] else m + [cur]
  }

  /** `merge_adjacent_utterances`: the first utterance starts the results, and every later one is one turn of the loop. */
  function MergeAdjacent(us: seq<Utterance>, maxPause: real): (r: seq<Utterance>)
    ensures |r| <= |us|
    ensures |r| == 0 <==> |us| == 0
    decreases |us|
  {
    if |us| <= 1 then us
    else Step(MergeAdjacent(us[..|us| - 1], maxPause), us[|us| - 1], maxPause)
  }

  function Texts(us: seq<Utterance>): (ts: seq<string>)
    ensures |ts| == |us|
    ensures forall i :: 0 <= i < |us| ==> ts[i] == us[i].text
  {
    seq(|us|, i requires 0 <= i < |us| => us[i].text)
  }

  /** No two neighbouring utterances could be merged any more. */
  predicate Maximal(us: seq<Utterance>, maxPause: real) {
    forall i :: 0 <= i < |us| - 1 ==> !Mergeable(us[i], us[i + 1], maxPause)
  }

  /** `u` starts like some utterance of `us`: same speaker and start time. */
  ghost predicate StartsLike(u: Utterance, us: seq<Utterance>) {
    exists j :: 0 <= j < |us| && u.speaker == us[j].speaker && u.startTime == us[j].startTime
  }

  /** Every result starts like some input. */
  ghost predicate StartsFromInputs(r: seq<Utterance>, us: seq<Utterance>) {
    forall i :: 0 <= i < |r| ==> StartsLike(r[i], us)
  }

  lemma StartsLikeExtend(u: Utterance, p: seq<Utterance>, x: Utterance)
    requires StartsLike(u, p)
    ensures StartsLike(u, p + [x])
  {
    var j :| 0 <= j < |p| && u.speaker == p[j].speaker && u.startTime == p[j].startTime;
    assert (p + [x])[j] == p[j];
  }

  lemma TextsSnoc(us: seq<Utterance>, u: Utterance)
    ensures Texts(us + [u]) == Texts(us) + [u.text]
  {
  }

  /** Extending the last part by `" " + b` extends the joined string by it. */
  lemma JoinAbsorb(init: seq<string>, a: string, b: string)
    ensures Join(init + [a + " " + b], " ") == Join(init + [a], " ") + " " + b
  {
    if |init| > 0 {
      JoinSnoc(init, a, " ");
      JoinSnoc(init, a + " " + b, " ");
    } else {
      assert init + [a] == [a];
      assert init + [a + " " + b] == [a + " " + b];
    }
  }

  /**
   Merging loses no words and keeps their order: joining the texts with
   spaces gives the same string before and after.
   */
  lemma {:induction false} MergeAdjacentKeepsText(us: seq<Utterance>, maxPause: real)
    ensures Join(Texts(MergeAdjacent(us, maxPause)), " ") == Join(Texts(us), " ")
    decreases |us|
  {
    if |us| > 1 {
      var p := us[..|us| - 1];
      var m := MergeAdjacent(p, maxPause);
      var cur := us[|us| - 1];
      var last := m[|m| - 1];
      MergeAdjacentKeepsText(p, maxPause);
      assert us == p + [cur];
      TextsSnoc(p, cur);
      JoinSnoc(Texts(p), cur.text, " ");
      if Mergeable(last, cur, maxPause) {
        var init := m[..|m| - 1];
        assert m == init + [last];
        TextsSnoc(init, last);
        TextsSnoc(init, Absorb(last, cur));
        JoinAbsorb(Texts(init), last.text, cur.text);
      } else {
        TextsSnoc(m, cur);
        JoinSnoc(Texts(m), cur.text, " ");
      }
    }
  }

  /** After merging, no two neighbours could be merged, and the last result ends when, and is spoken by whom, the last input is. */
  lemma {:induction false} MergeAdjacentMaximal(us: seq<Utterance>, maxPause: real)
    ensures Maximal(MergeAdjacent(us, maxPause), maxPause)
    ensures |us| > 0 ==>
              var last := MergeAdjacent(us, maxPause)[|MergeAdjacent(us, maxPause)| - 1];
              last.endTime == us[|us| - 1].endTime && last.speaker == us[|us| - 1].speaker
    decreases |us|
  {
    if |us| > 1 {
      var p := us[..|us| - 1];
      var m := MergeAdjacent(p, maxPause);
      var cur := us[|us| - 1];
      var last := m[|m| - 1];
      MergeAdjacentMaximal(p, maxPause);
      var r := MergeAdjacent(us, maxPause);
      if Mergeable(last, cur, maxPause) {
        assert r == m[..|m| - 1] + [Absorb(last, cur)];
        forall i | 0 <= i < |r| - 1 ensures !Mergeable(r[i], r[i + 1], maxPause) {
          assert r[i] == m[i];
          if i + 1 < |r| - 1 {
            assert r[i + 1] == m[i + 1];
          }
        }
      } else {
        assert r == m + [cur];
        forall i | 0 <= i < |r| - 1 ensures !Mergeable(r[i], r[i + 1], maxPause) {
          assert r[i] == m[i];
        }
      }
    }
  }

  /** A turn of the loop keeps every result starting like some input. */
  lemma StepStarts(m: seq<Utterance>, p: seq<Utterance>, cur: Utterance, maxPause: real)
    requires |m| > 0 && StartsFromInputs(m, p)
    ensures StartsFromInputs(Step(m, cur, maxPause), p + [cur])
  {
    var r := Step(m, cur, maxPause);
    var last := m[|m| - 1];
    forall i | 0 <= i < |r| ensures StartsLike(r[i], p + [cur]) {
      if i < |m| - 1 || (i == |m| - 1 && !Mergeable(last, cur, maxPause)) {
        assert r[i] == m[i];
        StartsLikeExtend(m[i], p, cur);
      } else if i == |m| - 1 {
        StartsLikeExtend(last, p, cur);
        var j :| 0 <= j < |p + [cur]| && last.speaker == (p + [cur])[j].speaker && last.startTime == (p + [cur])[j].startTime;
        assert r[i].speaker == (p + [cur])[j].speaker && r[i].startTime == (p + [cur])[j].startTime;
      } else {
        assert r[i] == (p + [cur])[|p|];
      }
    }
  }

  /** Every merged utterance begins as one of the inputs: same speaker, same start time. */
  lemma {:induction false} MergeAdjacentStarts(us: seq<Utterance>, maxPause: real)
    ensures StartsFromInputs(MergeAdjacent(us, maxPause), us)
    ensures |us| > 0 ==> MergeAdjacent(us, maxPause)[0].startTime == us[0].startTime
    decreases |us|
  {
    if |us| > 1 {
      var p := us[..|us| - 1];
      var m := MergeAdjacent(p, maxPause);
      var cur := us[|us| - 1];
      MergeAdjacentStarts(p, maxPause);
      assert StartsFromInputs(MergeAdjacent(us, maxPause), us) by {
        StepStarts(m, p, cur, maxPause);
        assert us == p + [cur];
      }
      assert MergeAdjacent(us, maxPause)[0].startTime == us[0].startTime by {
        assert us[0] == p[0];
      }
    } else if |us| == 1 {
      assert MergeAdjacent(us, maxPause) == us;
      assert StartsLike(us[0], us) by {
        assert us[0].speaker == us[0].speaker && us[0].startTime == us[0].startTime;
      }
    }
  }

  predicate StartSorted(us: seq<Utterance>) {
    forall i, j :: 0 <= i < j < |us| ==> us[i].startTime <= us[j].startTime
  }

  /** A turn of the loop keeps the results ordered when `cur` starts no earlier than the last result. */
  lemma StepSorted(m: seq<Utterance>, cur: Utterance, maxPause: real)
    requires |m| > 0 && StartSorted(m) && m[|m| - 1].startTime <= cur.startTime
    ensures StartSorted(Step(m, cur, maxPause))
  {
    var r := Step(m, cur, maxPause);
    forall a, b | 0 <= a < b < |r| ensures r[a].startTime <= r[b].startTime {
      assert r[a].startTime == m[a].startTime;
      if b < |m| {
        assert r[b].startTime == m[b].startTime;
      } else {
        assert m[a].startTime <= m[|m| - 1].startTime;
      }
    }
  }

  /** Merging utterances ordered by start time keeps them ordered by start time. */
  lemma {:induction false} MergeAdjacentSorted(us: seq<Utterance>, maxPause: real)
    requires StartSorted(us)
    ensures StartSorted(MergeAdjacent(us, maxPause))
    decreases |us|
  {
    if |us| > 1 {
      var p := us[..|us| - 1];
      var m := MergeAdjacent(p, maxPause);
      var cur := us[|us| - 1];
      assert StartSorted(p);
      MergeAdjacentSorted(p, maxPause);
      MergeAdjacentStarts(p, maxPause);
      assert StartsLike(m[|m| - 1], p);
      var j :| 0 <= j < |p| && m[|m| - 1].startTime == p[j].startTime;
      assert p[j] == us[j];
      StepSorted(m, cur, maxPause);
    }
  }

  /** Input in which no neighbours could be merged is returned unchanged. */
  lemma {:induction false} MergeAdjacentIdentity(us: seq<Utterance>, maxPause: real)
    requires Maximal(us, maxPause)
    ensures MergeAdjacent(us, maxPause) == us
    decreases |us|
  {
    if |us| > 1 {
      var p := us[..|us| - 1];
      assert Maximal(p, maxPause);
      MergeAdjacentIdentity(p, maxPause);
      assert !Mergeable(us[|us| - 2], us[|us| - 1], maxPause);
      assert p + [us[|us| - 1]] == us;
    }
  }

  /** Merging twice is merging once. */
  lemma MergeAdjacentIdempotent(us: seq<Utterance>, maxPause: real)
    ensures MergeAdjacent(MergeAdjacent(us, maxPause), maxPause) == MergeAdjacent(us, maxPause)
  {
    MergeAdjacentMaximal(us, maxPause);
    MergeAdjacentIdentity(MergeAdjacent(us, maxPause), maxPause);
  }

  /* ---------------- merging as a cut into blocks ---------------- */

  /** Input `i` opens an output of its own: it is the first, or it cannot continue its predecessor. */
  predicate OpensTurn(us: seq<Utterance>, i: int, maxPause: real)
    requires 0 <= i < |us|
  {
    i == 0 || !Mergeable(us[i - 1], us[i], maxPause)
  }

  /** The inputs that open an output, by index in increasing order; decided on neighbouring inputs alone. */
  function Openers(us: seq<Utterance>, maxPause: real): (hs: seq<nat>)
    ensures ValidOpeners(hs, |us|)
    ensures |us| > 0 ==> |hs| > 0 && hs[0] == 0
    ensures forall i :: 0 <= i < |us| ==> (i in hs <==> OpensTurn(us, i, maxPause))
    decreases |us|
  {
    if |us| == 0 then []
    else
      var p := us[..|us| - 1];
      assert forall i :: 0 <= i < |p| ==> OpensTurn(p, i, maxPause) == OpensTurn(us, i, maxPause);
      if OpensTurn(us, |us| - 1, maxPause) then Openers(p, maxPause) + [|us| - 1] else Openers(p, maxPause)
  }

  /** The block opened by `hs[k]` ends at the next opener, or at `n`. */
  function BlockEnd(hs: seq<nat>, k: int, n: nat): nat
    requires 0 <= k < |hs|
  {
    if k + 1 < |hs| then hs[k + 1] else n
  }

  /** A block folded into one utterance the way the loop does it: the first input absorbs each following one. */
  function Merged(b: seq<Utterance>): (u: Utterance)
    requires |b| > 0
    ensures u.speaker == b[0].speaker && u.startTime == b[0].startTime && u.endTime == b[|b| - 1].endTime
    decreases |b|
  {
    if |b| == 1 then b[0] else Absorb(Merged(b[..|b| - 1]), b[|b| - 1])
  }

  /** A folded block's text is the block's texts joined with single spaces. */
  lemma {:induction false} MergedText(b: seq<Utterance>)
    requires |b| > 0
    ensures Merged(b).text == Join(Texts(b), " ")
    decreases |b|
  {
    if |b| > 1 {
      var init := b[..|b| - 1];
      MergedText(init);
      assert b == init + [b[|b| - 1]];
      TextsSnoc(init, b[|b| - 1]);
      JoinSnoc(Texts(init), b[|b| - 1].text, " ");
    }
  }

  /** Inside a block every input continues its predecessor; every later block opens with an input that cannot. */
  lemma BlocksMergeable(us: seq<Utterance>, maxPause: real)
    ensures var hs := Openers(us, maxPause);
            forall k, j :: 0 <= k < |hs| && hs[k] < j < BlockEnd(hs, k, |us|) ==> Mergeable(us[j - 1], us[j], maxPause)
    ensures var hs := Openers(us, maxPause);
            forall k :: 0 < k < |hs| ==> !Mergeable(us[hs[k] - 1], us[hs[k]], maxPause)
  {
    var hs := Openers(us, maxPause);
    forall k, j | 0 <= k < |hs| && hs[k] < j < BlockEnd(hs, k, |us|) ensures Mergeable(us[j - 1], us[j], maxPause) {
      InsideBlock(hs, |us|, k, j);
      assert !OpensTurn(us, j, maxPause);
    }
    forall k | 0 < k < |hs| ensures !Mergeable(us[hs[k] - 1], us[hs[k]], maxPause) {
      assert hs[0] < hs[k];
      assert OpensTurn(us, hs[k], maxPause);
    }
  }

  /** An index strictly inside a block is no opener. */
  lemma InsideBlock(hs: seq<nat>, n: nat, k: int, j: int)
    requires ValidOpeners(hs, n) && 0 <= k < |hs| && hs[k] < j < BlockEnd(hs, k, n)
    ensures j !in hs
  {
    forall t | 0 <= t < |hs| ensures hs[t] != j {
      if t < k {
        assert hs[t] < hs[k];
      } else if t > k {
        assert hs[k + 1] <= hs[t];
      }
    }
  }

  /** The openers are in range and strictly increasing. */
  predicate ValidOpeners(hs: seq<nat>, n: nat) {
    && (forall k :: 0 <= k < |hs| ==> hs[k] < n)
    && (forall a, b :: 0 <= a < b < |hs| ==> hs[a] < hs[b])
  }

  /** `r` is `us` cut before each index of `hs`, each block folded into one utterance. */
  predicate CutAt(us: seq<Utterance>, hs: seq<nat>, r: seq<Utterance>)
    requires ValidOpeners(hs, |us|)
  {
    && |r| == |hs|
    && forall k :: 0 <= k < |hs| ==> r[k] == Merged(us[hs[k]..BlockEnd(hs, k, |us|)])
  }

  /** An input that continues the last block extends it. */
  lemma CutExtend(p: seq<Utterance>, cur: Utterance, hs: seq<nat>, m: seq<Utterance>)
    requires |hs| > 0 && ValidOpeners(hs, |p|) && CutAt(p, hs, m)
    ensures ValidOpeners(hs, |p + [cur]|)
    ensures CutAt(p + [cur], hs, m[..|m| - 1] + [Absorb(m[|m| - 1], cur)])
  {
    var us := p + [cur];
    var r := m[..|m| - 1] + [Absorb(m[|m| - 1], cur)];
    forall k | 0 <= k < |hs| ensures r[k] == Merged(us[hs[k]..BlockEnd(hs, k, |us|)]) {
      if k < |hs| - 1 {
        assert us[hs[k]..hs[k + 1]] == p[hs[k]..hs[k + 1]];
        assert r[k] == m[k];
      } else {
        var blk := p[hs[k]..|p|];
        assert us[hs[k]..|us|] == blk + [cur];
        assert (blk + [cur])[..|blk|] == blk;
        assert m[k] == Merged(blk) && r[k] == Absorb(m[k], cur);
      }
    }
  }

  /** An input that cannot continue the last block opens a block of its own. */
  lemma CutOpen(p: seq<Utterance>, cur: Utterance, hs: seq<nat>, m: seq<Utterance>)
    requires ValidOpeners(hs, |p|) && CutAt(p, hs, m)
    ensures ValidOpeners(hs + [|p|], |p + [cur]|)
    ensures CutAt(p + [cur], hs + [|p|], m + [cur])
  {
    var us := p + [cur];
    var h2 := hs + [|p|];
    var r := m + [cur];
    forall k | 0 <= k < |h2| ensures r[k] == Merged(us[h2[k]..BlockEnd(h2, k, |us|)]) {
      if k < |hs| {
        assert BlockEnd(h2, k, |us|) == BlockEnd(hs, k, |p|);
        assert us[hs[k]..BlockEnd(hs, k, |p|)] == p[hs[k]..BlockEnd(hs, k, |p|)];
        assert r[k] == m[k];
      } else {
        assert us[|p|..|us|] == [cur];
      }
    }
  }

  /** One turn of the loop on the blocks: `cur` extends the last block when it continues it, and opens its own otherwise. */
  lemma CutStep(p: seq<Utterance>, cur: Utterance, hs: seq<nat>, m: seq<Utterance>, maxPause: real)
    requires |hs| > 0 && ValidOpeners(hs, |p|) && CutAt(p, hs, m)
    requires m[|m| - 1].endTime == p[|p| - 1].endTime && m[|m| - 1].speaker == p[|p| - 1].speaker
    ensures var h2 := if OpensTurn(p + [cur], |p|, maxPause) then hs + [|p|] else hs;
            ValidOpeners(h2, |p + [cur]|) && CutAt(p + [cur], h2, Step(m, cur, maxPause))
  {
    var continues := Mergeable(m[|m| - 1], cur, maxPause);
    assert continues == !OpensTurn(p + [cur], |p|, maxPause) by {
      assert (p + [cur])[|p| - 1] == p[|p| - 1] && (p + [cur])[|p|] == cur;
    }
    if continues {
      assert Step(m, cur, maxPause) == m[..|m| - 1] + [Absorb(m[|m| - 1], cur)];
      CutExtend(p, cur, hs, m);
    } else {
      assert Step(m, cur, maxPause) == m + [cur];
      CutOpen(p, cur, hs, m);
    }
  }

  /**
   Merging cuts the input into blocks and does nothing else: a new output
   starts at exactly the inputs that open a turn, and each output is its block
   folded into one utterance.
   */
  lemma {:induction false} MergeAdjacentBlocks(us: seq<Utterance>, maxPause: real)
    ensures ValidOpeners(Openers(us, maxPause), |us|)
    ensures CutAt(us, Openers(us, maxPause), MergeAdjacent(us, maxPause))
    decreases |us|
  {
    if |us| == 1 {
      assert us[0..1] == us;
    } else if |us| > 1 {
      var p := us[..|us| - 1];
      var cur := us[|us| - 1];
      assert us == p + [cur];
      var m := MergeAdjacent(p, maxPause);
      var h := Openers(p, maxPause);
      MergeAdjacentBlocks(p, maxPause);
      assert m[|m| - 1].endTime == p[|p| - 1].endTime && m[|m| - 1].speaker == p[|p| - 1].speaker by {
        MergeAdjacentMaximal(p, maxPause);
      }
      CutStep(p, cur, h, m, maxPause);
      SnocUnfolds(p, cur, maxPause);
    }
  }

  /** Both `Openers` and `MergeAdjacent` of a non-empty list extended by one input take one more step. */
  lemma SnocUnfolds(p: seq<Utterance>, cur: Utterance, maxPause: real)
    requires |p| > 0
    ensures Openers(p + [cur], maxPause) == if OpensTurn(p + [cur], |p|, maxPause) then Openers(p, maxPause) + [|p|] else Openers(p, maxPause)
    ensures MergeAdjacent(p + [cur], maxPause) == Step(MergeAdjacent(p, maxPause), cur, maxPause)
  {
    assert (p + [cur])[..|p|] == p;
  }

  /* ---------------- analyze_conversation ---------------- */

  /** The segments of one channel as utterances of `speaker`. */
  function Label(speaker: string, segs: seq<Segment>): (us: seq<Utterance>)
    ensures |us| == |segs|
    ensures forall i :: 0 <= i < |segs| ==> us[i] == Utterance(speaker, segs[i].text, segs[i].start, segs[i].end)
  {
    seq(|segs|, i requires 0 <= i < |segs| => Utterance(speaker, segs[i].text, segs[i].start, segs[i].end))
  }

  function StartOf(u: Utterance): real {
    u.startTime
  }

  /** `max(u.end_time for u in utterances)`, or 0 for no utterances. */
  function Duration(us: seq<Utterance>): (d: real)
    ensures forall i :: 0 <= i < |us| ==> us[i].endTime <= d
    ensures |us| == 0 ==> d == 0.0
    ensures |us| > 0 ==> exists i :: 0 <= i < |us| && d == us[i].endTime
  {
    if |us| == 0 then 0.0
    else if |us| == 1 then us[0].endTime
    else
      var d := Duration(us[1..]);
      assert forall i :: 1 <= i < |us| ==> us[i] == us[1..][i - 1];
      if us[0].endTime >= d then us[0].endTime else d
  }

  /** Client utterances first, then operator ones, before sorting. */
  function Labelled(client: seq<Segment>, operator: seq<Segment>): seq<Utterance> {
    Label(Client, client) + Label(Operator, operator)
  }

  /** `analyze_conversation`: label, sort stably by start time, merge with the default pause, and take the latest end. */
  function AnalyzeConversation(client: seq<Segment>, operator: seq<Segment>): ConversationAnalysis {
    var us := MergeAdjacent(SortBy(Labelled(client, operator), StartOf), DefaultMaxPause);
    ConversationAnalysis(us, Duration(us))
  }

  /** `u` has the speaker of a channel and starts as some segment of that channel starts. */
  ghost predicate FromChannel(client: seq<Segment>, operator: seq<Segment>, u: Utterance) {
    || (u.speaker == Client && exists k :: 0 <= k < |client| && u.startTime == client[k].start)
    || (u.speaker == Operator && exists k :: 0 <= k < |operator| && u.startTime == operator[k].start)
  }

  lemma LabelledFromChannel(client: seq<Segment>, operator: seq<Segment>, u: Utterance)
    requires u in Labelled(client, operator)
    ensures FromChannel(client, operator, u)
  {
    var l := Labelled(client, operator);
    var q :| 0 <= q < |l| && l[q] == u;
    if q < |client| {
      assert l[q] == Label(Client, client)[q];
    } else {
      assert l[q] == Label(Operator, operator)[q - |client|];
    }
  }

  /** Each merged utterance starts as a segment of the channel its speaker names. */
  lemma AnalyzeConversationChannels(client: seq<Segment>, operator: seq<Segment>)
    ensures var us := AnalyzeConversation(client, operator).utterances;
            forall i :: 0 <= i < |us| ==> FromChannel(client, operator, us[i])
  {
    var l := Labelled(client, operator);
    var s := SortBy(l, StartOf);
    var us := MergeAdjacent(s, DefaultMaxPause);
    MergeAdjacentStarts(s, DefaultMaxPause);
    forall i | 0 <= i < |us| ensures FromChannel(client, operator, us[i]) {
      var j :| 0 <= j < |s| && us[i].speaker == s[j].speaker && us[i].startTime == s[j].startTime;
      assert s[j] in multiset(l) by {
        assert s[j] in multiset(s);
      }
      LabelledFromChannel(client, operator, s[j]);
    }
  }

  /**
   The conversation is ordered by start time and no neighbours could be
   merged; its words are those of the segments ordered by start time (client
   first on ties); each utterance begins as a segment of the channel its
   speaker names; and the duration is the latest end.
   */
  lemma AnalyzeConversationSpec(client: seq<Segment>, operator: seq<Segment>)
    ensures var a := AnalyzeConversation(client, operator);
            && StartSorted(a.utterances)
            && Maximal(a.utterances, DefaultMaxPause)
            && Join(Texts(a.utterances), " ") == Join(Texts(SortBy(Labelled(client, operator), StartOf)), " ")
            && |a.utterances| <= |client| + |operator|
            && (forall i :: 0 <= i < |a.utterances| ==> FromChannel(client, operator, a.utterances[i]))
            && (forall i :: 0 <= i < |a.utterances| ==> a.utterances[i].endTime <= a.duration)
  {
    var l := Labelled(client, operator);
    var s := SortBy(l, StartOf);
    var us := MergeAdjacent(s, DefaultMaxPause);
    SortByStable(l, StartOf);
    MergeAdjacentSorted(s, DefaultMaxPause);
    MergeAdjacentMaximal(s, DefaultMaxPause);
    MergeAdjacentKeepsText(s, DefaultMaxPause);
    MergeAdjacentStarts(s, DefaultMaxPause);
    AnalyzeConversationChannels(client, operator);
  }
}
