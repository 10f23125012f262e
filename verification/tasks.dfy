/**
 The per-recording task lifecycle: the two status columns of a recording, the
 transitions made by the recognition worker (`threads/recognize_record_thread.py`),
 the analysis worker (`threads/analyze_text_thread.py`) and the start-up
 cleanup (`database/task_cleanup.py`), and the rules by which the workers pick
 their next records. Threads, queues and the database are not modelled: a
 table is a sequence of rows in storage order, and what the recogniser or the
 analyser returns (or that it raised) is a parameter.
 */
module RecordingTasks {
  import opened Options
  import opened Conversation
  import opened Highlights

  /** `RecordingTaskStatus`. */
  datatype Status = New | Pending | Finished | Failed

  /** The integer each status is stored as. */
  function Code(s: Status): nat {
    match s
    case New => 0
    case Pending => 1
    case Finished => 2
    case Failed => 3
  }

  /** `RecordingTaskStatus(n)`: `None` where the enum lookup raises. */
  function FromCode(n: int): (s: Option<Status>)
    ensures s.Some? <==> 0 <= n <= 3
  {
    if n == 0 then Some(New)
    else if n == 1 then Some(Pending)
    else if n == 2 then Some(Finished)
    else if n == 3 then Some(Failed)
    else None
  }

  /** The stored codes and the statuses correspond one to one. */
  lemma CodeRoundTrip(s: Status, n: int)
    ensures FromCode(Code(s)) == Some(s)
    ensures FromCode(n) == Some(s) <==> Code(s) == n
  {
  }

  /** A row of the `recordings` table. */
  datatype Recording = Recording(
    id: int,
    path: string,
    created: int,
    recognize: Status,
    analysis: Status,
    duration: Option<real>,
    conversation: Option<seq<Utterance>>)

  /** A row of the `conversations` table: one analysed utterance of a recording. */
  datatype ConversationRow = ConversationRow(
    recordingId: int,
    speaker: string,
    text: string,
    startTime: real,
    endTime: real,
    highlights: seq<Highlight>)

  /** A new `RecordingEntity(path=...)`: both statuses at their default, nothing recognised yet. */
  function NewRecording(id: int, path: string, created: int): (r: Recording)
    ensures r.id == id && r.path == path && r.created == created
    ensures r.recognize == New && r.analysis == New
    ensures r.duration.None? && r.conversation.None?
  {
    Recording(id, path, created, New, New, None, None)
  }

  /** What an external step produced, or that it raised. */
  datatype Attempt<T> = Completed(value: T) | Raised

  /* ---------------- the lifecycle ---------------- */

  /** One status move the workers make: claim a NEW task, or settle a PENDING one. */
  predicate WorkerMove(a: Status, b: Status) {
    || (a == New && b == Pending)
    || (a == Pending && (b == Finished || b == Failed))
  }

  /** Zero, one or two worker moves. */
  predicate WorkerPath(a: Status, b: Status) {
    a == b || WorkerMove(a, b) || (exists m: Status :: WorkerMove(a, m) && WorkerMove(m, b))
  }

  /* ---------------- recognition worker ---------------- */

  /** The record and `current_task` once `_process_task` returns. */
  datatype RecognizeStep = RecognizeStep(record: Option<Recording>, current: Option<int>)

  /** The first write of `_process_task`: a NEW record is claimed as PENDING; a missing or non-NEW one is skipped (`None`). */
  function BeginRecognize(r: Option<Recording>): (c: Option<Recording>)
    ensures c.Some? <==> r.Some? && r.value.recognize == New
    ensures c.Some? ==> c.value.recognize == Pending && c.value.(recognize := New) == r.value
  {
    if r.None? || r.value.recognize != New then None
    else Some(r.value.(recognize := Pending))
  }

  /** The second write: recognition results stored, recognition FINISHED and analysis due again. */
  function CompleteRecognize(r: Recording, a: ConversationAnalysis): Recording {
    r.(duration := Some(a.duration), conversation := Some(a.utterances), recognize := Finished, analysis := New)
  }

  /** `_mark_task_as_failed`. */
  function FailRecognize(r: Recording): Recording {
    r.(recognize := Failed)
  }

  /** `_process_task` of the recognition worker, given what the conversation analyser produced or that it raised. */
  function ProcessRecognize(r: Option<Recording>, attempt: Attempt<ConversationAnalysis>): (s: RecognizeStep)
    ensures s.current.None?
    ensures s.record.None? <==> r.None?
    ensures r.Some? && r.value.recognize != New ==> s.record == r
  {
    match BeginRecognize(r)
    case None => RecognizeStep(r, None)
    case Some(claimed) =>
      match attempt
      case Completed(a) => RecognizeStep(Some(CompleteRecognize(claimed, a)), None)
      case Raised => RecognizeStep(Some(FailRecognize(claimed)), None)
  }

  /**
   A NEW record ends FINISHED with the analyser's duration and utterances and
   its analysis due again, or FAILED with everything else as it was; its
   identity never changes.
   */
  lemma ProcessRecognizeOutcome(r: Recording, attempt: Attempt<ConversationAnalysis>)
    requires r.recognize == New
    ensures var s := ProcessRecognize(Some(r), attempt).record.value;
            && s.id == r.id && s.path == r.path && s.created == r.created
            && (attempt.Completed? ==>
                  && s.recognize == Finished && s.analysis == New
                  && s.duration == Some(attempt.value.duration)
                  && s.conversation == Some(attempt.value.utterances))
            && (attempt.Raised? ==> s == r.(recognize := Failed))
  {
  }

  /** Recognition moves the status only along the lifecycle, and the analysis status only back to NEW. */
  lemma ProcessRecognizeFollowsLifecycle(r: Recording, attempt: Attempt<ConversationAnalysis>)
    ensures var s := ProcessRecognize(Some(r), attempt).record.value;
            && WorkerPath(r.recognize, s.recognize)
            && (s.analysis == r.analysis || s.analysis == New)
  {
    if r.recognize == New {
      assert WorkerMove(New, Pending);
    }
  }

  /** A record is recognised at most once: processing the result again, with any outcome, changes nothing. */
  lemma ProcessRecognizeOnce(r: Option<Recording>, first: Attempt<ConversationAnalysis>, second: Attempt<ConversationAnalysis>)
    ensures var once := ProcessRecognize(r, first).record;
            ProcessRecognize(once, second).record == once
  {
  }

  /* ---------------- analysis worker ---------------- */

  /** The rows of one recording, in storage order. */
  function RowsOf(rows: seq<ConversationRow>, id: int): (rs: seq<ConversationRow>)
    ensures |rs| <= |rows|
    ensures forall k :: 0 <= k < |rs| ==> rs[k].recordingId == id && rs[k] in rows
  {
    if |rows| == 0 then []
    else (if rows[0].recordingId == id then [rows[0]] else []) + RowsOf(rows[1..], id)
  }

  /** The rows left by `delete(ConversationEntity).where(recording_id == id)`. */
  function WithoutRowsOf(rows: seq<ConversationRow>, id: int): (rs: seq<ConversationRow>)
    ensures forall k :: 0 <= k < |rs| ==> rs[k].recordingId != id && rs[k] in rows
  {
    if |rows| == 0 then []
    else (if rows[0].recordingId != id then [rows[0]] else []) + WithoutRowsOf(rows[1..], id)
  }

  /** The analysed utterances as stored: each carries the recording's id. */
  function Stamp(analysed: seq<ConversationRow>, id: int): (rs: seq<ConversationRow>)
    ensures |rs| == |analysed|
    ensures forall k :: 0 <= k < |rs| ==> rs[k] == analysed[k].(recordingId := id)
  {
    seq(|analysed|, k requires 0 <= k < |analysed| => analysed[k].(recordingId := id))
  }

  /** `if recording.conversation:`: a stored, non-empty utterance list. */
  predicate HasConversation(r: Recording) {
    r.conversation.Some? && |r.conversation.value| > 0
  }

  /** The record and the `conversations` table once the analysis worker's `_process_task` returns. */
  datatype AnalysisStep = AnalysisStep(record: Option<Recording>, rows: seq<ConversationRow>)

  /** The first write: a NEW analysis is claimed as PENDING; a missing or non-NEW one is skipped (`None`). */
  function BeginAnalysis(r: Option<Recording>): (c: Option<Recording>)
    ensures c.Some? <==> r.Some? && r.value.analysis == New
    ensures c.Some? ==> c.value.analysis == Pending && c.value.(analysis := New) == r.value
  {
    if r.None? || r.value.analysis != New then None
    else Some(r.value.(analysis := Pending))
  }

  /**
   `_process_task` of the analysis worker. `attempt` is what the analyser
   produced for the stored conversation (one row per utterance) or that it
   raised; it is consulted only when there is a conversation to analyse, and
   a raise happens before any row is written.
   */
  function ProcessAnalysis(r: Option<Recording>, rows: seq<ConversationRow>, attempt: Attempt<seq<ConversationRow>>): (s: AnalysisStep)
    ensures s.record.None? <==> r.None?
    ensures r.Some? && r.value.analysis != New ==> s == AnalysisStep(r, rows)
  {
    match BeginAnalysis(r)
    case None => AnalysisStep(r, rows)
    case Some(claimed) =>
      if !HasConversation(claimed) then AnalysisStep(Some(claimed.(analysis := Finished)), rows)
      else
        match attempt
        case Raised => AnalysisStep(Some(claimed.(analysis := Failed)), rows)
        case Completed(analysed) =>
          AnalysisStep(Some(claimed.(analysis := Finished)), WithoutRowsOf(rows, claimed.id) + Stamp(analysed, claimed.id))
  }

  lemma {:induction false} RowsOfConcat(a: seq<ConversationRow>, b: seq<ConversationRow>, id: int)
    ensures RowsOf(a + b, id) == RowsOf(a, id) + RowsOf(b, id)
  {
    if |a| > 0 {
      var h := if a[0].recordingId == id then [a[0]] else [];
      var x := RowsOf(a[1..], id);
      var y := RowsOf(b, id);
      RowsOfConcat(a[1..], b, id);
      assert (a + b)[0] == a[0] && (a + b)[1..] == a[1..] + b;
      assert RowsOf(a + b, id) == h + (x + y);
      assert RowsOf(a, id) == h + x;
      assert h + (x + y) == (h + x) + y;
    } else {
      assert a + b == b;
    }
  }

  /** Deleting one recording's rows leaves none of them and every other recording's rows as they were. */
  lemma {:induction false} RowsOfWithout(rows: seq<ConversationRow>, id: int, other: int)
    ensures RowsOf(WithoutRowsOf(rows, id), id) == []
    ensures other != id ==> RowsOf(WithoutRowsOf(rows, id), other) == RowsOf(rows, other)
  {
    if |rows| > 0 {
      RowsOfWithout(rows[1..], id, other);
      var head := if rows[0].recordingId != id then [rows[0]] else [];
      RowsOfConcat(head, WithoutRowsOf(rows[1..], id), id);
      RowsOfConcat(head, WithoutRowsOf(rows[1..], id), other);
    }
  }

  lemma {:induction false} RowsOfStamp(analysed: seq<ConversationRow>, id: int, other: int)
    ensures RowsOf(Stamp(analysed, id), id) == Stamp(analysed, id)
    ensures other != id ==> RowsOf(Stamp(analysed, id), other) == []
  {
    if |analysed| > 0 {
      RowsOfStamp(analysed[1..], id, other);
      assert Stamp(analysed, id)[1..] == Stamp(analysed[1..], id);
    }
  }

  /**
   A NEW analysis ends FINISHED, replacing the recording's rows by the
   analysed utterances and leaving every other recording's rows alone, or
   FAILED with the table untouched; with no conversation it ends FINISHED
   without touching the table. Recognition status and identity are kept.
   */
  lemma ProcessAnalysisOutcome(r: Recording, rows: seq<ConversationRow>, attempt: Attempt<seq<ConversationRow>>, other: int)
    requires r.analysis == New
    ensures var s := ProcessAnalysis(Some(r), rows, attempt);
            && s.record.value == r.(analysis := s.record.value.analysis)
            && (!HasConversation(r) ==> s.record.value.analysis == Finished && s.rows == rows)
            && (HasConversation(r) && attempt.Raised? ==> s.record.value.analysis == Failed && s.rows == rows)
            && (HasConversation(r) && attempt.Completed? ==>
                  && s.record.value.analysis == Finished
                  && RowsOf(s.rows, r.id) == Stamp(attempt.value, r.id)
                  && (other != r.id ==> RowsOf(s.rows, other) == RowsOf(rows, other)))
  {
    if HasConversation(r) && attempt.Completed? {
      var w := WithoutRowsOf(rows, r.id);
      var st := Stamp(attempt.value, r.id);
      RowsOfConcat(w, st, r.id);
      RowsOfConcat(w, st, other);
      RowsOfWithout(rows, r.id, other);
      RowsOfStamp(attempt.value, r.id, other);
    }
  }

  /** Analysis moves its status only along the lifecycle and never touches the recognition status. */
  lemma ProcessAnalysisFollowsLifecycle(r: Recording, rows: seq<ConversationRow>, attempt: Attempt<seq<ConversationRow>>)
    ensures var s := ProcessAnalysis(Some(r), rows, attempt).record.value;
            WorkerPath(r.analysis, s.analysis) && s.recognize == r.recognize
  {
    if r.analysis == New {
      assert WorkerMove(New, Pending);
    }
  }

  /** A record queued twice is analysed once: the second run, with any outcome, changes neither the record nor the table. */
  lemma ProcessAnalysisOnce(r: Option<Recording>, rows: seq<ConversationRow>, first: Attempt<seq<ConversationRow>>, second: Attempt<seq<ConversationRow>>)
    ensures var once := ProcessAnalysis(r, rows, first);
            ProcessAnalysis(once.record, once.rows, second) == once
  {
  }

  /**
   Analysing a recording again (after its analysis is set back to NEW)
   leaves only the second run's rows for it: the first run's rows are
   deleted, not duplicated.
   */
  lemma ReanalysisReplacesRows(r: Recording, rows: seq<ConversationRow>, first: seq<ConversationRow>, second: seq<ConversationRow>)
    requires r.analysis == New && HasConversation(r)
    ensures var once := ProcessAnalysis(Some(r), rows, Completed(first));
            var again := ProcessAnalysis(Some(once.record.value.(analysis := New)), once.rows, Completed(second));
            RowsOf(again.rows, r.id) == Stamp(second, r.id)
  {
    var once := ProcessAnalysis(Some(r), rows, Completed(first));
    ProcessAnalysisOutcome(once.record.value.(analysis := New), once.rows, Completed(second), r.id);
  }

  /* ---------------- fetch rules ---------------- */

  /** A record the recognition watcher may pick for status `s`: not the task being processed. */
  predicate RecognizeCandidate(r: Recording, s: Status, current: Option<int>) {
    r.recognize == s && (current.None? || r.id != current.value)
  }

  /** `order_by(created).limit(1)` over the candidates with status `s`; ties go to the row stored first. */
  function OldestWith(t: seq<Recording>, s: Status, current: Option<int>): (o: Option<Recording>)
    ensures o.None? <==> forall k :: 0 <= k < |t| ==> !RecognizeCandidate(t[k], s, current)
    ensures o.Some? ==> o.value in t && RecognizeCandidate(o.value, s, current)
    ensures o.Some? ==> forall k :: 0 <= k < |t| && RecognizeCandidate(t[k], s, current) ==> o.value.created <= t[k].created
  {
    if |t| == 0 then None
    else
      var rest := OldestWith(t[1..], s, current);
      assert forall k :: 1 <= k < |t| ==> t[k] == t[1..][k - 1];
      if RecognizeCandidate(t[0], s, current) && (rest.None? || t[0].created <= rest.value.created) then Some(t[0])
      else rest
  }

  /** `_fetch_new_tasks`: the oldest PENDING record other than the current task, else the oldest NEW one. */
  function RecognizeFetch(t: seq<Recording>, current: Option<int>): (o: Option<Recording>)
    ensures o.Some? ==> o.value in t && (current.None? || o.value.id != current.value)
  {
    match OldestWith(t, Pending, current)
    case Some(r) => Some(r)
    case None => OldestWith(t, New, current)
  }

  /**
   The watcher picks a PENDING record whenever one (other than the current
   task) exists, and then the oldest; only otherwise the oldest NEW one; and
   nothing exactly when there is neither.
   */
  lemma RecognizeFetchSpec(t: seq<Recording>, current: Option<int>)
    ensures var o := RecognizeFetch(t, current);
            && (o.None? <==> forall k :: 0 <= k < |t| ==> !RecognizeCandidate(t[k], Pending, current) && !RecognizeCandidate(t[k], New, current))
            && ((exists k :: 0 <= k < |t| && RecognizeCandidate(t[k], Pending, current)) ==>
                  o.Some? && o.value.recognize == Pending
                  && forall k :: 0 <= k < |t| && RecognizeCandidate(t[k], Pending, current) ==> o.value.created <= t[k].created)
            && ((forall k :: 0 <= k < |t| ==> !RecognizeCandidate(t[k], Pending, current)) && o.Some? ==>
                  o.value.recognize == New
                  && forall k :: 0 <= k < |t| && RecognizeCandidate(t[k], New, current) ==> o.value.created <= t[k].created)
  {
  }

  /** A record the analysis fetcher selects: recognised and not yet analysed. */
  predicate AwaitingAnalysis(r: Recording) {
    r.recognize == Finished && r.analysis == New
  }

  /** The ids of the awaiting records, in storage order. */
  function AwaitingIds(t: seq<Recording>): (ids: seq<int>)
    ensures |ids| <= |t|
  {
    if |t| == 0 then []
    else (if AwaitingAnalysis(t[0]) then [t[0].id] else []) + AwaitingIds(t[1..])
  }

  /** An id is selectable exactly when some awaiting record carries it. */
  lemma {:induction false} AwaitingIdsSpec(t: seq<Recording>, id: int)
    ensures id in AwaitingIds(t) <==> exists k :: 0 <= k < |t| && AwaitingAnalysis(t[k]) && t[k].id == id
  {
    if |t| > 0 {
      AwaitingIdsSpec(t[1..], id);
      assert forall k :: 1 <= k < |t| ==> t[k] == t[1..][k - 1];
      if AwaitingAnalysis(t[0]) && t[0].id == id {
        assert id in AwaitingIds(t);
      }
    }
  }

  /** `fetch_new_tasks`: the first `2 * max_workers` awaiting ids. */
  function AnalysisFetch(t: seq<Recording>, maxWorkers: nat): (ids: seq<int>)
    ensures |ids| <= 2 * maxWorkers
    ensures |ids| == if |AwaitingIds(t)| <= 2 * maxWorkers then |AwaitingIds(t)| else 2 * maxWorkers
    ensures ids == AwaitingIds(t)[..|ids|]
  {
    var all := AwaitingIds(t);
    if |all| <= 2 * maxWorkers then all else all[..2 * maxWorkers]
  }

  /** When no more than `2 * max_workers` records await analysis, one fetch queues every one of them. */
  lemma AnalysisFetchComplete(t: seq<Recording>, maxWorkers: nat, k: int)
    requires |AwaitingIds(t)| <= 2 * maxWorkers
    requires 0 <= k < |t| && AwaitingAnalysis(t[k])
    ensures t[k].id in AnalysisFetch(t, maxWorkers)
  {
    AwaitingIdsSpec(t, t[k].id);
  }

  /** One pass of the fetcher loop: fetch only when the queue holds fewer ids than there are workers. */
  function FetcherTick(queue: seq<int>, t: seq<Recording>, maxWorkers: nat): (q: seq<int>)
    ensures |queue| >= maxWorkers ==> q == queue
    ensures |queue| <= |q| && q[..|queue|] == queue
    ensures |queue| < maxWorkers ==> |q| < 3 * maxWorkers
  {
    if |queue| < maxWorkers then queue + AnalysisFetch(t, maxWorkers) else queue
  }

  /* ---------------- start-up cleanup ---------------- */

  /** A status left behind by an interrupted or failed run. */
  predicate Stuck(s: Status) {
    s == Pending || s == Failed
  }

  /** One column of `reset_stuck_tasks`. */
  function ResetStatus(s: Status): (r: Status)
    ensures !Stuck(r)
    ensures r == s <==> !Stuck(s)
    ensures r != s ==> r == New
  {
    if Stuck(s) then New else s
  }

  /** `reset_stuck_tasks` on one record: each column reset on its own, nothing else touched. */
  function ResetStuck(r: Recording): (c: Recording)
    ensures c.(recognize := r.recognize, analysis := r.analysis) == r
    ensures c.recognize == ResetStatus(r.recognize) && c.analysis == ResetStatus(r.analysis)
  {
    r.(recognize := ResetStatus(r.recognize), analysis := ResetStatus(r.analysis))
  }

  /** `reset_stuck_tasks` on the table. */
  function ResetStuckTable(t: seq<Recording>): (c: seq<Recording>)
    ensures |c| == |t|
    ensures forall k :: 0 <= k < |t| ==> c[k] == ResetStuck(t[k])
  {
    seq(|t|, k requires 0 <= k < |t| => ResetStuck(t[k]))
  }

  /** After the cleanup no column is stuck, and the cleanup undoes nothing but stuck states. */
  lemma ResetStuckClears(r: Recording)
    ensures !Stuck(ResetStuck(r).recognize) && !Stuck(ResetStuck(r).analysis)
    ensures ResetStuck(r).recognize in {New, Finished} && ResetStuck(r).analysis in {New, Finished}
    ensures ResetStuck(r) == r <==> !Stuck(r.recognize) && !Stuck(r.analysis)
  {
  }

  /** Running the cleanup twice is running it once. */
  lemma ResetStuckIdempotent(t: seq<Recording>)
    ensures ResetStuckTable(ResetStuckTable(t)) == ResetStuckTable(t)
  {
    ResetStuckTableFixes(ResetStuckTable(t));
  }

  /** A table with no stuck column is left as it is. */
  lemma ResetStuckTableFixes(t: seq<Recording>)
    requires forall k :: 0 <= k < |t| ==> !Stuck(t[k].recognize) && !Stuck(t[k].analysis)
    ensures ResetStuckTable(t) == t
  {
  }

  /**
   A recognition that raised is retried after a restart: the cleanup makes the
   record NEW, so the watcher has a record to pick; and when every other
   record that is not FINISHED was created later, it picks this one.
   */
  lemma FailedRecognitionRetried(t: seq<Recording>, k: int)
    requires 0 <= k < |t| && t[k].recognize == New
    ensures var after := t[k := ProcessRecognize(Some(t[k]), Raised).record.value];
            var c := ResetStuckTable(after);
            c[k].recognize == New && c[k].id == t[k].id && RecognizeFetch(c, None).Some?
    ensures (forall j :: 0 <= j < |t| && j != k && t[j].recognize != Finished ==> t[k].created < t[j].created) ==>
              var after := t[k := ProcessRecognize(Some(t[k]), Raised).record.value];
              RecognizeFetch(ResetStuckTable(after), None) == Some(ResetStuckTable(after)[k])
  {
    var after := t[k := ProcessRecognize(Some(t[k]), Raised).record.value];
    var c := ResetStuckTable(after);
    assert after[k].id == t[k].id && after[k].created == t[k].created;
    assert RecognizeCandidate(c[k], New, None);
    RecognizeFetchSpec(c, None);
    if forall j :: 0 <= j < |t| && j != k && t[j].recognize != Finished ==> t[k].created < t[j].created {
      assert forall j :: 0 <= j < |c| ==> !RecognizeCandidate(c[j], Pending, None) by {
        forall j | 0 <= j < |c| ensures !RecognizeCandidate(c[j], Pending, None) {
          ResetStuckClears(after[j]);
        }
      }
      forall j | 0 <= j < |c| && j != k && RecognizeCandidate(c[j], New, None) ensures c[k].created < c[j].created {
        assert after[j] == t[j];
      }
    }
  }
}
