/**
 The status effects of the HTTP routes over recordings: `add_recording` and
 `get_recording` (`routes/recordings.py`), the forced re-analysis and the
 per-dictionary summary of `routes/conversation.py`. Sessions and
 serialisation are not modelled; a response is its `success` flag and its
 `data`, and the `conversations` rows are in id order, the order the
 handlers query them in.
 */
module Routes {
  import opened Options
  import opened Seqs
  import opened Highlights
  import opened RecordingTasks

  /** `SuccessResponse`: `success` defaults to true and `data` to nothing. */
  datatype Response<T> = Response(success: bool, data: Option<T>)

  function IdOf(r: Recording): int { r.id }
  function PathOf(r: Recording): string { r.path }

  /** Every id occurs once (the primary key). */
  predicate UniqueIds(t: seq<Recording>) {
    forall a, b :: 0 <= a < b < |t| ==> t[a].id != t[b].id
  }

  /** Every path occurs once (`unique=True` on `path`). */
  predicate UniquePaths(t: seq<Recording>) {
    forall a, b :: 0 <= a < b < |t| ==> t[a].path != t[b].path
  }

  /* ---------------- GET /recordings/{id} ---------------- */

  /** `get_recording`: the record with the id, or `success = False`. */
  function GetRecording(t: seq<Recording>, id: int): (resp: Response<Recording>)
    ensures resp.success <==> HasKey(t, IdOf, id)
    ensures resp.success ==> resp.data.Some? && resp.data.value in t && resp.data.value.id == id
    ensures !resp.success ==> resp.data.None?
  {
    var i := IndexOfKey(t, IdOf, id);
    if i == |t| then Response(false, None) else Response(true, Some(t[i]))
  }

  /* ---------------- POST /recordings ---------------- */

  /** The id the database assigns to an inserted row: one above the largest in use. */
  function NextId(t: seq<Recording>): (n: int)
    ensures forall k :: 0 <= k < |t| ==> t[k].id < n
  {
    if |t| == 0 then 1
    else
      var rest := NextId(t[1..]);
      assert forall k :: 1 <= k < |t| ==> t[k] == t[1..][k - 1];
      if t[0].id + 1 > rest then t[0].id + 1 else rest
  }

  /** The table after a request, and the response. */
  datatype Reply = Reply(table: seq<Recording>, response: Response<Recording>)

  /** `add_recording`, with `now` the creation time the database stamps. */
  function AddRecording(t: seq<Recording>, path: string, now: int): (out: Reply)
    ensures |out.table| >= |t|
  {
    var i := IndexOfKey(t, PathOf, path);
    if i == |t| then
      var rec := NewRecording(NextId(t), path, now);
      Reply(t + [rec], Response(true, Some(rec)))
    else if t[i].recognize == Finished && t[i].analysis == Finished then
      var rec := t[i].(recognize := New, analysis := New);
      Reply(t[i := rec], Response(true, Some(rec)))
    else Reply(t, Response(false, None))
  }

  /**
   An unknown path is appended as a new record, NEW in both columns, under
   an unused id; a known path whose record is FINISHED in both columns has
   both reset to NEW and nothing else changed; any other known path changes
   nothing and is refused.
   */
  lemma AddRecordingSpec(t: seq<Recording>, path: string, now: int)
    ensures var out := AddRecording(t, path, now);
            var i := IndexOfKey(t, PathOf, path);
            && (!HasKey(t, PathOf, path) ==>
                  && out.response.success
                  && out.table == t + [out.response.data.value]
                  && out.response.data.value.path == path
                  && out.response.data.value.recognize == New && out.response.data.value.analysis == New
                  && !HasKey(t, IdOf, out.response.data.value.id))
            && (HasKey(t, PathOf, path) && t[i].recognize == Finished && t[i].analysis == Finished ==>
                  && out.response.success
                  && out.table == t[i := t[i].(recognize := New, analysis := New)])
            && (HasKey(t, PathOf, path) && !(t[i].recognize == Finished && t[i].analysis == Finished) ==>
                  !out.response.success && out.table == t)
  {
    var i := IndexOfKey(t, PathOf, path);
    if i < |t| {
      assert HasKey(t, PathOf, path);
    }
    if HasKey(t, PathOf, path) {
      var j :| 0 <= j < |t| && PathOf(t[j]) == path;
      assert i <= j;
    }
  }

  /** Adding keeps ids and paths unique. */
  lemma AddRecordingKeepsKeys(t: seq<Recording>, path: string, now: int)
    requires UniqueIds(t) && UniquePaths(t)
    ensures UniqueIds(AddRecording(t, path, now).table) && UniquePaths(AddRecording(t, path, now).table)
  {
    var out := AddRecording(t, path, now);
    var i := IndexOfKey(t, PathOf, path);
    AddRecordingSpec(t, path, now);
    if i == |t| {
      var rec := out.response.data.value;
      forall a, b | 0 <= a < b < |out.table| ensures out.table[a].id != out.table[b].id && out.table[a].path != out.table[b].path {
        if b == |t| {
          assert out.table[b] == rec;
          assert out.table[a] == t[a];
          assert PathOf(t[a]) != path;
        }
      }
    }
  }

  /** Posting the same path twice in a row: the second request is refused and changes nothing. */
  lemma AddRecordingTwice(t: seq<Recording>, path: string, now: int, later: int)
    requires AddRecording(t, path, now).response.success
    ensures var once := AddRecording(t, path, now).table;
            var twice := AddRecording(once, path, later);
            !twice.response.success && twice.table == once
  {
    var out := AddRecording(t, path, now);
    var once := out.table;
    var i := IndexOfKey(t, PathOf, path);
    AddRecordingSpec(t, path, now);
    if i == |t| {
      assert once[|t|].path == path;
      assert HasKey(once, PathOf, path);
      IndexOfKeyPrefix(once, PathOf, path, |t|);
      assert once[..|t|] == t;
    } else {
      assert once[i].path == path;
      assert HasKey(once, PathOf, path);
      var j := IndexOfKey(once, PathOf, path);
      assert j <= i;
    }
    AddRecordingSpec(once, path, later);
  }

  /** After a successful add the recognition watcher has a record to pick. */
  lemma AddedRecordingIsFetched(t: seq<Recording>, path: string, now: int)
    requires AddRecording(t, path, now).response.success
    ensures RecognizeFetch(AddRecording(t, path, now).table, None).Some?
  {
    var out := AddRecording(t, path, now);
    var i := IndexOfKey(t, PathOf, path);
    AddRecordingSpec(t, path, now);
    var k := if i == |t| then |t| else i;
    assert RecognizeCandidate(out.table[k], New, None);
    RecognizeFetchSpec(out.table, None);
  }

  /* ---------------- PUT /conversations/{id} ---------------- */

  /** `analyze_conversation_force`: an existing recording's analysis is set back to NEW. */
  function ForceReanalysis(t: seq<Recording>, id: int): (out: Reply)
    ensures out.response.success <==> HasKey(t, IdOf, id)
    ensures out.response.data.None?
    ensures |out.table| == |t|
  {
    var i := IndexOfKey(t, IdOf, id);
    if i == |t| then Reply(t, Response(false, None))
    else Reply(t[i := t[i].(analysis := New)], Response(true, None))
  }

  /**
   A forced re-analysis changes only the analysis column of the recording
   with that id, and a recording already recognised is then selected by the
   analysis fetcher; a missing recording changes nothing.
   */
  lemma ForceReanalysisSpec(t: seq<Recording>, id: int)
    requires UniqueIds(t)
    ensures var out := ForceReanalysis(t, id);
            && (!HasKey(t, IdOf, id) ==> out.table == t)
            && forall k :: 0 <= k < |t| ==>
                 if t[k].id == id then out.table[k] == t[k].(analysis := New) else out.table[k] == t[k]
    ensures forall k :: 0 <= k < |t| && t[k].id == id && t[k].recognize == Finished ==>
              id in AwaitingIds(ForceReanalysis(t, id).table)
  {
    var out := ForceReanalysis(t, id);
    var i := IndexOfKey(t, IdOf, id);
    forall k | 0 <= k < |t| && t[k].id == id && t[k].recognize == Finished
      ensures id in AwaitingIds(out.table)
    {
      assert AwaitingAnalysis(out.table[k]);
      AwaitingIdsSpec(out.table, id);
    }
  }

  /* ---------------- GET /conversations/{id}/dictionaries ---------------- */

  function DictIdOf(h: Highlight): int { h.dictId }

  /** The highlights of the rows, row by row, each row's in its own order. */
  function AllHighlights(rows: seq<ConversationRow>): seq<Highlight> {
    if |rows| == 0 then [] else rows[0].highlights + AllHighlights(rows[1..])
  }

  lemma {:induction false} AllHighlightsMembers(rows: seq<ConversationRow>, h: Highlight)
    ensures h in AllHighlights(rows) <==> exists k :: 0 <= k < |rows| && h in rows[k].highlights
  {
    if |rows| > 0 {
      AllHighlightsMembers(rows[1..], h);
      assert forall k :: 1 <= k < |rows| ==> rows[k] == rows[1..][k - 1];
    }
  }

  /** The `/dictionaries` handler: the first highlight seen for each dictionary, over the recording's rows in order. */
  function RecordingDictionaries(rows: seq<ConversationRow>, id: int): (resp: Response<seq<Highlight>>)
    ensures resp.success <==> resp.data.Some?
    ensures resp.success <==> |RowsOf(rows, id)| > 0
  {
    var rs := RowsOf(rows, id);
    if |rs| == 0 then Response(false, None)
    else Response(true, Some(DedupBy(AllHighlights(rs), DictIdOf)))
  }

  /**
   The summary names each dictionary that highlighted anything in the
   recording exactly once, by the first of its highlights in row order, and
   lists the dictionaries in the order they first appear.
   */
  lemma RecordingDictionariesSpec(rows: seq<ConversationRow>, id: int)
    requires |RowsOf(rows, id)| > 0
    ensures var hs := RecordingDictionaries(rows, id).data.value;
            var all := AllHighlights(RowsOf(rows, id));
            && (forall a, b :: 0 <= a < b < |hs| ==> hs[a].dictId != hs[b].dictId)
            && (forall h :: h in hs ==> exists k :: 0 <= k < |RowsOf(rows, id)| && h in RowsOf(rows, id)[k].highlights)
            && (forall j :: 0 <= j < |all| ==> HasKey(hs, DictIdOf, all[j].dictId))
            && (forall j :: 0 <= j < |hs| ==>
                  IndexOfKey(all, DictIdOf, hs[j].dictId) < |all| && hs[j] == all[IndexOfKey(all, DictIdOf, hs[j].dictId)])
            && (forall a, b :: 0 <= a < b < |hs| ==>
                  IndexOfKey(all, DictIdOf, hs[a].dictId) < IndexOfKey(all, DictIdOf, hs[b].dictId))
  {
    var rs := RowsOf(rows, id);
    var all := AllHighlights(rs);
    var hs := DedupBy(all, DictIdOf);
    DedupByUniqueKeys(all, DictIdOf);
    DedupBySubset(all, DictIdOf);
    DedupByCovers(all, DictIdOf);
    DedupByFirstSeen(all, DictIdOf);
    forall h | h in hs ensures exists k :: 0 <= k < |rs| && h in rs[k].highlights {
      AllHighlightsMembers(rs, h);
    }
  }
}
