# speech-analyzer core in Dafny

This project models the core of the speech-analyzer service. The service
transcribes two-channel call recordings and then looks for dictionary phrases
in what each speaker said. It has four parts, and each is modelled as pure
functions over immutable datatypes:

- **The phrase-matching and highlight engine** (`classes/text_analyzer.py`).
  - Phrase normalisation: `\b\w+\b` tokens, lemmatised and joined by single
    spaces. Keyword extraction uses a stop-word set and a length filter.
  - The three-tier matcher `is_phrase_in_text`:
    - exact: a case-insensitive literal `finditer`;
    - normalised: a search in the normalised text, whose word counts are
      mapped back to original-text token offsets;
    - semantic: gated on keyword overlap and a fuzzy score.
  - The span de-duplication, sort and merge of `add_highlights_to_text`, and
    its rendering.
  - `analyze_utterance`: the speaker-role filter, per-dictionary phrase
    collection, and a cache that is cleared in full once it exceeds 1000
    entries.
  - The batch loop and `clear_cache`.
- **Utterance merging** (`classes/conversation_analyzer.py`).
  - Channel labelling, a stable sort by start time, and the merge of
    same-speaker neighbours whose pause is at most `max_pause`.
  - The conversation duration.
- **Client-IP resolution and allow-listing** (`classes/settings.py`,
  `middleware/ip_whitelist.py`).
  - Comma-list parsing into network, address or raw-text entries.
  - The right-to-left scan of `X-Real-IP` then `X-Forwarded-For` for the
    first entry that is not a trusted proxy.
  - The allow decision and the middleware's 403 / pass-through dispatch.
- **The recording task lifecycle.**
  - The per-record status transitions of the recognition and analysis
    workers, including the delete-then-insert of conversation rows.
  - Their fetch filters and the fetch gate.
  - The startup reset of stuck tasks.
  - The status effects of the recording and conversation routes: add, get,
    forced re-analysis, and the per-dictionary summary.

The modules follow the program. Small libraries come first:

- `Options`: the option type.
- `Strings`: Python's `strip`, `split(',')`, `' '.join`, `len(s.split())`
  and slicing with clamped and negative bounds.
- `Seqs`: first-seen de-duplication by a key and a stable sort by a key.
- `Tokens`: `\b\w+\b` as maximal runs of word characters.

Then come the system's own modules: `Morphology`, `Matcher`, `Highlights`,
`Analyzer`, `Conversation`, `IpSettings`, `IpWhitelist`, `RecordingTasks`
and `Routes`.

Foreign capabilities are parameters: function-valued fields of the `Morph`,
`Engine` and `IpParser` datatypes, and one function parameter.

`Morph` stands for the Python `re` engine and pymorphy3:
- `isWord` is the `\w` character class;
- `lower` is `str.lower` per character;
- `fold` is the case folding of `re.IGNORECASE`: two characters match when
  their folds are equal. It is kept apart from `lower` because `re` also
  identifies characters that `str.lower` keeps apart, such as 'ſ' and 's';
- `parse` is the pymorphy3 lemma, with `None` where the library raises.

`Engine` holds `morph` and adds:
- `similarity`: the rapidfuzz `partial_ratio / 100`;
- `semanticSpans`: the semantic tier's span positions.

`hash(str(dictionaries))` is the separate parameter `fp` of
`Analyzer.AnalyzeUtterance` and `Analyzer.AnalyzeBatch`.

`IpParser` stands for `ipaddress.ip_address`, `ipaddress.ip_network` and
network membership.

### Behaviours of the code that the model keeps

- **Exact matches ignore word boundaries.** The exact tier searches for the
  escaped literal. `Matcher.ExactIgnoresWordBoundaries` shows `"ab"` found
  inside `"cab"`.
- **Spans can be empty or inverted.** Nothing bounds a span to
  `0 <= start < end <= len(text)`.
- **An empty phrase is found everywhere.** The exact tier reports an empty
  match at every offset of the text (`Matcher.ExactEmptyPhrase`).
- **The normalised tier can return an inverted span.** When the normalised
  match begins inside a token, the span can have `start > end`.
  - `Matcher.NormalizedTierInvertsSpan` gives a lemmatiser under which
    phrase `"x"` in text `"ab c"` yields the span `(3, 2)`.
  - `Analyzer.InvertedSpanReachesRendering` carries that highlight through
    `analyze_utterance`.
  - Python's slicing then copies the text twice around the mark: the
    rendered text without markup is `"ab  c"`, not `"ab c"`.
  - `Highlights.AddHighlightsRoundTrip` therefore requires in-range,
    non-inverted spans. The model keeps the code's behaviour and does not
    correct it.
- **The cache key leaves out the speaker.** The key of `analyze_utterance`
  is the text and the dictionary fingerprint.
  - A cached result computed for one speaker is returned for another speaker
    with the same text, even when role-filtered dictionaries would give
    another answer.
  - `Analyzer.CacheIgnoresSpeaker` states this.
  - The key is modelled as a (text, fingerprint) pair. The string
    `f"{text}_{hash}"` is equivalent to the pair, because the integer hash
    has no underscore.
- **`clear_cache` keeps the phrase normalisation cache.** It clears the
  analysis cache and the word lemma cache only (`Analyzer.ClearCache`).

## Model

| member | source | states |
|---|---|---|
| Strings.Strip | classes/settings.py:39 | the result is an infix of the input with only whitespace cut from before and after it, has no leading or trailing Python whitespace, and is empty exactly when the input is all whitespace |
| Strings.StripUnique | classes/settings.py:39 | any infix with only whitespace outside it and none at its ends is the stripped string, so the shape fixes `strip()`'s value |
| Strings.SplitOn | classes/settings.py:38 | the pieces contain no separator, there is at least one, and joining them with the separator gives the input back |
| Strings.SplitJoin | classes/settings.py:38 | splitting a join of separator-free pieces gives the pieces back |
| Strings.WordCountOfJoin | classes/text_analyzer.py:124-125 | `len(' '.join(ws).split())` is the number of pieces when each piece is a non-empty run of non-space characters |
| Strings.PySlice | classes/text_analyzer.py:226-228 | Python slicing: in-range bounds give the substring, and bounds with `end <= start` give the empty string |
| Tokens.Tokenize | classes/text_analyzer.py:65 | `\b\w+\b` matches: every token is a maximal run of word characters, tokens are strictly ordered and disjoint, and every word character lies in a token |
| Tokens.TokenTexts | classes/text_analyzer.py:65 | one text per token, each the token's slice of the input |
| Morphology.Lower | classes/text_analyzer.py:65 | `str.lower` keeps the length and lower-cases character by character |
| Morphology.NormalizeWordFallback | classes/text_analyzer.py:51-58 | when the lemmatiser fails the word is only lower-cased: same length, each character folded |
| Morphology.NormalizeWords | classes/text_analyzer.py:66 | one lemma per token, in token order |
| Morphology.NormalizePhraseStructure | classes/text_analyzer.py:65-67 | the normalised phrase splits back into exactly the token lemmas in order, and its word count is the number of tokens |
| Morphology.NormalizePhraseCached | classes/text_analyzer.py:60-70 | the result is stored under the phrase, other entries are kept, and with a valid cache the result is the uncached normalisation and the cache stays valid |
| Morphology.NormalizePhraseCachedRepeat | classes/text_analyzer.py:62-63 | a repeated call returns the stored value and leaves the cache unchanged |
| Morphology.KeywordsOf | classes/text_analyzer.py:72-87 | a lemma is a keyword exactly when some token longer than two characters and not a stop word normalises to it |
| Matcher.FindFrom | classes/text_analyzer.py:100-103 | every reported span is an occurrence of the phrase under the IGNORECASE fold, with `end - start = len(phrase)`, and spans are left to right and non-overlapping |
| Matcher.FindFromComplete | classes/text_analyzer.py:103 | no occurrence is missed: each one is reported or lies strictly inside a reported one |
| Matcher.ExactPositionsSpec | classes/text_analyzer.py:100-103 | the exact tier is in bounds, sound and complete in the sense above |
| Matcher.ExactEmptyPhrase | classes/text_analyzer.py:102-103 | the empty phrase matches with an empty span at every offset from 0 to `len(text)` |
| Matcher.ExactIgnoresWordBoundaries | classes/text_analyzer.py:102 | a phrase is found exactly inside a longer word |
| Matcher.MapMatchSpec | classes/text_analyzer.py:122-130 | a mapped span starts at some original token's start and ends at some token's end, and it is inverted exactly when the match's start and end word counts are equal and positive |
| Matcher.MapMatches | classes/text_analyzer.py:122-130 | at most one span per match, each one the mapping of some match, and every match that passes the guard contributes its span |
| Matcher.MapMatchesInOrder | classes/text_analyzer.py:122-130 | the span of each match that passes the guard sits at the position counted by the earlier matches that pass it: every such span once, in match order |
| Matcher.NormalizedPositions | classes/text_analyzer.py:105-132 | no more spans than normalised matches, every offset is an original token boundary within `[0, len(text)]`, every match of the normalised phrase that passes the guard contributes its span, every span comes from such a match, and the spans are exactly the present mappings of the matches in match order (`Somes(Mapped(...))`) |
| Matcher.NormalizedPositionsInOrder | classes/text_analyzer.py:110-132 | each match that passes the guard has its span at the position given by the number of earlier matches that pass, so in the order `finditer` reports the matches |
| Options.SomesRank | classes/text_analyzer.py:121-130 | a loop that appends only the produced values keeps each one at its rank among the produced values |
| Matcher.IsPhraseInText | classes/text_analyzer.py:134-179 | tiers run exact, normalised, semantic, and the first non-empty one wins. The semantic tier needs at least three words, two non-empty keyword sets, overlap at least 0.7 and similarity at least the threshold. Otherwise the result is `(False, "none", [])` |
| Matcher.NormalizedTierInvertsSpan | classes/text_analyzer.py:124-129 | a concrete lemmatiser under which the normalised tier returns the inverted span `(3, 2)` |
| Highlights.Combine | classes/text_analyzer.py:202-212 | the merged highlight contains both, takes the smaller start and the larger end, and is marked "multiple", id 0, kind merged, with the two phrases joined by a bar as its phrase |
| Highlights.SortedUniqueKeys | classes/text_analyzer.py:187-193 | every input's `(start, end)` key survives the de-duplication |
| Highlights.SortedUniqueSorted | classes/text_analyzer.py:193 | the de-duplicated highlights are sorted by start |
| Highlights.MergeHighlightsGapped | classes/text_analyzer.py:196-218 | the merged highlights are sorted, and each ends strictly before the next starts |
| Highlights.MergeHighlightsCovers | classes/text_analyzer.py:187-218 | every input highlight lies inside some merged highlight |
| Highlights.MergeHighlightsFromInputs | classes/text_analyzer.py:187-218 | each merged highlight starts where an input starts and ends where an input ends, and is an input or a merged marker |
| Highlights.MergeHighlightsDisjoint | classes/text_analyzer.py:187-218 | from well-formed inputs the merged highlights are well-formed and pairwise disjoint |
| Highlights.MergeHighlightsExact | classes/text_analyzer.py:196-218 | from well-formed inputs every offset of a merged highlight lies in some input highlight, so highlights are merged only when they overlap or touch (`start <= current.end`), and the text between separate runs stays unmarked |
| Highlights.MergeHighlightsIdempotent | classes/text_analyzer.py:187-218 | merging already merged well-formed highlights changes nothing |
| Highlights.ShownColour | classes/text_analyzer.py:230 | the mark's colour is the highlight's colour when it is non-empty, otherwise the non-empty fallback |
| Highlights.RenderFromMarks | classes/text_analyzer.py:224-232 | the rendering holds exactly one mark per merged highlight, in order |
| Highlights.AddHighlightsRoundTrip | classes/text_analyzer.py:181-237 | with in-range spans, the rendering without markup is the original text; it has one mark per merged highlight, and every input is covered |
| Highlights.InvertedSpanRepeatsText | classes/text_analyzer.py:225-235 | an inverted span `(3, 2)` over `"ab c"` renders as `"ab  c"` without markup |
| Analyzer.HighlightsFor | classes/text_analyzer.py:293-304 | one highlight per returned span, in order, carrying the phrase, the span, the dictionary's name, id and colour, and the tier |
| Analyzer.ScanPhrasesSpec | classes/text_analyzer.py:287-305 | a phrase is matched exactly when the matcher finds it, every highlight comes from a found span, and every span of every phrase is highlighted |
| Analyzer.ScanPhrasesListed | classes/text_analyzer.py:287-292 | a phrase is in `matched` exactly when the matcher reports it found, and only listed phrases appear |
| Analyzer.ScanPhrasesSound | classes/text_analyzer.py:293-304 | every highlight of a dictionary's phrase scan is one of the spans the matcher found for one of its phrases |
| Analyzer.ScanPhrasesComplete | classes/text_analyzer.py:291-304 | every span found for every phrase of the dictionary is highlighted |
| Analyzer.ScanDictionariesKeys | classes/text_analyzer.py:281-307 | an id is a key of `matched_phrases` exactly when some dictionary with that id applies to the speaker and matched a phrase |
| Analyzer.ScanDictionariesMatched | classes/text_analyzer.py:306-307 | `matched_phrases[id]` holds the phrases of the last contributing dictionary with that id |
| Analyzer.ScanDictionariesHighlights | classes/text_analyzer.py:281-305 | every highlight comes from a dictionary applying to the speaker, and every span of every applicable phrase is highlighted |
| Analyzer.AnalyzeRendersText | classes/text_analyzer.py:309-315 | with in-range, non-inverted highlights the rendered text without markup is the utterance text |
| Analyzer.ExactHighlightsInBounds | classes/text_analyzer.py:289-304 | every exact-tier highlight lies within the utterance text |
| Analyzer.InvertedSpanReachesRendering | classes/text_analyzer.py:265-315 | an inverted normalised span reaches the analysis result and duplicates text in its rendering |
| Analyzer.AnalyzeUtterance | classes/text_analyzer.py:265-322 | a hit returns the stored result and counts a hit; a miss analyses and counts a miss, stores the result when the cache held fewer than 1000 entries, and empties the cache otherwise |
| Analyzer.AnalyzeUtteranceInvariant | classes/text_analyzer.py:267-320 | the cache stays at most 1000 entries, every entry stays an analysis of its key, and the result analyses the utterance's text |
| Analyzer.AnalyzeUtteranceRepeat | classes/text_analyzer.py:269-271 | analysing the same utterance again returns the same result |
| Analyzer.CacheIgnoresSpeaker | classes/text_analyzer.py:267 | a second utterance with the same text receives the first speaker's analysis |
| Analyzer.ClearCache | classes/text_analyzer.py:365-367 | the cache is emptied and the counters kept |
| Analyzer.ClearCacheForcesMiss | classes/text_analyzer.py:365-367 | after clearing, the next analysis is computed afresh and counted as a miss |
| Analyzer.AnalyzeBatch | classes/text_analyzer.py:325-337 | every utterance of the batch is counted once as a hit or a miss |
| Analyzer.AnalyzeBatchKeys | classes/text_analyzer.py:330-332 | every utterance's `(speaker, start_time)` key is in the result |
| Analyzer.AnalyzeBatchInvariant | classes/text_analyzer.py:325-332 | the batch keeps the cache bounded and sound |
| Analyzer.AnalyzeBatchResults | classes/text_analyzer.py:330-332 | each key maps to an analysis of the text of the last utterance with that key |
| Conversation.MergeAdjacent | classes/conversation_analyzer.py:122-149 | the output is never longer than the input, and is empty exactly when the input is |
| Conversation.Openers | classes/conversation_analyzer.py:136-147 | an input index opens an output exactly when it is the first or its predecessor input has another speaker or ends more than `max_pause` before it starts; the indices are in range and increasing, starting at 0 |
| Conversation.Merged | classes/conversation_analyzer.py:138-145 | a folded block keeps the first input's speaker and start and the last input's end |
| Conversation.MergedText | classes/conversation_analyzer.py:138 | a folded block's text is the block's texts joined by single spaces |
| Conversation.MergeAdjacentBlocks | classes/conversation_analyzer.py:122-149 | the outputs are exactly the blocks between consecutive openers, one per opener in order, each folded into one utterance; so a neighbour is merged exactly when it has the same speaker and starts at most `max_pause` after its predecessor ends, and is otherwise appended unchanged |
| Conversation.BlocksMergeable | classes/conversation_analyzer.py:136-147 | inside an output's block every input continues its predecessor, and every output after the first starts with an input that does not |
| Conversation.MergeAdjacentKeepsText | classes/conversation_analyzer.py:138 | joining the output texts with single spaces gives the join of the input texts |
| Conversation.MergeAdjacentMaximal | classes/conversation_analyzer.py:136-147 | no two adjacent outputs satisfy the merge condition, and the last output ends where the last input ends |
| Conversation.MergeAdjacentStarts | classes/conversation_analyzer.py:130-145 | every output starts as some input with the same speaker starts, and the first output starts as the first input |
| Conversation.MergeAdjacentSorted | classes/conversation_analyzer.py:122-149 | start-sorted input gives start-sorted output |
| Conversation.MergeAdjacentIdempotent | classes/conversation_analyzer.py:122-149 | merging a merged list changes nothing |
| Conversation.Label | classes/conversation_analyzer.py:157-172 | one utterance per segment with the channel's speaker, text and times |
| Conversation.Duration | classes/conversation_analyzer.py:181 | the latest end time, or 0 for no utterances |
| Conversation.AnalyzeConversationChannels | classes/conversation_analyzer.py:156-177 | every utterance of the result has a speaker and a start time taken from a segment of that speaker's channel |
| Conversation.AnalyzeConversationSpec | classes/conversation_analyzer.py:152-186 | the result is sorted by start and fully merged, and keeps the words in start order; each utterance starts as a segment of its speaker's channel, and the duration bounds every end |
| Seqs.InsertByWithKey | classes/conversation_analyzer.py:175 | inserting one element puts it in front of the elements with its key and leaves every other key's elements as they were |
| Seqs.SortByStable | classes/conversation_analyzer.py:175 | the sort orders by the key and keeps the order of elements with equal keys |
| Seqs.DedupByFirstSeen | routes/conversation.py:69-77 | each kept element is the first with its key, and the kept keys are in first-appearance order |
| IpSettings.ParseEntry | classes/settings.py:42-48 | a piece with `/` becomes a network and one without becomes an address; the raw piece is kept exactly when parsing fails |
| IpSettings.ParsePiecesKept | classes/settings.py:37-49 | one entry per piece that is non-empty after stripping, in order, each parsed from the stripped piece |
| IpSettings.KeptStripped | classes/settings.py:39-41 | surviving pieces are non-empty and stripped |
| IpSettings.ParseJoinedList | classes/settings.py:35-49 | parsing a comma-join of clean items gives one entry per item, in order |
| IpSettings.DefaultTrustedProxiesEmpty | classes/settings.py:21 | the default `TRUSTED_PROXIES` yields no trusted proxies |
| IpSettings.DefaultAllowedNetworks | classes/settings.py:20 | the default `ALLOWED_IPS` yields three entries, one each for `127.0.0.1`, `::1` and `localhost` |
| IpSettings.DefaultListsLocalhost | classes/settings.py:20 | `localhost`, which is not an address, is kept as a raw entry |
| IpWhitelist.AnyEntryMatchesSpec | middleware/ip_whitelist.py:53-57 | the entry loop succeeds exactly when some entry admits the address |
| IpWhitelist.IsTrustedProxySpec | middleware/ip_whitelist.py:49-60 | text that is not an address is never a trusted proxy, and an address is one exactly when some entry admits it |
| IpWhitelist.IsIpAllowedSpec | middleware/ip_whitelist.py:62-76 | an address is allowed exactly when a network contains it, an equal address or equal text is listed; other text only when it is listed raw |
| IpWhitelist.HeaderEntries | middleware/ip_whitelist.py:40 | a header value gives at least one entry, and every entry is stripped and holds no comma |
| IpWhitelist.ScanFromRightSpec | middleware/ip_whitelist.py:42-44 | the scan finds an entry exactly when some non-empty, non-proxy entry exists, and then it is the rightmost one |
| IpWhitelist.RealIpSpec | middleware/ip_whitelist.py:32-47 | with trusted proxies, `X-Real-IP`'s rightmost qualifying entry wins, then `X-Forwarded-For`'s; failing both, the leftmost entry of the last header present, else the peer |
| IpWhitelist.RealIpWithoutProxies | middleware/ip_whitelist.py:34-37 | with no trusted proxies the resolved address is the peer host |
| IpWhitelist.Dispatch | middleware/ip_whitelist.py:10-30 | a disabled filter passes through; otherwise the request is admitted with its resolved address exactly when it is allowed, else refused with 403 and the allowed list |
| IpWhitelist.DefaultPassesThrough | classes/settings.py:22 | with default settings every request passes through |
| IpWhitelist.RawPeerAdmitted | middleware/ip_whitelist.py:71-75 | a non-address peer listed raw is admitted when no proxies are trusted |
| IpWhitelist.LocalhostAdmittedByDefault | classes/settings.py:20-21 | with the default lists and the filter enabled, a peer named `localhost` is admitted |
| RecordingTasks.FromCode | entities/enums/recording_task_status.py:4-8 | a status exists exactly for the codes 0 to 3 |
| RecordingTasks.CodeRoundTrip | entities/enums/recording_task_status.py:4-8 | code and status lookup are inverse |
| RecordingTasks.NewRecording | entities/recording_entity.py:19-34 | a new record is NEW in both columns, with no duration and no conversation |
| RecordingTasks.BeginRecognize | threads/recognize_record_thread.py:97-109 | only an existing NEW record is claimed, it becomes PENDING, and nothing else changes |
| RecordingTasks.ProcessRecognize | threads/recognize_record_thread.py:90-135 | `current_task` is cleared, a missing record stays missing, and a record not NEW is untouched |
| RecordingTasks.ProcessRecognizeOutcome | threads/recognize_record_thread.py:116-145 | success stores duration and conversation, sets recognition FINISHED and analysis NEW; failure sets recognition FAILED and changes nothing else |
| RecordingTasks.ProcessRecognizeFollowsLifecycle | threads/recognize_record_thread.py:106-143 | recognition moves only NEW to PENDING to FINISHED or FAILED, and analysis stays or becomes NEW |
| RecordingTasks.ProcessRecognizeOnce | threads/recognize_record_thread.py:102-104 | processing the same record again changes nothing |
| RecordingTasks.BeginAnalysis | threads/analyze_text_thread.py:52-66 | only an existing NEW record is claimed, it becomes PENDING, and nothing else changes |
| RecordingTasks.ProcessAnalysis | threads/analyze_text_thread.py:47-130 | a missing record stays missing, and a record not NEW leaves record and rows untouched |
| RecordingTasks.ProcessAnalysisOutcome | threads/analyze_text_thread.py:78-130 | no conversation gives FINISHED; a failure gives FAILED with rows untouched; success gives FINISHED and replaces exactly this recording's rows |
| RecordingTasks.ProcessAnalysisFollowsLifecycle | threads/analyze_text_thread.py:62-130 | analysis follows the worker lifecycle, and recognition is untouched |
| RecordingTasks.ProcessAnalysisOnce | threads/analyze_text_thread.py:57-59 | processing the same record again changes nothing |
| RecordingTasks.ReanalysisReplacesRows | threads/analyze_text_thread.py:106-113 | after a second analysis only the second run's rows remain for the recording |
| RecordingTasks.OldestWith | threads/recognize_record_thread.py:57-65 | finds nothing exactly when no candidate exists, otherwise a candidate with the least creation time |
| RecordingTasks.RecognizeFetchSpec | threads/recognize_record_thread.py:50-82 | the oldest PENDING record other than the current task is picked, and only when none exists the oldest NEW one |
| RecordingTasks.AwaitingIdsSpec | threads/analyze_text_thread.py:138-141 | an id is selected exactly when its record is recognition FINISHED and analysis NEW |
| RecordingTasks.AnalysisFetch | threads/analyze_text_thread.py:135-146 | the first `2 * max_workers` selected ids, or all of them when fewer |
| RecordingTasks.AnalysisFetchComplete | threads/analyze_text_thread.py:138-146 | when few enough records await analysis, each of them is fetched |
| RecordingTasks.FetcherTick | threads/analyze_text_thread.py:150-156 | a queue holding `max_workers` or more is left alone; otherwise ids are only appended, and the queue stays below `3 * max_workers` |
| RecordingTasks.ResetStatus | database/task_cleanup.py:30-47 | PENDING and FAILED become NEW, and NEW and FINISHED are unchanged |
| RecordingTasks.ResetStuck | database/task_cleanup.py:30-47 | each column is reset independently and nothing else changes |
| RecordingTasks.ResetStuckClears | database/task_cleanup.py:30-47 | afterwards both columns are NEW or FINISHED, and a record changes exactly when one of its columns was stuck |
| RecordingTasks.ResetStuckIdempotent | database/task_cleanup.py:26-49 | resetting twice equals resetting once |
| RecordingTasks.FailedRecognitionRetried | database/task_cleanup.py:30-37 | a recording whose recognition failed is NEW after the reset, keeps its id, and the recognition fetch then has a record to pick; when every other record that is not FINISHED was created later, the fetch picks exactly this record |
| Routes.GetRecording | routes/recordings.py:21-30 | success exactly when the id exists, and then the data is that record |
| Routes.AddRecordingSpec | routes/recordings.py:33-62 | an unknown path is appended NEW/NEW under an unused id; a known FINISHED/FINISHED record is reset to NEW/NEW; any other known path is refused with no change |
| Routes.AddRecordingKeepsKeys | routes/recordings.py:37-48 | adding keeps ids and paths unique |
| Routes.AddRecordingTwice | routes/recordings.py:38-62 | posting the same path again straight away is refused and changes nothing |
| Routes.AddedRecordingIsFetched | routes/recordings.py:41-59 | after a successful add the recognition fetch has a record to pick |
| Routes.ForceReanalysis | routes/conversation.py:17-30 | success exactly when the recording exists, with no data and the table size kept |
| Routes.ForceReanalysisSpec | routes/conversation.py:22-26 | only the analysis column of that recording becomes NEW, and a recognised recording is then selected for analysis |
| Routes.RecordingDictionaries | routes/conversation.py:53-78 | success exactly when the recording has conversation rows |
| Routes.RecordingDictionariesSpec | routes/conversation.py:64-78 | each dictionary that highlighted anything appears once, by its first highlight in row order, in first-appearance order |

## Left out

- Whisper transcription, audio splitting, URL download, temporary files and
  printing (`classes/conversation_analyzer.py` outside
  `merge_adjacent_utterances` and `analyze_conversation`) are I/O and machine
  learning. The recognition worker receives their outcome as a parameter:
  the analysis or "raised".
- pymorphy3, rapidfuzz and the `re` engine are foreign libraries. They are
  the abstract functions of `Morph` and `Engine`. The word-level
  `lru_cache` is not modelled, because it only memoises a pure function.
- Case folding is per character. `str.lower` cases that change a string's
  length are outside the model.
- Matcher.IsPhraseInText: the semantic tier's span positions are an opaque
  function of the engine. The code indexes the original word list by a
  character offset there and can raise, so only the tier's gate is stated.
- `preprocess_dictionaries` is left out, because matching never reads what
  it builds.
- `hash(str(dictionaries))` is the abstract function parameter `fp` of
  `Analyzer.AnalyzeUtterance` and `Analyzer.AnalyzeBatch`.
- The cache-ratio log line is left out, because it is float formatting
  only.
- Analyzer.AnalyzeBatchKeys: the batch key `f"{speaker}_{start_time}"` is
  modelled as the pair (speaker, start time). Distinct pairs whose formatted
  strings coincide are not modelled.
- `get_conversation_with_highlights` is left out. Its only caller is the
  analysis worker path described below.
- The `<mark>` HTML string is rendered as a sequence of plain and marked
  pieces. Attribute text is not escaped in the source, so stripping tags
  from the string is not reliably invertible.
- Threads, queues, locks, sleeps, SQL and database sessions are left out.
  - Tables are sequences of records, and conversation rows are kept in
    storage order.
  - "Oldest" breaks ties of the creation time by table order.
  - A new row's id is one above the largest id in use, which approximates
    auto-increment.
- The timestamp columns `recognize_start`, `recognize_end`, `analysis_start`
  and `analysis_end` are not modelled.
- The end-to-end analysis path of the analysis worker is left out:
  - `threads/analyze_text_thread.py:90` calls a method `TextAnalyzer` does
    not define;
  - its dictionaries lack the `"color"` key that
    `classes/text_analyzer.py:301` reads.

  The worker's outcome is therefore a parameter: the new rows, or "raised".
  A failure is modelled as happening before the first row is written.
- RecordingTasks.ProcessRecognize: a failure is modelled as leaving the
  record as it was before the claim, apart from the FAILED status. An
  exception raised after the row is written by the success branch is not
  modelled.
- `format_time` is left out, because it needs `timedelta` and float
  rounding.
- Utterance times and durations are exact reals, and `len(common) /
  len(keywords) >= 0.7` is compared exactly.
- Routes.GetRecording: the listing route `GET /conversations/{id}` is left
  out. It returns the rows without computing anything.
- `dependencies/ip_auth.py` is left out, because it is a thin wrapper over
  the middleware's functions.
- The `ipaddress` parsing and membership rules are the `IpParser`
  parameter, and the DSN builder in `classes/settings.py` is left out.
- IpWhitelist.Dispatch:
  - request headers are a map with exact-case names, so a repeated header
    is one value;
  - a missing `request.client` is not modelled;
  - `call_next` is the pass-through or admitted decision.
- The `rude_words`, `greetings` and `other_matches` result fields are left
  out. The code never fills them.
- Highlights.AddHighlights and Analyzer.AnalyzeUtterance: as written the
  program raises there. `ConversationHighlight`
  (`models/conversation_model.py:13-19`) declares no colour field, so the
  pydantic model drops the `dictionary_color` argument at
  `classes/text_analyzer.py:210` and `classes/text_analyzer.py:301`.
  Reading `highlight.dictionary_color` at `classes/text_analyzer.py:230`
  then raises `AttributeError` for every rendered highlight, so
  `analyze_utterance` raises for any utterance with a match. The model's
  `Highlight` carries an optional colour and the renderer falls back to
  `#cccccc`, which is the evident intent.
- RecordingTasks.AnalysisFetch: the query `.limit(max_workers * 2)` has no
  `order_by`, so which awaiting rows come back is unspecified. The model
  returns the prefix in storage order, which is one allowed choice.
- RecordingTasks.BeginRecognize and RecordingTasks.BeginAnalysis: the model
  has one status type and treats `RecordingTaskStatus.X` and
  `RecordingTaskStatus.X.value` as the same status. The program mixes the
  two. `RecordingTaskStatus` is a plain `Enum`
  (`entities/enums/recording_task_status.py:4`), and both columns are
  declared with that type (`entities/recording_entity.py:19-26`). The
  recognition worker compares the column with `RecordingTaskStatus.NEW.value`
  (`threads/recognize_record_thread.py:102`). The analysis worker compares it
  with the member `RecordingTaskStatus.NEW`
  (`threads/analyze_text_thread.py:57`). A plain `Enum` member never equals
  an int, so as written one of the two guards would skip every NEW record.
  Which one depends on how the column loads, and nothing here settles that.
  The same mix appears in `routes/conversation.py:24` and
  `database/task_cleanup.py:30-47`, which write `.value`, and in
  `routes/recordings.py:51-55`, which compares and writes members. The model
  follows the evident intent: every status test compares statuses.
