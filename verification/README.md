# kyden-chatbot content manager, in Dafny

A model of the core of the kyden-chatbot service with proofs about that model. The core is the embedding reconciliation of `ContentManager` (content_manager.py) and the small deterministic pieces around it:

- the front-matter loader (content_loader.py);
- the session-id validator, the chain-type prompt table and the moderation step (conversation.py);
- the application errors (errors.py);
- the SQLite-backed chat history (chat_history.py).

Modules:

- `Wrappers`: `Option`, `Result` and `Outcome`, used for every path that raises.
- `Errors`: `BaseError`, `PolicyViolationError`, the code 10001, and the Python exceptions the modelled code raises.
- `Timestamps`: UTC datetimes as field tuples, plus the comparison and the two conversions the code uses:
  - the comparison `>`;
  - `strftime("%Y-%m-%dT%H:%M:%S.%f")[:-3] + "Z"`;
  - `fromisoformat(s.rstrip("Z"))`.
- `Records`: one entry of `embedding.json`, with `from_dict` and `to_dict`.
- `Sequencing`: a loop that applies a raising step to each element in turn (`MapAll`).
- `ContentLoader`: `str.find`, `str.split(sep, maxsplit)`, `parse_front_matter` and `load`. The YAML parser is a function parameter `safeLoad`.
- `Scanner`: the files `_traverse_original_content` visits and the record it makes of each, as values. The directory walk is a parameter (`walk`), and so is reading a file (`read`).
- `Reconcile`: the bookkeeping of `trigger_embedding` as pure functions. It covers:
  - how each scanned file is classified;
  - the ids the batched delete receives;
  - the record list written back;
  - what the index holds afterwards.

  It also holds the lemmas about whole passes.
- `Manager`: the imperative core.
  - Class `FileForEmbedding`, whose `ids` are reassigned in place.
  - Class `VectorIndex`, the Chroma collection seen through the calls made on it. It tracks:
    - the ids it stores;
    - every id it ever handed out;
    - what it held at the last persist;
    - the log of calls.
  - Class `ContentManager`, with `trigger_embedding`, `_traverse_original_content`, `_delete_embedding` and `_embedding`.

  Each method is proved to do exactly what module `Reconcile` or `Scanner` describes.
- `Conversation`: `validate_session_id`, `_prompts` and `_moderate`.
- `ChatHistory`: class `SqliteChatMessageHistory` over a shared `Database` of named tables of rows `(id, session_id, message)`.

The model follows the code as written. For the one discrepancy recorded under "## Findings", the evidently intended classification is modelled beside the code's, and the whole-pass functions of `Reconcile` are stated for either (`Reconcile.Rule`). The intended rule is the one the tests expect: invalid records hold no IDs (test_cases/test_content_manager.py:250-252 and 274-279).

- Validity: the scanner marks a file valid only when its front-matter `isValid` equals 1 (content_manager.py:230). A file with no flag is therefore invalid, although the record field's default is `is_valid: bool = True` (content_manager.py:65). `Scanner.EqualsOne` models the Python `== 1`, which is also true for `1.0` and `True`.
- Deleted files: a prior record whose file is gone from disk is dropped without a delete call. `Reconcile.VanishedFilesAreNotDeleted` states this.
- The closing `---` of the front matter need not stand on its own line. The text between the opening `---` and the next `---` goes to the YAML parser, and everything after it is ignored.

## Model

| member | source | states |
|---|---|---|
| Errors.NewBaseError | errors.py:10-13 | the error keeps exactly the message and the code it was given |
| Errors.NewPolicyViolationError | errors.py:19-20 | the code is always 10001 and the message is kept as given |
| Errors.PolicyViolationErrorInjective | errors.py:16-20 | two policy violations are equal exactly when their messages are equal |
| Timestamps.BeforeIsKeyOrder | content_manager.py:175 | on valid times, the field-by-field `>` of update times is the order of a numeric key that grows with the time (mixed radix from the year down to the microsecond) |
| Timestamps.DaysInMonth | content_manager.py:69-71 | month lengths are 28 to 31 days, and February has 29 days exactly in leap years |
| Timestamps.BeforeIsStrictTotalOrder | content_manager.py:175 | the `>` on update times is irreflexive, asymmetric, transitive and total on distinct times |
| Timestamps.TruncateToMillis | content_manager.py:82 | truncation yields a valid time on whole milliseconds, changes a time exactly when it has a sub-millisecond part, and never moves it later |
| Timestamps.Digits | content_manager.py:82 | a strftime field is exactly `width` decimal digits |
| Timestamps.ParseDigitsOfDigits | content_manager.py:69-82 | a number printed in enough digits is read back as the same number |
| Timestamps.DigitsDropThree | content_manager.py:82 | dropping the last three of six fraction digits leaves the digits of the milliseconds |
| Timestamps.StrfTime | content_manager.py:82 | `%Y-%m-%dT%H:%M:%S.%f` always prints 26 characters |
| Timestamps.RStrip | content_manager.py:69 | `rstrip(c)` gives a prefix that does not end in `c`, and only `c`s were removed |
| Timestamps.ParseIso | content_manager.py:69-71 | every accepted time is a valid calendar time, and only strings of length 19, 23 or 26 are accepted |
| Timestamps.FormatTime | content_manager.py:82 | the written time is 24 characters long and ends in `Z` |
| Timestamps.FormatTimeFields | content_manager.py:82 | the written time is the date and time fields followed by the whole milliseconds in three digits and `Z` |
| Timestamps.ParseIsoMillisLayout | content_manager.py:69 | a `YYYY-MM-DD?HH:MM:SS.fff` string parses to its fields, with the fraction read as milliseconds, when they form a calendar time, and is refused otherwise |
| Timestamps.RStripFormatTime | content_manager.py:69-82 | stripping `Z` from a written time removes exactly the one `Z` that `to_dict` appended |
| Timestamps.LayoutSlices | content_manager.py:82 | in the 23-character layout each field sits at its fixed offset |
| Timestamps.FormatTimeSlices | content_manager.py:82 | each field of the time sits at its fixed offset in the written text |
| Timestamps.ParseFormatTime | content_manager.py:67-85 | reading back a written time gives the original time truncated to milliseconds |
| Timestamps.ParsedMillisecondStringIsExact | content_manager.py:69 | a time with no fraction or a three-digit fraction always has whole milliseconds |
| Records.ToDict | content_manager.py:79-85 | `to_dict` keeps file, IDs and is_valid, and writes a 24-character time ending in `Z` |
| Records.FromDict | content_manager.py:67-77 | `from_dict` keeps file, IDs and is_valid, and yields a valid time. It raises exactly when the time, stripped of `Z`, is not an accepted ISO string |
| Records.RecordRoundTrip | content_manager.py:67-85 | writing a record and reading it back keeps file, IDs and is_valid, and truncates the time to milliseconds |
| Records.RecordRewriteIsStable | content_manager.py:67-85 | after one write and read, writing again produces the same JSON entry |
| Records.RecordRoundTripExact | content_manager.py:67-85 | a record survives the round trip unchanged exactly when its time has whole milliseconds |
| Sequencing.MapAll | content_manager.py:160-162 | a loop that completes yields one result per element |
| Sequencing.MapAllPointwise | content_manager.py:160-162 | the loop completes exactly when every element's step succeeds, and then result i is element i's result |
| Sequencing.MapAllConcat | content_manager.py:222-223 | running the loop over two lists in turn is running it over their concatenation |
| Sequencing.MapAllFailsFromPrefix | content_manager.py:222-223 | once a prefix raises, the whole loop raises that same exception |
| Sequencing.MapAllFirstFailure | content_manager.py:160-162 | a loop that raised raised the exception of some element, every element before which succeeded |
| Sequencing.MapAllStep | content_manager.py:160-162 | one more turn either extends the results by one element's result or ends the loop with its exception |
| ContentLoader.IndexOf | content_loader.py:26 | the position found is an occurrence with no occurrence before it. When none is found, the separator occurs nowhere |
| ContentLoader.Split | content_loader.py:26 | `split(sep, maxsplit)` yields between 1 and maxsplit+1 parts, and joining them with `sep` gives the text back. Each cut is at the first occurrence of `sep` in the text that remains, so no part before the last holds `sep`, and the last holds none either when fewer than maxsplit cuts were made |
| ContentLoader.FrontMatterBlockCharacterisation | content_loader.py:25-28 | there is a block exactly when the text starts with `---` and `---` occurs again after it. The block is the text between the two |
| ContentLoader.NoBlockWithoutOpeningDelimiter | content_loader.py:25-30 | text that does not start with `---` has no front matter |
| ContentLoader.NoBlockWithoutClosingDelimiter | content_loader.py:25-30 | text that starts with `---` and never repeats it has no front matter |
| ContentLoader.IndexOfUnique | content_loader.py:26 | an occurrence with none before it is the one found |
| ContentLoader.IndexOfExtend | content_loader.py:26 | appending text does not move the first occurrence |
| ContentLoader.IndexOfTruncate | content_loader.py:26 | cutting the text right after the first occurrence keeps that occurrence first |
| ContentLoader.FirstOccurrenceKeptBeforeTail | content_loader.py:26 | replacing everything after the first occurrence keeps that occurrence first |
| ContentLoader.FrontMatterBlockAt | content_loader.py:26-28 | when the next `---` starts k characters after the opening one, the block is those k characters |
| ContentLoader.BlockIgnoresTail | content_loader.py:26 | replacing everything after the closing `---`, further `---` included, leaves the block unchanged |
| ContentLoader.BlockAtIgnoresTail | content_loader.py:26 | as `BlockIgnoresTail`, for a given position of the closing `---` |
| ContentLoader.ParseFrontMatter | content_loader.py:23-30 | no block gives None. Otherwise the result is what the YAML parser makes of the block, and a parser error propagates unchanged |
| ContentLoader.PairOf | content_loader.py:19 | `dict.update` reads a pair from a two-character string or a two-item list with a string key. Another length raises ValueError, a list key TypeError, and a scalar or date TypeError |
| ContentLoader.Pairs | content_loader.py:19 | a list gives one pair per element, in order, and succeeds exactly when every element is a pair. Otherwise it raises the exception of the first element that is not. A non-empty string raises ValueError, and a number, boolean or date is not iterable (TypeError) |
| ContentLoader.PairsMap | content_loader.py:19 | storing pairs one after another gives exactly their keys, each holding the value of its last pair |
| ContentLoader.Load | content_loader.py:11-21 | the loaded document's content is the original text, unchanged |
| ContentLoader.LoadMetadataOverlay | content_loader.py:14-19 | a mapping front matter loads, and the metadata is `source` plus exactly its keys, each keeping its value. `source` stays the path unless overridden |
| ContentLoader.LoadIgnoresFalseFrontMatter | content_loader.py:18-21 | with no block, or a block that parses to a false value (nothing, an empty mapping, list or string, zero, false), the metadata is exactly `{source: path}` |
| ContentLoader.LoadPairsOverlay | content_loader.py:18-19 | a front matter that is a non-empty list of pairs loads, and the metadata is `source` plus exactly the pairs' keys, each holding its last pair's value. `source` stays the path unless a pair sets it |
| ContentLoader.UpdateWithPairsExample | content_loader.py:19 | `["ab", ["date", "2024-01-02"]]` reads as the pairs `a: b` and `date: 2024-01-02`, in that order |
| ContentLoader.UpdateWithNonPairsExamples | content_loader.py:19 | `"ab"` and `["abc"]` raise ValueError; `[1]` and `1` raise TypeError |
| ContentLoader.LoadWithoutFrontMatter | content_loader.py:14-21 | text without a block loads as itself with `{source: path}` |
| ContentLoader.LoadFailsOnlyOnBadFrontMatter | content_loader.py:18-19 | loading fails exactly when the parser fails on the block, or returns a truthy value that is not a mapping and from which no pairs can be read. It raises the parser's exception or the one reading the pairs raised |
| Scanner.FilterMarkdown | content_manager.py:223 | a name is kept exactly when it ends in `.md`, and no more names come out than went in |
| Scanner.JoinPath | content_manager.py:224 | `os.path.join`: the name ends the path. A relative name keeps the directory in front of it, with one `/` between the two when the directory is not empty and does not already end in one |
| Scanner.DirectoryPaths | content_manager.py:223-224 | one path per markdown name of the directory, joined to the directory, in listing order |
| Scanner.DirectoryPathsMembers | content_manager.py:223-224 | a directory's paths are exactly its markdown names joined to it |
| Scanner.Candidates | content_manager.py:222-224 | a path is visited exactly when it joins some walked directory to one of its markdown names |
| Scanner.CandidatesPrefix | content_manager.py:222-223 | the paths of a prefix of the walk are a prefix of all the paths |
| Scanner.EqualsOneExamples | content_manager.py:230 | `1`, `1.0` and `True` count as `isValid == 1`; the text `"1"`, `2`, `False`, `None` and `[1]` do not |
| Scanner.ScanFile | content_manager.py:225-238 | a scanned file's record holds its own path, no IDs and a valid time |
| Scanner.ScanFileCharacterisation | content_manager.py:225-238 | a scan succeeds only when the file loads and its metadata has a text `date` that parses. The time is that date and the file is valid exactly when `isValid == 1`. A missing `date` raises KeyError, a non-text one AttributeError, and a load failure propagates |
| Scanner.FileWithoutFrontMatterIsRefused | content_manager.py:225-228 | a markdown file without front matter raises KeyError('date') |
| Scanner.RecordDateIsAccepted | content_manager.py:227-229 | a date in the record-file format is accepted and read as that time truncated to milliseconds |
| Scanner.FileScannerRecordsOwnPath | content_manager.py:232-238 | every record the per-file step makes holds the path it was given and no IDs |
| Scanner.ScanTree | content_manager.py:220-241 | a successful traversal has one record per visited path, in walk order, each with that path, no IDs and a valid time |
| Scanner.JoinPlainName | content_manager.py:224 | joining a file name without `/` appends it to the directory with a `/` between, unless the directory is empty or ends in one |
| Scanner.JoinPathInjective | content_manager.py:224 | a path joined from a file name without `/` determines both the name and the directory part it was joined to |
| Scanner.FilterMarkdownDistinct | content_manager.py:223 | filtering a listing without repeats gives markdown names without repeats |
| Scanner.DirectoryPathsDistinct | content_manager.py:223-224 | in a well-formed walk, no path of a directory is visited twice |
| Scanner.CandidatesApart | content_manager.py:222-224 | in a well-formed walk, a directory yields no path that an earlier directory yielded |
| Scanner.CandidatesDistinct | content_manager.py:222-224 | a well-formed walk visits every markdown path once |
| Scanner.ScanTreeDistinctFiles | content_manager.py:220-241 | the traversal of a well-formed walk makes no two records of the same file, as the pass lemmas of `Reconcile` require |
| Manager.FileForEmbedding.constructor | content_manager.py:59-65 | the new object holds exactly the given path, time, IDs and validity |
| Manager.SnapshotsConcat | content_manager.py:232 | the values of two appended object lists are the values of each, appended |
| Manager.DistinctSelect | content_manager.py:164-180 | the deleting and adding lists contain no object twice |
| Manager.ScanStep | content_manager.py:224-239 | one file either ends the traversal with the exception the whole directory raises, or appends one fresh object whose value is that file's record, leaving the earlier objects unchanged |
| Manager.ScanDirectory | content_manager.py:223-239 | a directory yields fresh, distinct objects whose values are its files' records, in order. Otherwise it raises the first file's exception |
| Manager.ContentManager.TraverseOriginalContent | content_manager.py:220-241 | the traversal yields fresh, distinct objects whose values are the records of every visited file in walk order. Otherwise it raises the exception of the first file that fails |
| Manager.ClassifyFile | content_manager.py:166-180 | a file on record takes over the record's IDs and no other object changes. Its lists are the ones `Decide` selects |
| Manager.ClassifyStep | content_manager.py:166-180 | one turn of the classification loop extends the lists by the current file exactly as its action selects |
| Manager.Classify | content_manager.py:164-180 | afterwards every scanned object carries its record's IDs. The deleting and adding lists are the scanned objects whose action deletes or adds, in scan order |
| Manager.TakeFileIds | content_manager.py:210-211 | an object's IDs are handed back and it is left with none, and no other object changes |
| Manager.TakeStep | content_manager.py:209-211 | one turn of the delete loop hands back the current file's IDs and clears exactly that file |
| Manager.TakeIds | content_manager.py:208-211 | the collected ids are every listed file's IDs, concatenated in list order. Exactly the listed files are left with none |
| Manager.ContentManager.DeleteAndPersist | content_manager.py:213-216 | one delete call with all the ids, then a persist whether or not the delete raised. After a pass the ids are gone; after a raise at most they are gone |
| Manager.ContentManager.DeleteEmbedding | content_manager.py:204-218 | the listed files lose their IDs, and the index receives one delete of their concatenated IDs, then a persist. What is stored equals what is persisted, whether or not the delete raised |
| Manager.VectorIndex.Delete | content_manager.py:213 | a delete that passes removes exactly the given ids. One that raises removes some subset of them |
| Manager.VectorIndex.AddDocuments | content_manager.py:193-196 | an add that succeeds stores and returns ids never handed out before. One that raises stores nothing |
| Manager.VectorIndex.Persist | content_manager.py:200 | after a persist, what a restart finds is what is stored now |
| Manager.ContentManager.EmbedFile | content_manager.py:193-197 | the file takes exactly the fresh ids the index returned, and no other object changes. After a raise nothing changes |
| Manager.ContentManager.EmbedStep | content_manager.py:192-197 | one turn of the embed loop keeps the loop invariant `EmbedProgress`, or raises with one more add call logged and nothing else changed |
| Manager.ContentManager.EmbedFiles | content_manager.py:191-197 | the listed files, in order up to the first raise, take pairwise disjoint fresh batches. No other object changes. The index holds and has handed out exactly those batches besides what it had, with one add call per file tried |
| Manager.ContentManager.Embedding | content_manager.py:190-202 | as `EmbedFiles`, followed by a persist whether or not an add raised |
| Manager.ContentManager.LoadEmbeddingRecords | content_manager.py:153-162 | the records by path as `from_dict` reads them from the file at `RecordPath()`. No file at that path gives none, and an entry `from_dict` refuses raises |
| Manager.ContentManager.ApplyLists | content_manager.py:182-183 | delete before add. A completed pass leaves exactly the reconciled IDs and the index contents `IndexAfter`, after exactly the calls of `PassCalls`. A raise leaves the calls of `FailedPassCalls` |
| Manager.ContentManager.Synchronize | content_manager.py:164-188 | classify, delete, embed, then write every scanned file's record to `RecordPath()` only when both completed. A raise leaves the record file as it was, and no other file is written |
| Manager.ContentManager.TriggerEmbedding | content_manager.py:147-188 | the record file read and written is the one at `RecordPath()`, and no other file changes. If the traversal or the record file raises, nothing changes. Otherwise the pass has the effect `PassEffect` of the scan against the prior records: the index is persisted as it stands; a completed pass makes exactly the calls of `PassCalls`, leaves the index holding `IndexAfter` and writes the records of `Reconciled`, all under the classification as written, with fresh batches of ids; a raise leaves the record file as it was, after the calls of `FailedPassCalls` |
| Manager.ContentManager.constructor | content_manager.py:122-129 | an empty path or file name keeps the default |
| Manager.ContentManager.RecordPath | content_manager.py:155-157 | the record path is the content path followed directly by the file name, with no separator |
| Manager.ContentManager.RecordFile | content_manager.py:155-159 | `os.path.exists` then `json.load` at `RecordPath()`: the list stored under that path, or none when no file is there |
| Manager.ContentManager.WriteRecordFile | content_manager.py:184-188 | the file at `RecordPath()` then holds the given entries, and every other file is as it was |
| Manager.PassedEffect | content_manager.py:182-188 | a completed pass writes the reconciled records and makes exactly the calls of `PassCalls` |
| Manager.DeleteFailedEffect | content_manager.py:204-217 | a pass whose delete raised makes the delete and the persist and nothing else |
| Manager.EmbedFailedEffect | content_manager.py:190-201 | a pass whose add raised makes the adds up to and including that one, then a persist |
| Manager.PassCallsSplit | content_manager.py:182-183 | the calls of a pass are the delete phase followed by the embed phase |
| Manager.AddCallsFor | content_manager.py:192-196 | one add call per file of the adding list, in order |
| Reconcile.ParseRecords | content_manager.py:159-161 | each entry becomes a record with the same file, IDs and validity and a valid time. The load fails exactly when some entry is refused |
| Reconcile.RecordMap | content_manager.py:160-162 | every entry's path is a key, and every key holds a record with that path taken from the list |
| Reconcile.RecordMapAppend | content_manager.py:162 | a later record for a path replaces the earlier one |
| Reconcile.LoadRecordList | content_manager.py:159-162 | every entry's path is a key, each key holds a record with that path, and every time is valid |
| Reconcile.RecordMapDistinct | content_manager.py:160-162 | with distinct paths every record is found under its own path |
| Reconcile.Decide | content_manager.py:166-180 | the classification as written: only a file on record is deleted, and an invalid file is added exactly when it was invalid on record and its date moved forward |
| Reconcile.DecideTable | content_manager.py:166-180 | the classification case by case: a new file is added exactly when valid and never deleted; valid→invalid deletes; invalid→valid adds; with the same validity on both sides, whether valid or invalid, the file is deleted and added exactly when its date moved forward, and kept otherwise |
| Reconcile.DecideCorrected | content_manager.py:166-180 | the evidently intended classification, which the tests expect (test_cases/test_content_manager.py:250-252, 274-279): only a valid file is added, and only a file whose record was valid is deleted |
| Reconcile.DecideBy | content_manager.py:166-180 | under either rule, only a file on record is deleted |
| Reconcile.Positions | content_manager.py:164-180 | a list holds exactly the files whose action selects it, once each, in scan order |
| Reconcile.PositionsSnoc | content_manager.py:172-180 | classifying one more file appends it to exactly the lists its action selects |
| Reconcile.CarriedRecords | content_manager.py:167-169 | carrying over IDs changes nothing but the IDs |
| Reconcile.DeleteIds | content_manager.py:204-213 | the batched delete receives exactly the prior IDs of the files whose action deletes |
| Reconcile.IndexAfter | content_manager.py:182-196 | after a completed pass the index holds every returned id and nothing it did not hold before; an id not deleted stays, and a deleted id is gone unless returned again |
| Reconcile.AllIds | content_manager.py:208-210 | the collected ids are exactly those held by some listed record |
| Reconcile.ClearIds | content_manager.py:211 | clearing changes nothing but the IDs |
| Reconcile.AssignIds | content_manager.py:197 | assigning batches changes nothing but the IDs |
| Reconcile.ClearIdsSnoc | content_manager.py:209-211 | clearing one more listed file changes that record alone |
| Reconcile.AssignIdsSnoc | content_manager.py:192-197 | assigning one more batch changes that file's record alone |
| Reconcile.UnionIds | content_manager.py:196 | an id is handed out exactly when it is in some returned batch |
| Reconcile.FreshBatchesSnoc | content_manager.py:196 | a batch disjoint from everything handed out so far keeps the batches fresh |
| Reconcile.Reconciled | content_manager.py:164-188 | the written list has one record per scanned file, in scan order, with its path, time and validity |
| Reconcile.ReconciledAt | content_manager.py:164-188 | a written record's IDs are its returned batch if it was added, empty if it was only deleted, and the carried IDs if kept |
| Reconcile.ToDicts | content_manager.py:188 | one entry per record |
| Reconcile.LoadWrittenRecords | content_manager.py:159-188 | the written record file reads back with every record under its own path, its time truncated to milliseconds |
| Reconcile.UnlistedRecordIsNotDeleted | content_manager.py:204-213 | a prior record whose path is on no deleting-list file, and whose IDs no other record shares, keeps its IDs out of the delete call |
| Reconcile.VanishedFilesAreNotDeleted | content_manager.py:164-188 | a record whose file vanished from disk is dropped from the record file, yet its IDs stay in the index |
| Reconcile.RecordIdsOrigin | content_manager.py:166-197 | a written record's IDs are a returned batch, empty, or the prior record's IDs |
| Reconcile.PassKeepsRecordsTracked | content_manager.py:164-217 | if the prior records are consistent with the index and the index issues fresh ids, then after a completed pass every written ID is stored in the index and no two records share one |
| Reconcile.PassKeepsRecordsStored | content_manager.py:164-217 | after a completed pass every written ID is stored in the index |
| Reconcile.PassKeepsRecordsDisjoint | content_manager.py:164-217 | after a completed pass no two written records share an ID |
| Reconcile.PassKeepsPairDisjoint | content_manager.py:164-217 | two given written records share no ID |
| Reconcile.BatchesDisjoint | content_manager.py:196 | two different returned batches share no id |
| Reconcile.BatchAvoidsPrior | content_manager.py:196 | a returned batch shares no id with a record the index already held |
| Reconcile.RerunKeepsEveryFile | content_manager.py:152-188 | rerunning on an unchanged tree, against the record just written, keeps every file and gives each its written record back, when dates have whole milliseconds |
| Reconcile.QuietWhenEveryFileIsKept | content_manager.py:164-188 | a pass that keeps every file deletes nothing, adds nothing, and writes the same records |
| Reconcile.RerunIsQuiet | content_manager.py:152-188 | a rerun on an unchanged tree makes no delete or add and rewrites the same record file |
| Reconcile.SubMillisecondDateIsRebuiltEveryPass | content_manager.py:82-175 | a file whose date has a sub-millisecond part is deleted and re-added on every later pass, valid or not; under the corrected decision, when valid |
| Reconcile.InvalidFileWithNewerDateIsIndexed | content_manager.py:175-177 | a concrete invalid file that the code as written deletes and adds and the corrected decision keeps |
| Reconcile.InvalidFileWithNewerDateHoldsIds | content_manager.py:164-188 | for that file, a whole pass as written embeds it and writes its record invalid but holding the new ids; the corrected pass adds nothing |
| Reconcile.DecideAgreesWithCodeOnValidFiles | content_manager.py:166-180 | both decisions agree on every file that is valid, new, or whose date did not move forward |
| Reconcile.InvalidRecordsHoldNoIds | content_manager.py:164-188 | with the corrected decision a pass keeps invalid records free of IDs |
| Conversation.MatchHexRun | conversation.py:69 | a counted run of hex digits ends exactly `n` characters on |
| Conversation.MatchHexRunSucceeds | conversation.py:69 | the run matches exactly when the next `n` characters are all hex digits |
| Conversation.SessionIdPatternCharacterisation | conversation.py:69-70 | the pattern matches exactly 64 hex digits, optionally followed by one newline |
| Conversation.ValidateSessionId | conversation.py:67-72 | an id is accepted, and returned unchanged, exactly when it is 64 hex digits (a final newline allowed). Otherwise a ValueError naming it is raised |
| Conversation.ValidateSessionIdIdempotent | conversation.py:67-72 | a value the validator returned passes it again unchanged |
| Conversation.SessionIdExamples | conversation.py:69-71 | both letter cases pass, a trailing newline is kept, and short, doubly terminated or non-hex ids fail |
| Conversation.Prompts | conversation.py:186-193 | exactly the four known chain types succeed, and any other raises KeyError naming it |
| Conversation.PromptKeys | conversation.py:186-272 | stuff → {prompt}; map_reduce → {question_prompt, combine_prompt}; refine → {question_prompt, refine_prompt}; map_rerank → {prompt}. The default is stuff |
| Conversation.PromptsReadTheQuestion | conversation.py:198-272 | every prompt reads the question, and every chat prompt ends with a human message |
| Conversation.Moderate | conversation.py:81-88 | unflagged text passes unchanged. Flagged text raises a policy violation carrying the fixed message when `error` is set, and is otherwise replaced by that message. A missing `flagged` raises KeyError |
| Conversation.ModerateNeverPassesFlaggedText | conversation.py:82-87 | flagged text never comes through |
| Conversation.ModerateIdempotentOnUnflaggedOutput | conversation.py:81-88 | moderating an output again changes nothing when it is not flagged |
| ChatHistory.ToDict | chat_history.py:52 | the stored form has the message's type name and its content |
| ChatHistory.FromDict | chat_history.py:44-45 | a decoded message has the stored type and content. An unknown type raises ValueError |
| ChatHistory.MessageRoundTrip | chat_history.py:44-52 | a stored message reads back as the same message |
| ChatHistory.DecodeAll | chat_history.py:44-45 | decoding succeeds exactly when every item decodes, and then message i is item i decoded; otherwise the exception raised is that of the first item that fails |
| ChatHistory.ToDicts | chat_history.py:52 | one stored form per message, in order |
| ChatHistory.DecodeAllRoundTrip | chat_history.py:44-52 | stored messages read back exactly, in order |
| ChatHistory.Inserted | chat_history.py:48-54 | an insert appends exactly one row holding the session and the message, keeps the earlier rows, and keeps the ids increasing |
| ChatHistory.SessionPayloads | chat_history.py:37-44 | a session has at most as many messages as the table has rows |
| ChatHistory.WithoutSession | chat_history.py:56-63 | the remaining rows belong to other sessions and were in the table |
| ChatHistory.SessionPayloadsMembers | chat_history.py:37-44 | a session's stored messages are exactly the messages of its rows |
| ChatHistory.SessionEmptyIffNoRows | chat_history.py:37-46 | a session has no messages exactly when it has no rows |
| ChatHistory.InsertedPayloads | chat_history.py:48-54 | an insert extends its session's messages by the new one and leaves every other session's messages unchanged |
| ChatHistory.WithoutSessionPayloads | chat_history.py:56-63 | a clear leaves the session empty and every other session's messages unchanged |
| ChatHistory.WithoutSessionIncreasing | chat_history.py:56-63 | deleting rows keeps the ids increasing |
| ChatHistory.WithoutSessionValid | chat_history.py:56-63 | a clear keeps the table valid |
| ChatHistory.SqliteChatMessageHistory.constructor | chat_history.py:20-34 | a new handle creates the table only if it is missing, so existing rows are kept |
| ChatHistory.SqliteChatMessageHistory.CreateTableIfNotExists | chat_history.py:65-78 | an existing table is left as it is, and a missing one is created empty |
| ChatHistory.SqliteChatMessageHistory.Messages | chat_history.py:36-46 | this session's rows, decoded in row order. The result depends only on the table and the session id, so two handles on the same session read the same messages |
| ChatHistory.SqliteChatMessageHistory.AddMessage | chat_history.py:48-54 | exactly one row for this session is appended and nothing else changes |
| ChatHistory.SqliteChatMessageHistory.Clear | chat_history.py:56-63 | exactly this session's rows are removed, and the other rows stay in order |
| ChatHistory.AddThenRead | chat_history.py:36-54 | adding a message makes the session read back its messages plus the new one, and other sessions read what they read before |
| ChatHistory.EmptyReads | chat_history.py:36-63 | an empty table or a cleared session reads back no messages |

## Left out

- Reading files, `os.walk`, writing `embedding.json` and the JSON text encoding are not modelled. The walk is the parameter `walk`, reading a file is `read`, and the record files on disk are a field mapping each path to the list of entries it holds.
- `yaml.safe_load` is the parameter `safeLoad`. YAML values are an abstract datatype, `YamlDoc`.
- ContentLoader.Load: front-matter keys are strings. A mapping with other keys is outside the model, and a pair whose first item is a number, boolean, null or date is refused with a TypeError, where Python would store it under that key.
- ContentLoader.PairOf: a nested mapping, a set or binary data inside a front-matter list is treated like a date, as not iterable (TypeError). Python would read a two-key mapping as a pair of its keys. The messages of the exceptions are paraphrased and omit the element number.
- Truthiness of a front matter: a date counts as true. An empty set or empty binary data as the whole front matter, which Python counts as false, is not modelled.
- Timestamps.StrfTime: the year is printed in four digits, zero-padded, as current CPython does. CPython releases whose `%Y` follows glibc print years below 1000 without padding. For such years the written time is then not 24 characters long and is not read back, so the following contracts hold only for years 1000 and later on those releases.
- Timestamps.FormatTime: the 24-character layout depends on the four-digit year of `Timestamps.StrfTime`, as above.
- Timestamps.ParseFormatTime: reading back a written time relies on the four-digit year, as above.
- Records.ToDict: the 24-character time relies on the four-digit year, as above.
- Records.RecordRoundTrip: relies on the four-digit year, as above.
- Records.RecordRoundTripExact: relies on the four-digit year, as above.
- Splitting documents into chunks and computing embeddings happen inside the vector store and are not modelled. Loading a file to embed it, splitting it and adding the chunks are one `AddDocuments` call, which may raise.
- The Chroma backend is nondeterministic in the model. Which fresh ids an add returns, and which ids a failed delete removed, are chosen by the backend.
- Manager.VectorIndex.Persist: modelled as never raising. A raising `persist` in a `finally` block would replace the exception in flight.
- The `IDs` lists are aliased: `item.IDs = record.IDs`, then `item.IDs.clear()`. The model copies the list instead. Each record is reached through at most one scanned file when no file is scanned twice (`Records.DistinctFiles`, which `Scanner.ScanTreeDistinctFiles` derives for a well-formed walk), and the prior dictionary is not used after classification, so the aliasing has no visible effect.
- The walk is not constrained. `Scanner.WellFormedWalk` states what `os.walk` provides and the pass lemmas rely on: file names without `/`, each listed once per directory, and directories that stay different once joined to a name.
- Records.FromDict: entries always have the four keys. A missing key (KeyError) and pydantic's coercion of field types are not modelled.
- Timestamps.ParseIso: accepts `YYYY-MM-DD?HH:MM:SS` with an optional 3- or 6-digit fraction, which is what the program writes. Other forms that `datetime.fromisoformat` accepts, such as offsets and reduced precision, are refused in the model. A front-matter date that YAML reads as a date or a number is rendered as the AttributeError of `rstrip`.
- ChatHistory.FromDict: a stored form missing a required field is rendered as ValueError. In the source it is a pydantic validation error.
- The `updated_time` column and its clock default, SQL text, connections and transactions are not modelled. The row order of `SELECT` is taken to be insertion order.
- Message classes are reduced to their kind and content, plus the role or name field of chat and function messages. `additional_kwargs` and example flags are not modelled.
- Prompt template texts are not modelled, and neither is langchain's prompt machinery. `Conversation.Prompts` records only each prompt's shape, its message roles and the variables each reads.
- `Conversation.chat`, `chat_with_moderation`, `MemoryHandler.from_session`, `KydenModerationChain._acall`, `AsyncSelfQueryRetriever` and `as_self_query_retriever` are not modelled. They build and run langchain chains asynchronously against external services.
- The FastAPI routing in main.py is not part of this model.
- The chunk size, chunk overlap, separators, persist directory and collection name only configure the splitter and the store, and are not modelled.
- Text decoding of files (`encoding`, `autodetect_encoding`) is not modelled. Text is a sequence of characters.

## Findings

| source | as written | input that shows it | evidently intended | confidence | as-written member | corrected member |
|---|---|---|---|---|---|---|
| content_manager.py:175-177 | the newer-date branch adds the file whatever its validity, so a file invalid on record and on disk whose date moved forward is embedded. Its record stays `is_valid=false` with the new IDs | prior `{a.md: 2024-01-01, invalid, IDs []}`, scan `a.md` dated 2024-01-02, invalid | rebuild only when the file is valid on both sides. An invalid record holds no IDs | not executed | Reconcile.InvalidFileWithNewerDateHoldsIds | Reconcile.InvalidRecordsHoldNoIds |

`Reconcile.Decide` is the classification as written, and `Reconcile.DecideCorrected` the one intended. `Reconcile.InvalidFileWithNewerDateIsIndexed` shows the input above: the code as written deletes and adds the file, and the corrected decision keeps it. `Reconcile.InvalidFileWithNewerDateHoldsIds` follows that file through a whole pass: as written, the record written for it is invalid and holds the new IDs. `Reconcile.DecideAgreesWithCodeOnValidFiles` shows that the two decisions differ only on such files. `Reconcile.InvalidRecordsHoldNoIds` proves the intended invariant for a pass under the corrected decision. The pass lemmas of `Reconcile` hold under either rule. The methods of module `Manager` follow the code as written.
