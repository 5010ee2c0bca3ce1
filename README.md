# hds_union: the live HDS load tester, modelled in Dafny

hds_union load-tests an Adobe HDS live origin. For every stream of the
multi-level manifest, a bootstrap task polls the stream's bootstrap and prints it with the
packager's inspector. From that text, `hds.extract_fragments` cuts the
segment run table and the fragment run table, works out the newest fragment
number and grows the stream's window of fragment descriptors in place. It
backfills the numbers the window skipped and returns the window sorted.
The consumer then dispatches one fragment task per descriptor that has not
been pulled yet, marks it pulled and pauses. Each fragment task runs
ApacheBench (`ab`) against the fragment URL. It reads the mean latency, the
requests per second and the non-2xx count out of ab's output and writes one
CSV line per fragment.

The model covers the sequential core of that pipeline:

- `Wrappers`: `Option`, `Result` and Python's `IndexError`/`ValueError`.
- `PyText`: the Python 2 string built-ins the code relies on, with their
  laws. These are `split` with a one-character separator (empty pieces
  kept), `strip`, `int()`, `str()` of an integer and `replace(c, '')`. The
  module also holds the "text before the first `:`" line search that every
  parser uses.
- `RunTable`: the inspector text. It covers header search, the two section
  extractors as methods of a `LineBuffer` class that pop lines out of the
  caller's list, the comma-separated `name=value` records, the segment-total
  loop and `is_in_fragment_run_table`.
- `Reconcile`: `extract_fragments`. The live branch grows a `FragmentWindow`
  class in place. It is specified by pure functions (`Backfill`,
  `Appended`, `LivePoll`) whose properties are proved as lemmas. The module
  also holds `check_for_dups`, the stable `sorted(..., key=fragment)` and
  the non-live branch.
- `ApacheBench`: the five extractors, as first-match recursive functions
  that return `Err` where Python would raise.
- `LivePipeline`: the rest of the live pipeline:
  - the dispatch loop of `BootstrapConsumer.run` and the pause after each task;
  - the fragment and stream URLs;
  - stream seeding from the parsed manifest and the pool sizes;
  - `FragmentTask`'s zero-duration rule;
  - the timestamp, log-line and CSV-line texts.

Behaviour of the code worth knowing:

- The window is never trimmed to 20 entries. `small_list`
  (`hds.py:245-246`) is computed and then thrown away.
- A later poll never appends the newest fragment `current_frag` itself. The
  backfill loop decrements before use and visits `current_frag - 1` down to
  the window's last number. The newest number joins the window only at a
  later poll whose own `current_frag` is larger, as a backfilled number. A
  poll that reports the same `current_frag` again has a gap of 1 and appends
  nothing.
- A gap of exactly 1 appends nothing.
- Backfilled descriptors are appended in descending order. Only the returned
  copy is sorted.
- The test `len(run_table) > 1` (`hds.py:200`) is always true whenever the
  live branch can read its tables, because at least five lines stay behind
  after both cuts. `Reconcile.CurrentFromOldest` proves this, so the
  computed number is always the segment total counted from the oldest
  fragment record.

## Model

| member | source | states |
|---|---|---|
| PyText.Split | bootstrap/src/com/adobe/fms/utilities/hds.py:110 | `split` with one separator character always yields at least one piece; its pieces are characterised by `SplitPieces` and `SplitJoin` |
| PyText.SplitPieces | bootstrap/src/com/adobe/fms/utilities/hds.py:110 | the pieces `split` yields contain no separator and joined with it give back the input |
| PyText.SplitJoin | bootstrap/src/com/adobe/fms/utilities/hds.py:176-178 | splitting a join of separator-free pieces returns exactly those pieces |
| PyText.SplitHasSecondPiece | bootstrap/src/com/adobe/fms/utilities/hds.py:177 | `split(sep)[1]` exists exactly when `sep` occurs; without it the input is the only piece |
| PyText.HeadIsFirstPiece | bootstrap/src/com/adobe/fms/utilities/hds.py:110-112 | `split(':')[0]` is the longest colon-free prefix, followed by a colon unless it is the whole line |
| PyText.Strip | src/com/adobe/fms/utilities/ApacheBench.py:27 | `strip` is `rstrip` after `lstrip`; what each removes is stated by `LStripRemovesPrefix` and `RStripRemovesSuffix` |
| PyText.LStripRemovesPrefix | src/com/adobe/fms/utilities/ApacheBench.py:27 | `lstrip` removes exactly a prefix of stripped characters and stops at the first other one |
| PyText.RStripRemovesSuffix | src/com/adobe/fms/utilities/ApacheBench.py:27 | `rstrip` removes exactly a suffix of stripped characters and stops at the last other one |
| PyText.StripPadded | src/com/adobe/fms/utilities/ApacheBench.py:42 | stripping leading spaces off a value that has none at its ends gives the value |
| PyText.NatToStringDigits | bootstrap/src/com/adobe/fms/tests/threaded_hds_live.py:57-59 | `str(n)` of a natural is a run of digits worth n with no leading zero |
| PyText.IntToStringDigits | bootstrap/src/com/adobe/fms/tests/threaded_hds_live.py:164 | `str(n)` is non-empty, ends in a digit and holds only digits and a minus sign |
| PyText.IntToString | bootstrap/src/com/adobe/fms/tests/threaded_hds_live.py:164 | `str()` of an integer; `IntToStringDigits`, `ParseIntToString` and `IntToStringInjective` state its text |
| PyText.ParseInt | bootstrap/src/com/adobe/fms/utilities/hds.py:154 | Python 2 `int()` on base-10 text, `None` where it raises `ValueError`; `ParseIntToString` and `ParseIntSpaceAfterSign` state what it accepts |
| PyText.ParseIntSpaceAfterSign | bootstrap/src/com/adobe/fms/utilities/hds.py:154 | whitespace may sit between the sign and the digits: `int('-' + spaces + str(n))` is -n |
| PyText.ParseIntToString | bootstrap/src/com/adobe/fms/utilities/hds.py:154 | `int(str(n)) == n` for every integer |
| PyText.IntToStringInjective | bootstrap/src/com/adobe/fms/tests/threaded_hds_live.py:164 | distinct integers print differently |
| PyText.RemoveAll | bootstrap/src/com/adobe/fms/tests/threaded_hds_live.py:164 | `replace(c, '')`; what it keeps and drops is stated by `RemoveAllKeepsOthers` |
| PyText.RemoveAllKeepsOthers | bootstrap/src/com/adobe/fms/tests/threaded_hds_live.py:164 | `replace(' ', '')` removes every space, keeps every other character with its count, and is the identity on space-free text |
| PyText.FindKeyedLine | bootstrap/src/com/adobe/fms/utilities/hds.py:109-116 | the index of the first line whose key matches, and None exactly when no line's key matches |
| PyText.FindKeyedLineAppend | src/com/adobe/fms/utilities/ApacheBench.py:24-32 | lines after the first keyed line do not change which line is found |
| RunTable.LastKeyedBefore | bootstrap/src/com/adobe/fms/utilities/hds.py:109-113 | the last `segments` header below a bound; None exactly when there is none |
| RunTable.SegmentSection | bootstrap/src/com/adobe/fms/utilities/hds.py:104-121 | the segment section never contains a `fragments` header line |
| RunTable.SegmentSectionSplice | bootstrap/src/com/adobe/fms/utilities/hds.py:118-121 | putting the cut segment section back where it started restores the input; an empty cut leaves the input alone |
| RunTable.SpliceSpan | bootstrap/src/com/adobe/fms/utilities/hds.py:119-120 | removing `lines[a..b]` and re-inserting it at a restores the lines |
| RunTable.FragmentsHeaderAfterSegmentCut | bootstrap/src/com/adobe/fms/utilities/hds.py:171-187 | after a non-empty segment cut, the first `fragments` header sits where the section started |
| RunTable.FirstKeyedAfterCut | bootstrap/src/com/adobe/fms/utilities/hds.py:118-120 | cutting out lines in front of the first keyed line moves that line to the start of the cut |
| RunTable.FragmentSectionSplit | bootstrap/src/com/adobe/fms/utilities/hds.py:125-139 | residue followed by section is the input; with no header the section is everything and the residue is empty; otherwise the residue ends five past the header |
| RunTable.LineBuffer.Pop | bootstrap/src/com/adobe/fms/utilities/hds.py:120 | `list.pop(i)` returns line i and closes the gap |
| RunTable.LineBuffer.PopSpan | bootstrap/src/com/adobe/fms/utilities/hds.py:118-120 | popping at `start` end-start times yields `lines[start..end]` and leaves the other lines in order; an empty range changes nothing |
| RunTable.LineBuffer.ExtractSegmentSection | bootstrap/src/com/adobe/fms/utilities/hds.py:104-121 | returns the segment section and leaves exactly the other lines in the list |
| RunTable.LineBuffer.ExtractFragmentSection | bootstrap/src/com/adobe/fms/utilities/hds.py:125-139 | returns the lines from five past the first `fragments` header, or every line when there is none, and truncates the list to the rest |
| RunTable.ScanSegmentHeaders | bootstrap/src/com/adobe/fms/utilities/hds.py:105-117 | the start is five past the last `segments` header before the first `fragments` header (0 if none); the end is that header (0 if none) |
| RunTable.ScanFragmentsHeader | bootstrap/src/com/adobe/fms/utilities/hds.py:127-135 | five past the first `fragments` header, or 0 |
| RunTable.SumSegmentCounts | bootstrap/src/com/adobe/fms/utilities/hds.py:174-178 | the total is the sum of every segment record's fragment count |
| RunTable.SegmentTotal | bootstrap/src/com/adobe/fms/utilities/hds.py:174-178 | the running total of the segment records' fragment counts; `SumSegmentCounts` proves the loop computes it |
| RunTable.Fields | bootstrap/src/com/adobe/fms/utilities/hds.py:152 | `record.split(',')`, at least one field |
| RunTable.FieldInt | bootstrap/src/com/adobe/fms/utilities/hds.py:152-154 | `int(record.split(',')[i].split('=')[1])`, `None` where Python raises; `FieldError` names the exception |
| RunTable.ParseFragmentRecord | bootstrap/src/com/adobe/fms/utilities/hds.py:190-198 | number, duration and discontinuity of a record (0 and no raw text with fewer than four fields); `FirstEntryMatchesRecord` and `BackfillFromRecord` use it |
| RunTable.FirstRecordFrom | bootstrap/src/com/adobe/fms/utilities/hds.py:149-157 | the first record numbered frag at or after a start; None exactly when none is |
| RunTable.FieldError | bootstrap/src/com/adobe/fms/utilities/hds.py:152-154 | the exception an unreadable field raises: `IndexError` when the field or its `=` is missing, `ValueError` when `int()` rejects the value |
| RunTable.SearchRecords | bootstrap/src/com/adobe/fms/utilities/hds.py:149-157 | a found index is numbered frag, and every record scanned before it (all of them when None is returned) is readable and numbered otherwise; records after a match are never read |
| RunTable.SearchReadableRecords | bootstrap/src/com/adobe/fms/utilities/hds.py:149-157 | on records that are all readable the search never fails and finds exactly `FirstRecordFrom` |
| RunTable.IsInFragmentRunTable | bootstrap/src/com/adobe/fms/utilities/hds.py:149-157 | the loop returns what `SearchRecords` gives from 0, on any records: the first index numbered frag (index 0 included), None (the `False` of the source) when none is, or the error of the first unreadable record before a match |
| Reconcile.FragmentWindow.Append | bootstrap/src/com/adobe/fms/utilities/hds.py:213 | `check_frag.append` adds one descriptor at the end and changes nothing else |
| Reconcile.FragmentWindow.MarkPulled | bootstrap/src/com/adobe/fms/tests/threaded_hds_live.py:166 | `update({'pulled': True})` changes only that entry's flag |
| Reconcile.CheckForDups | bootstrap/src/com/adobe/fms/utilities/hds.py:142-146 | true exactly when some descriptor of the window carries the number |
| Reconcile.HasFragmentAppend | bootstrap/src/com/adobe/fms/utilities/hds.py:223 | a number is in a grown window exactly when it is in the old part or in the appended part |
| Reconcile.InsertByFragment | bootstrap/src/com/adobe/fms/utilities/hds.py:251 | an insertion step adds exactly the inserted descriptor |
| Reconcile.InsertSorted | bootstrap/src/com/adobe/fms/utilities/hds.py:251 | inserting into a sorted window keeps it sorted |
| Reconcile.SortByFragment | bootstrap/src/com/adobe/fms/utilities/hds.py:251 | the result is ordered by fragment number and is a permutation of the input |
| Reconcile.SameDescriptorsSameFragments | bootstrap/src/com/adobe/fms/utilities/hds.py:251 | a permutation holds the same fragment numbers |
| Reconcile.UniqueCons | bootstrap/src/com/adobe/fms/utilities/hds.py:251 | a window with a descriptor in front has unique numbers exactly when the rest does and lacks that number |
| Reconcile.InsertKeepsUnique | bootstrap/src/com/adobe/fms/utilities/hds.py:251 | inserting a descriptor whose number is new keeps numbers unique |
| Reconcile.SortKeepsUnique | bootstrap/src/com/adobe/fms/utilities/hds.py:251 | sorting keeps fragment numbers unique |
| Reconcile.InsertLargest | bootstrap/src/com/adobe/fms/utilities/hds.py:251 | a descriptor at least as large as all others is inserted at the end |
| Reconcile.SortSortedIsIdentity | bootstrap/src/com/adobe/fms/utilities/hds.py:251 | an already ordered window comes back unchanged |
| Reconcile.WithFragmentAppend | bootstrap/src/com/adobe/fms/utilities/hds.py:251 | the descriptors carrying one number in a concatenation are those of the first part followed by those of the second |
| Reconcile.InsertKeepsOrder | bootstrap/src/com/adobe/fms/utilities/hds.py:251 | an insertion step puts the new descriptor after every descriptor of the sorted window that carries its number |
| Reconcile.SortStable | bootstrap/src/com/adobe/fms/utilities/hds.py:251 | `sorted` is stable: for every number, the descriptors carrying it come out in the order they went in |
| Reconcile.CurrentFrom | bootstrap/src/com/adobe/fms/utilities/hds.py:200-209 | the two-branch `current_frag` formula; `CurrentFromOldest` proves the first branch always applies |
| Reconcile.CurrentFromOldest | bootstrap/src/com/adobe/fms/utilities/hds.py:200-209 | whenever the tables can be read, at least five lines remain, and `current_frag` is the segment total plus the oldest record's number minus 1 |
| Reconcile.FirstEntryFrom | bootstrap/src/com/adobe/fms/utilities/hds.py:149-157 | the first parsed entry carrying a number at or after a start; None exactly when none does |
| Reconcile.FirstEntryMatchesRecord | bootstrap/src/com/adobe/fms/utilities/hds.py:228 | searching the text records and searching the parsed entries find the same index |
| Reconcile.BackfillEntry | bootstrap/src/com/adobe/fms/utilities/hds.py:226-240 | a backfilled descriptor carries the newest segment number and the missing number, unpulled |
| Reconcile.BackfillFromRecord | bootstrap/src/com/adobe/fms/utilities/hds.py:228-240 | a number with a record takes the duration and discontinuity of its first record (0 with fewer than four fields) |
| Reconcile.BackfillWithoutRecord | bootstrap/src/com/adobe/fms/utilities/hds.py:226 | a number without a record takes the newest record's duration and discontinuity |
| Reconcile.BackfillDiscon | bootstrap/src/com/adobe/fms/utilities/hds.py:229-239 | `discon` after a backfilled number: the raw field 3 of its first record when that has four fields, else unchanged |
| Reconcile.Backfill | bootstrap/src/com/adobe/fms/utilities/hds.py:221-242 | n rounds of the backfill loop; `BackfillShape` and `BackfillFillsGaps` state what they append |
| Reconcile.BackfillShape | bootstrap/src/com/adobe/fms/utilities/hds.py:221-242 | after n rounds only numbers of high-n+1..high are appended, strictly descending, each built by the backfill rule |
| Reconcile.BackfillFillsGaps | bootstrap/src/com/adobe/fms/utilities/hds.py:221-242 | after n rounds a number of high-n+1..high is appended exactly when the window lacked it |
| Reconcile.BackfillRounds | bootstrap/src/com/adobe/fms/utilities/hds.py:217-221 | the number of rounds `xrange(len-1, len+gap-1)` runs: gap itself when it is above 1, else none |
| Reconcile.Appended | bootstrap/src/com/adobe/fms/utilities/hds.py:211-242 | the descriptors one poll appends: the newest on a first poll, the backfill otherwise; `FirstPollAppendsNewest` and `LaterPollAppendsMissing` characterise them |
| Reconcile.LivePoll | bootstrap/src/com/adobe/fms/utilities/hds.py:251 | the `durations[0]` a live poll returns; `PollWindowSorted`, `LaterPollKeepsUnique` and `SortStable` state its window |
| Reconcile.FirstPollAppendsNewest | bootstrap/src/com/adobe/fms/utilities/hds.py:195-213 | a one-entry window gets exactly one unpulled descriptor for `current_frag`, with the last record's duration and discontinuity |
| Reconcile.LaterPollAppendsMissing | bootstrap/src/com/adobe/fms/utilities/hds.py:215-242 | a later poll appends a number exactly when it lies strictly between the window's last number and `current_frag` and the window lacks it |
| Reconcile.NewestNeverBackfilled | bootstrap/src/com/adobe/fms/utilities/hds.py:217-222 | a later poll never appends `current_frag` itself |
| Reconcile.SmallGapAppendsNothing | bootstrap/src/com/adobe/fms/utilities/hds.py:219-221 | with a gap of at most 1 nothing is appended and the result is the sorted window |
| Reconcile.LaterPollDescending | bootstrap/src/com/adobe/fms/utilities/hds.py:221-242 | backfilled descriptors come in descending order, unpulled, under the newest segment number, each from its record or the newest one |
| Reconcile.LaterPollKeepsUnique | bootstrap/src/com/adobe/fms/utilities/hds.py:223-251 | a window with unique numbers keeps them unique when grown, and so does the returned sorted copy |
| Reconcile.PollWindowSorted | bootstrap/src/com/adobe/fms/utilities/hds.py:251 | the returned window is sorted and holds exactly the old descriptors plus the appended ones |
| Reconcile.BackfillTenToFourteen | bootstrap/src/com/adobe/fms/utilities/hds.py:217-242 | from last number 10 to newest 14 with no matching records, 13, 12 and 11 are appended in that order |
| Reconcile.BuildBackfillEntry | bootstrap/src/com/adobe/fms/utilities/hds.py:226-240 | the descriptor and the new `discon` for one missing number are the backfill rule's |
| Reconcile.BackfillWindow | bootstrap/src/com/adobe/fms/utilities/hds.py:217-242 | the loop appends exactly the backfill of `BackfillRounds(gap)` rounds to the window and yields its `discon` |
| Reconcile.ReadSegments | bootstrap/src/com/adobe/fms/utilities/hds.py:172-182 | the segment total over every record (also for a single record) and the raw number of the last segment |
| Reconcile.ReadNewest | bootstrap/src/com/adobe/fms/utilities/hds.py:190-209 | the newest record parsed and `current_frag` by the two-branch formula on the residual line count |
| Reconcile.CutSections | bootstrap/src/com/adobe/fms/utilities/hds.py:171-187 | the segment cut, then the fragment cut on what is left; the list keeps the residue |
| Reconcile.ApplyPoll | bootstrap/src/com/adobe/fms/utilities/hds.py:211-251 | the window grows by exactly the poll's appended descriptors, old entries untouched, and the returned poll is the specification's |
| Reconcile.PollLive | bootstrap/src/com/adobe/fms/utilities/hds.py:171-253 | the live branch on cut tables grows the window and returns the poll the specification gives for them |
| Reconcile.ExtractFragmentsLive | bootstrap/src/com/adobe/fms/utilities/hds.py:163-253 | live `extract_fragments`: the inspector list keeps the residue, the window grows by `Appended`, and the result is `LivePoll` |
| Reconcile.VodFragmentList.Append | bootstrap/src/com/adobe/fms/utilities/hds.py:286 | `check_frag.append` for the non-live list |
| Reconcile.VodEntries | bootstrap/src/com/adobe/fms/utilities/hds.py:273-286 | one descriptor per record |
| Reconcile.VodEntriesAt | bootstrap/src/com/adobe/fms/utilities/hds.py:286 | entry i of the non-live list is the descriptor of parsed record i |
| Reconcile.VodEntriesFromRecords | bootstrap/src/com/adobe/fms/utilities/hds.py:273-286 | entry i carries record i's number, duration and discontinuity (0 with fewer than four fields), unpulled |
| Reconcile.AppendVodEntries | bootstrap/src/com/adobe/fms/utilities/hds.py:273-286 | the loop appends one descriptor per record, in table order |
| Reconcile.VodFromTables | bootstrap/src/com/adobe/fms/utilities/hds.py:263-287 | the non-live branch on cut tables returns the grown list |
| Reconcile.ExtractFragmentsVod | bootstrap/src/com/adobe/fms/utilities/hds.py:255-287 | non-live `extract_fragments`: the list keeps the residue and the descriptor list grows by one entry per record |
| ApacheBench.AfterColon | src/com/adobe/fms/utilities/ApacheBench.py:25-27 | the text after the first colon exists exactly when the line has a colon, else IndexError |
| ApacheBench.IntValue | src/com/adobe/fms/utilities/ApacheBench.py:42 | an error exactly when there is no colon or `int()` rejects the value |
| ApacheBench.FirstToken | src/com/adobe/fms/utilities/ApacheBench.py:27-28 | a token exists exactly when the line has a colon, and it holds no space |
| ApacheBench.KeyedInt | src/com/adobe/fms/utilities/ApacheBench.py:36-43 | the first keyed line's integer, 0 without one; `KeyedIntFirstMatch` and `KeyedIntIgnoresLater` characterise it |
| ApacheBench.KeyedToken | src/com/adobe/fms/utilities/ApacheBench.py:46-55 | the first keyed line's first token, 0 without one; `KeyedTokenFirstMatch` and `KeyedTokenIgnoresLater` characterise it |
| ApacheBench.GetTotalRequests | src/com/adobe/fms/utilities/ApacheBench.py:36-43 | `get_total_requests`: the keyed integer scan under `Complete requests` |
| ApacheBench.GetNon2xxResponses | src/com/adobe/fms/utilities/ApacheBench.py:71-78 | `get_non_2xx_responses`: the keyed integer scan under `Non-2xx responses` |
| ApacheBench.GetTimeTaken | src/com/adobe/fms/utilities/ApacheBench.py:23-33 | `get_time_taken`: the token scan under `Time taken for tests`; `TimeTakenIsFirstToken` shows the extra strip changes nothing |
| ApacheBench.GetRequestsPerSecond | src/com/adobe/fms/utilities/ApacheBench.py:46-55 | `get_requests_per_second`: the token scan under `Requests per second` |
| ApacheBench.GetLatency | src/com/adobe/fms/utilities/ApacheBench.py:58-68 | `get_latency`; `LatencyReadsMeanLine`, `LatencySkipsOtherLine` and `LatencyNoKey` characterise it |
| ApacheBench.KeyedIntFirstMatch | src/com/adobe/fms/utilities/ApacheBench.py:36-43 | an integer extractor answers from the first keyed line, and 0 when there is none |
| ApacheBench.KeyedTokenFirstMatch | src/com/adobe/fms/utilities/ApacheBench.py:46-55 | a float extractor answers from the first keyed line's token, and 0 exactly when there is none |
| ApacheBench.KeyedIntIgnoresLater | src/com/adobe/fms/utilities/ApacheBench.py:71-77 | lines after the first keyed line never change an integer extractor's answer |
| ApacheBench.KeyedTokenIgnoresLater | src/com/adobe/fms/utilities/ApacheBench.py:46-54 | lines after the first keyed line never change a float extractor's answer |
| ApacheBench.IntLineReadsBack | src/com/adobe/fms/utilities/ApacheBench.py:36-42 | a line `key:` + spaces + `str(n)` is found under its key and reads back as n |
| ApacheBench.TokenLineReadsBack | src/com/adobe/fms/utilities/ApacheBench.py:48-54 | a line `key:` + spaces + a token + more text reads back as that token |
| ApacheBench.LatencyReadsMeanLine | src/com/adobe/fms/utilities/ApacheBench.py:58-67 | ab's `Time per request: v [ms] (mean)` line gives v |
| ApacheBench.LatencySkipsOtherLine | src/com/adobe/fms/utilities/ApacheBench.py:58-67 | a `Time per request` line whose third token is not `(mean)` is skipped and scanning goes on |
| ApacheBench.TimePerRequestLine | src/com/adobe/fms/utilities/ApacheBench.py:60-62 | the key and stripped value of a `Time per request:` line |
| ApacheBench.ColonFreeLine | src/com/adobe/fms/utilities/ApacheBench.py:25-27 | the key and the stripped text after `key:` when nothing after it holds a colon |
| ApacheBench.LatencyNoKey | src/com/adobe/fms/utilities/ApacheBench.py:68 | `get_latency` returns 0 when no line carries its key |
| ApacheBench.TimeTakenIsFirstToken | src/com/adobe/fms/utilities/ApacheBench.py:27-32 | the extra strip in `get_time_taken` changes nothing: it returns the first token |
| LivePipeline.StreamUrl | bootstrap/src/com/adobe/fms/tests/threaded_hds_live.py:183-184 | a stream's URL from server and stream name; `StreamUrlInjective` proves streams do not share one |
| LivePipeline.FragmentUrl | bootstrap/src/com/adobe/fms/tests/threaded_hds_live.py:164 | a fragment's URL; `FragmentUrlInjective` proves fragments of one segment do not share one |
| LivePipeline.TaskFor | bootstrap/src/com/adobe/fms/tests/threaded_hds_live.py:161-165 | the `FragmentTask` built for one window entry |
| LivePipeline.DispatchTasks | bootstrap/src/com/adobe/fms/tests/threaded_hds_live.py:159-165 | the tasks one dispatch emits; `DispatchTasksFromUnpulled` and `DispatchTasksAppend` characterise them |
| LivePipeline.PauseHalfSeconds | bootstrap/src/com/adobe/fms/tests/threaded_hds_live.py:167 | the pause after one entry; `PauseBounds` bounds it |
| LivePipeline.StreamUrlInjective | bootstrap/src/com/adobe/fms/tests/threaded_hds_live.py:183-184 | different streams of one server get different URLs |
| LivePipeline.FragmentUrlInjective | bootstrap/src/com/adobe/fms/tests/threaded_hds_live.py:164 | within one stream and segment, different fragments get different URLs |
| LivePipeline.MarkAllPulled | bootstrap/src/com/adobe/fms/tests/threaded_hds_live.py:166 | every entry ends up pulled; length, order and every other field are untouched |
| LivePipeline.PauseBounds | bootstrap/src/com/adobe/fms/tests/threaded_hds_live.py:167 | the pause is at least 1 s, exactly 1 s below 2000 ms, and otherwise ends 0.5 s to 1.5 s before the fragment's duration |
| LivePipeline.Dispatch | bootstrap/src/com/adobe/fms/tests/threaded_hds_live.py:159-167 | the loop marks every entry pulled, emits the tasks of the unpulled entries in window order, and pauses for each by its duration |
| LivePipeline.DispatchTasksAppend | bootstrap/src/com/adobe/fms/tests/threaded_hds_live.py:159-165 | dispatching a concatenation dispatches the parts in turn |
| LivePipeline.DispatchTasksFromUnpulled | bootstrap/src/com/adobe/fms/tests/threaded_hds_live.py:159-165 | every unpulled entry yields a task, and every task comes from an unpulled entry |
| LivePipeline.DispatchAllUnpulled | bootstrap/src/com/adobe/fms/tests/threaded_hds_live.py:159-165 | a window of unpulled entries yields one task per entry, in window order |
| LivePipeline.DispatchAllPulled | bootstrap/src/com/adobe/fms/tests/threaded_hds_live.py:160 | a window of pulled entries dispatches nothing |
| LivePipeline.DispatchIdempotent | bootstrap/src/com/adobe/fms/tests/threaded_hds_live.py:159-166 | a second dispatch right after the first emits nothing and changes nothing |
| LivePipeline.NoDuplicateDispatch | bootstrap/src/com/adobe/fms/tests/threaded_hds_live.py:159-165 | a window with unique fragment numbers gets tasks with unique fragment numbers |
| LivePipeline.AppendedUnpulled | bootstrap/src/com/adobe/fms/utilities/hds.py:213-242 | every descriptor a poll appends is unpulled |
| LivePipeline.PolledUnpulledAreAppended | bootstrap/src/com/adobe/fms/tests/threaded_hds_live.py:159-171 | after a dispatch, the next poll's window holds an unpulled descriptor exactly when that poll appended it |
| LivePipeline.NextDispatchSendsAppended | bootstrap/src/com/adobe/fms/tests/threaded_hds_live.py:159-171 | the next dispatch sends a task for every descriptor the poll appended and for no other |
| LivePipeline.SeededWindowDispatchesNothing | bootstrap/src/com/adobe/fms/tests/threaded_hds_live.py:260-261 | the pulled placeholder entry is never dispatched |
| LivePipeline.StreamName | bootstrap/src/com/adobe/fms/tests/threaded_hds_live.py:257-259 | the stream name is the longest dot-free prefix of the href, followed by a dot unless it is the whole href |
| LivePipeline.SeedTask | bootstrap/src/com/adobe/fms/tests/threaded_hds_live.py:260-262 | the bootstrap task seeded for one stream; `SeededTasksStartFresh` states its window and URLs |
| LivePipeline.SeedStreams | bootstrap/src/com/adobe/fms/tests/threaded_hds_live.py:249-263 | one stream entry and one bootstrap task per media item after the base URL, in order, each with the base URL, the name before the first dot and the placeholder window |
| LivePipeline.SeededTasksStartFresh | bootstrap/src/com/adobe/fms/tests/threaded_hds_live.py:183-184 | every seeded task's window has one entry, dispatches nothing, and its stream URL comes from server and stream name |
| LivePipeline.ConsumerCount | bootstrap/src/com/adobe/fms/tests/threaded_hds_live.py:266 | the pool size is the smaller of the stream count and the maximum |
| LivePipeline.Pools | bootstrap/src/com/adobe/fms/tests/threaded_hds_live.py:266-269 | the three pools are equal, at most 120 and at most the stream count, and equal to it up to 120 |
| LivePipeline.Pad2 | bootstrap/src/com/adobe/fms/tests/threaded_hds_live.py:57-59 | a clock field is a run of digits worth its value, two characters below 100 |
| LivePipeline.Pad2ReadsBack | bootstrap/src/com/adobe/fms/tests/threaded_hds_live.py:57-59 | `int()` reads a padded clock field back |
| LivePipeline.Timestamp | bootstrap/src/com/adobe/fms/tests/threaded_hds_live.py:56-60 | the `HH:MM:SS` text; `TimestampReadsBack` states its length and fields |
| LivePipeline.TimestampReadsBack | bootstrap/src/com/adobe/fms/tests/threaded_hds_live.py:56-60 | a clock time renders as `HH:MM:SS` in eight characters and splits back into its three fields |
| LivePipeline.LogLine | bootstrap/src/com/adobe/fms/tests/threaded_hds_live.py:62 | the log line; `LogLineFields` reads its time and level back |
| LivePipeline.LogLineFields | bootstrap/src/com/adobe/fms/tests/threaded_hds_live.py:62 | the time and the level come back as the first two `]`-pieces of a log line |
| LivePipeline.CsvLine | bootstrap/src/com/adobe/fms/tests/threaded_hds_live.py:89 | the CSV line; `CsvLineFields` reads its three figures back |
| LivePipeline.CsvLineFields | bootstrap/src/com/adobe/fms/tests/threaded_hds_live.py:89 | latency, throughput and non-2xx count come back as the comma fields of the CSV line |
| LivePipeline.RunFragmentTask | bootstrap/src/com/adobe/fms/tests/threaded_hds_live.py:123-135 | `FragmentTask.__call__` on ab's output; `ZeroDurationNoAnswer` states when it answers |
| LivePipeline.ZeroDurationNoAnswer | bootstrap/src/com/adobe/fms/tests/threaded_hds_live.py:123-135 | a task answers nothing exactly when its duration is 0; otherwise its answer names its fragment |
| LivePipeline.ConsumeFragment | bootstrap/src/com/adobe/fms/tests/threaded_hds_live.py:103-107 | a consumed task writes one CSV line, none exactly when its duration is 0 |

## Left out

- HTTP fetches (`request_manifest`, `request_live_bootstrap`) are network I/O. Their results become inputs.
- XML and base64 parsing (`parse_live_mlm`, `parse_manifest`) are left out. Seeding takes the list they produce as a `ManifestItem` sequence.
- File writes (`write_bootstrap_to_file`, CSV and log appends) and the inspector and ab subprocesses (`convert_manifest`, `ApacheBench.run`) are left out. Only the texts written and read are modelled.
- Threads, queues, the infinite consumer loops, the re-enqueueing of a `BootstrapTask` after each dispatch, and the result-draining main loop are left out. Their point is concurrency; the sequential dispatch step and the poll that follows it are modelled.
- `time.localtime` and `time.sleep` are left out. The clock fields are parameters, and the pause is returned as a count of half-seconds.
- `settings.py` is not part of this model. The ab settings and the server name are parameters.
- Debug `print` statements are not modelled.
- The unused locals `missing_frag_arr` and `small_list` (`hds.py:218, 225, 245-246`) have no effect and are not modelled.
- Reconcile.ExtractFragmentsLive and Reconcile.PollLive require `LiveTablesOk`: non-empty sections, every segment record's count readable, the last segment's number present, and every fragment record well formed (number, duration and, with four fields, discontinuity readable). That is more than the live branch of `hds.py` reads. It reads the newest record, the oldest record's number, the records the backfill search passes over and the records it matches, so it can succeed on a table whose other records are malformed, where the model says nothing. Where `hds.py` raises `IndexError` or `ValueError` on the tables, the model has no error result.
- Reconcile.ExtractFragmentsVod requires `VodTablesOk`: a non-empty segment section whose last record has two fields, and every fragment record well formed. The non-live branch parses every record, so this is exactly when it returns; the descriptors it appends before raising on a bad record are not modelled.
- `RunTable.IsInFragmentRunTable` needs no precondition. Its `IndexError` and `ValueError` are `Err` results, as are the ApacheBench extractors' errors.
- Reconcile.FragmentWindow: the window is a `seq` of descriptor values inside one object. Python's sharing of the same dicts between the window, the `frag_list` handed to each `FragmentTask` and the bootstrap answer is not modelled, and a `FragmentTask` carries no window.
- Reconcile.LivePoll: `discon` is `None` where Python returns the initial integer 0, and otherwise the raw text after `=` in field 3.
- Reconcile.Descriptor: the segment is kept as text. The seeded placeholder's integer segment 0 is the text `"0"`, which is all `str()` ever makes of it.
- LivePipeline.SeedTask: the constant duration 0.1 passed to each seeded `BootstrapTask` is never read and is dropped.
- LivePipeline.SeedStreams requires the shape `parse_live_mlm` produces: the base URL first and only first, then one dict with an `href` per media tag.
- LivePipeline.ReadingText: `str(float(token))` is not modelled. The answer carries the selected token text, or `"0"` when no line matched.
- LivePipeline.RunFragmentTask: the figures are read from given ab output lines, and the INFO log task it queues is not modelled.
- ApacheBench.GetTimeTaken and ApacheBench.GetRequestsPerSecond return the token that `float()` would convert, not a number. `float()` rejecting the token is not modelled.
- PyText.ParseInt models Python 2 `int()` on base-10 text: surrounding whitespace, an optional sign, whitespace after the sign, and at least one digit. Integers are unbounded, as Python's are. Python 2 also lets `int()` of a unicode string take non-ASCII digits and whitespace; the model knows only the ASCII digits and the C whitespace characters.
