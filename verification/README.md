# Chart store model

A Dafny model of the state store of a rhythm-game chart editor
(`vue-app/src/stores/chart.ts`). The store holds three things:

- the song metadata;
- a list of timing points, which are tempo and time-signature changes at a (measure, beat) position;
- a list of placed notes.

It also keeps a bounded undo/redo history of whole-chart snapshots.

The store becomes the immutable `History.Store`. It holds the live chart (`chartData`), the snapshot list, the cursor (`historyIndex`) and the recording-suspended flag (`skipHistorySaving`). Every store function becomes a pure function from a store, plus its arguments, to a new store. The deep copies chart.ts makes with `JSON.parse(JSON.stringify(…))` need no code here, because Dafny values never alias.

Modules, by file:

- `chart_types.dfy` (`ChartTypes`):
  - the value types;
  - the shallow merge `{ ...info, ...patch }` of `setSongInfo`;
  - the lexicographic sort key the two comparators use.
- `keyed_seq.dfy` (`KeyedSeq`):
  - the sorted and unique-key predicates;
  - a stable insertion sort with its sorted-permutation contract. JavaScript's `Array.prototype.sort` is stable, and so is this sort;
  - `findIndex`/`find`;
  - `splice(i, 1)`.
- `timing_points.dfy` (`TimingPoints`): `addTimingPoint` (replace the first point at the same position or append, then sort), `getTimingPointAt` and `hasTimingPointAt`.
- `notes.dfy` (`Notes`): `addNote`, which appends, then sorts, and never replaces.
- `lookup.dfy` (`Lookup`): `getBpmAt` and `getTimeSignatureAt`.
- `history.dfy` (`History`):
  - `saveToHistory`, with ECMAScript `slice` written out;
  - `undo`, `redo`, `canUndo`, `canRedo`;
  - repeated undo/redo.
- `chart_store.dfy` (`ChartStore`):
  - the defaults;
  - construction (one `saveToHistory` on an empty history with cursor -1);
  - every mutator at store level;
  - the ordering invariant the mutators keep.
- `batch.dfy` (`Batch`): store calls as commands, runs of commands, `performBatchOperation`, and properties of whole editing sessions.

The store invariants:

- `History.Valid`: `0 <= cursor < |history| <= 50`.
- `History.Synced`: the live chart equals `history[cursor]`.
- `ChartStore.Ordered`: the live chart and every snapshot have sorted timing points with one point per position, and sorted notes.

Construction establishes all three. Every command preserves `Valid`. Every command preserves `Ordered`, provided that `loadChartData` is given well-formed data.

Three behaviours of the code worth knowing:

- `setSongInfo` (chart.ts:130-132) does not call `saveToHistory`. `ChartStore.SongInfoEditLostByUndoRedo` shows the consequence: an undo followed by a redo brings back the last snapshot without the song-info edit.
- `removeNote` and `removeTimingPoint` (chart.ts:172-180) record a snapshot even when the index is past the end and nothing is removed.
- `loadChartData` (chart.ts:201-206) does not re-sort. The ordering invariant is therefore preserved only when the loaded chart is already well formed.

## Model

| member | source | states |
|---|---|---|
| ChartTypes.Merge | vue-app/src/stores/chart.ts:130-132 | each of the eight fields is the patch's value when the patch carries it and the old value otherwise; so an empty patch changes nothing and a full patch replaces everything |
| ChartTypes.MergeIdempotent | vue-app/src/stores/chart.ts:130-132 | applying the same partial update twice gives the same song info as applying it once |
| ChartTypes.MergeComposes | vue-app/src/stores/chart.ts:130-132 | two successive partial updates equal one update in which the later patch's fields win |
| ChartTypes.TpKeyOrder | vue-app/src/stores/chart.ts:153-156 | the timing-point key orders by measure then beat, and two points have equal keys exactly when they sit at the same position |
| ChartTypes.KeyLeTotalOrder | vue-app/src/stores/chart.ts:164-168 | the (measure, beat, lane) comparison is reflexive, total, antisymmetric and transitive |
| KeyedSeq.Insert | vue-app/src/stores/chart.ts:164-168 | inserting into a sorted sequence gives a sorted sequence with exactly one more occurrence of the element |
| KeyedSeq.Sort | vue-app/src/stores/chart.ts:153-156 | the result is sorted and is a permutation of the input |
| KeyedSeq.SortKeepsFirst | vue-app/src/stores/chart.ts:153-156 | stability: for every key, the first element with that key is the same before and after sorting |
| KeyedSeq.InsertKeepsFirst | vue-app/src/stores/chart.ts:153-156 | an inserted element precedes the elements already present with its key |
| KeyedSeq.SortUnique | vue-app/src/stores/chart.ts:153-156 | sorting keeps keys unique when they were unique |
| KeyedSeq.SortedPermutationUnique | vue-app/src/stores/chart.ts:153-156 | two sorted permutations of the same elements with unique keys are equal, so the sorted timing points do not depend on the sorting algorithm |
| KeyedSeq.FindIndex | vue-app/src/stores/chart.ts:138-140 | the result is -1 when no element has the key, and otherwise an index whose element has the key with none before it |
| KeyedSeq.FirstWith | vue-app/src/stores/chart.ts:184-186 | an element is found exactly when some element has the key, and the one found is the element at an index holding the key with no earlier index holding it |
| KeyedSeq.SortAppend | vue-app/src/stores/chart.ts:162-168 | sorting a sorted sequence with one element pushed at the end places that element after every element whose key is at most its own and before every greater one, keeping the rest in order |
| KeyedSeq.InsertLast | vue-app/src/stores/chart.ts:107-112 | after inserting into a non-empty sorted sequence, the last element is the old last one unless the inserted key is strictly greater, in which case it is the inserted element |
| KeyedSeq.SortLastIsLastOfKey | vue-app/src/stores/chart.ts:107-112 | the last element of the stable sort is, in the input, at an index after which no element shares its key: among equal keys the last one wins |
| KeyedSeq.RemoveAt | vue-app/src/stores/chart.ts:173 | an in-range index removes exactly that element and shifts the later elements down by one; an index past the end leaves the sequence as it was |
| KeyedSeq.RemoveKeepsOrder | vue-app/src/stores/chart.ts:172-180 | removing an element keeps a sorted sequence sorted and unique keys unique |
| TimingPoints.At | vue-app/src/stores/chart.ts:183-187 | the result is the first point at exactly (measure, beat), or none when no point sits there |
| TimingPoints.HasAt | vue-app/src/stores/chart.ts:190-194 | some point sits at the position exactly when the exact lookup finds one |
| TimingPoints.Upsert | vue-app/src/stores/chart.ts:138-150 | the new point becomes the first at its position; the length grows only when the position was free; the multiset loses only the replaced point and gains the new one |
| TimingPoints.Add | vue-app/src/stores/chart.ts:134-156 | the result is sorted by (measure, beat). Its length is unchanged when the position was taken and one more otherwise. The lookup at the new point's position returns the new point. Unique positions stay unique. Every point at another position is kept. Nothing else is added |
| Notes.Add | vue-app/src/stores/chart.ts:162-168 | the result is sorted by (measure, beat, lane) and its multiset is the old one plus the new note; when the notes were sorted, the new note is inserted after every note whose key is at most its own, equal keys included, and before every greater one, with the others in their old order |
| Notes.SameKeyAddedLast | vue-app/src/stores/chart.ts:162-168 | in a sorted collection, a note added at the (measure, beat, lane) of the note at index i lands at an index after i, with every note before it left in place |
| Notes.ExampleSameKeyPair | vue-app/src/stores/chart.ts:162-168 | adding a note to a one-note collection holding a note with the same key gives the old note first and the new one second |
| Notes.AddKeepsSameKey | vue-app/src/stores/chart.ts:162-168 | no note is replaced: every old note is still present, and the new note occurs once more than before |
| Lookup.Relevant | vue-app/src/stores/chart.ts:105-106 | a point is kept exactly when it is at or before the queried position, and the result is no longer than the input |
| Lookup.RelevantCounts | vue-app/src/stores/chart.ts:105-106 | every qualifying point is kept as many times as it occurs, and every other point not at all |
| Lookup.RelevantAppend | vue-app/src/stores/chart.ts:105-106 | filtering distributes over concatenation, so the kept points stay in their input order |
| Lookup.RelevantLastOfKey | vue-app/src/stores/chart.ts:105-112 | a point that is the last of its position among the filtered points sits at an index of the collection after which no qualifying point shares its position |
| Lookup.Latest | vue-app/src/stores/chart.ts:105-112 | there is no answer exactly when no point is at or before the position; otherwise the answer is a qualifying point that no qualifying point follows in (measure, beat) order and, among the qualifying points at that position, the last in collection order |
| Lookup.BpmAt | vue-app/src/stores/chart.ts:104-113 | the result is 120 when no point qualifies, and otherwise the tempo of the last qualifying point at the latest position |
| Lookup.TimeSignatureAt | vue-app/src/stores/chart.ts:116-127 | the result is 4/4 when no point qualifies, and otherwise the time signature of the last qualifying point at the latest position |
| Lookup.LastLatestIsUnique | vue-app/src/stores/chart.ts:104-127 | only one point is the last qualifying point at the latest position, so both lookups are fully determined even when positions repeat |
| Lookup.LatestIsUnique | vue-app/src/stores/chart.ts:107-112 | with one point per position there is only one latest qualifying point |
| Lookup.LookupsReadLatest | vue-app/src/stores/chart.ts:104-127 | with one point per position both lookups read the tempo and time signature of that latest point |
| Lookup.ExampleBeforeFirstPoint | vue-app/src/stores/chart.ts:112 | before the first point (100 BPM in 6/8) the lookups fall back to 120 BPM and 4/4 |
| Lookup.ExampleBetweenPoints | vue-app/src/stores/chart.ts:104-127 | between two points the earlier one (100 BPM in 6/8) is in force, not the defaults and not the later point |
| Lookup.ExampleOnSecondPoint | vue-app/src/stores/chart.ts:104-127 | a point is in force from its own position on, inclusive |
| History.RelativeIndex | vue-app/src/stores/chart.ts:88 | an index within the length is kept; a negative index within the length counts from the end; an index above the length gives the length, and one below minus the length gives 0 |
| History.JsSlice | vue-app/src/stores/chart.ts:79 | in-range bounds give the ordinary subsequence, and the slice holds only elements of the input |
| History.Record | vue-app/src/stores/chart.ts:69-91 | while suspended, nothing changes. Otherwise the entries after the cursor are dropped and the live chart is appended; only the newest 50 entries are kept; the cursor points at the new entry and the store is synced |
| History.CanUndo | vue-app/src/stores/chart.ts:245 | true exactly when an undo would succeed |
| History.CanRedo | vue-app/src/stores/chart.ts:246 | true exactly when a redo would succeed |
| History.Undo | vue-app/src/stores/chart.ts:213-226 | succeeds exactly when the cursor is above 0. Success moves the cursor back one and restores that snapshot, leaving the history alone. Failure changes nothing |
| History.Redo | vue-app/src/stores/chart.ts:229-242 | succeeds exactly when the cursor is below the last index. Success moves the cursor forward one and restores that snapshot. Failure changes nothing |
| History.UndoThenRedo | vue-app/src/stores/chart.ts:213-242 | a successful undo followed by a redo returns a synced store to exactly where it was |
| History.RedoThenUndo | vue-app/src/stores/chart.ts:213-242 | a successful redo followed by an undo returns a synced store to exactly where it was |
| History.UndoAfterRecord | vue-app/src/stores/chart.ts:69-91 | one undo right after recording always succeeds and restores the snapshot that was under the cursor before, even when the oldest entry was evicted |
| History.RecordClearsRedo | vue-app/src/stores/chart.ts:77-84 | after recording, nothing is left to redo |
| History.UndoTimes | vue-app/src/stores/chart.ts:213-226 | n undo calls move the cursor back by n, stopping at 0, and leave the history unchanged |
| History.RedoTimes | vue-app/src/stores/chart.ts:229-242 | n redo calls move the cursor forward by n, stopping at the last entry, and leave the history unchanged |
| History.UndoRedoRoundTrip | vue-app/src/stores/chart.ts:213-242 | n undo calls followed by n redo calls give back the same synced store |
| History.UndoDepthBound | vue-app/src/stores/chart.ts:65 | at most 49 undo calls in a row succeed; from the newest entry of a full history exactly 49 do |
| ChartStore.Commit | vue-app/src/stores/chart.ts:69-91 | the live chart is replaced and then recorded as `saveToHistory` does |
| ChartStore.Init | vue-app/src/stores/chart.ts:38-94 | a new store holds the default chart as its single snapshot, with the cursor at 0 and nothing to undo or redo |
| ChartStore.SaveToHistory | vue-app/src/stores/chart.ts:69-91 | calling `saveToHistory` directly records the live chart unchanged and keeps the ordering invariant |
| ChartStore.SetSongInfo | vue-app/src/stores/chart.ts:130-132 | the song info becomes the merge of the patch; timing points, notes, history and cursor are untouched |
| ChartStore.SongInfoEditLostByUndoRedo | vue-app/src/stores/chart.ts:130-132 | because no snapshot is recorded, an undo followed by a redo drops an effective song-info edit |
| ChartStore.AddTimingPoint | vue-app/src/stores/chart.ts:134-160 | the timing points are sorted and keep unique positions. The new point is found at its position. The length grows by one only when the position was free. Every point at another position is kept and nothing else is added, and the multiset loses only the replaced point and gains the new one. Notes and song info are untouched, and one snapshot is recorded |
| ChartStore.AddNote | vue-app/src/stores/chart.ts:162-170 | the notes are sorted and are the old notes plus the new one, placed after the notes with its key when the old notes were sorted; the rest is untouched, and one snapshot is recorded |
| ChartStore.RemoveNote | vue-app/src/stores/chart.ts:172-175 | an in-range index removes exactly the note at that index, and the others keep their order; an index past the end leaves the chart as it was; a snapshot is recorded either way |
| ChartStore.RemoveTimingPoint | vue-app/src/stores/chart.ts:177-180 | an in-range index removes exactly the point at that index, and the others keep their order; an index past the end leaves the chart as it was; a snapshot is recorded either way |
| ChartStore.ClearNotes | vue-app/src/stores/chart.ts:196-199 | no notes remain, the rest of the chart is untouched, and one snapshot is recorded |
| ChartStore.LoadChartData | vue-app/src/stores/chart.ts:201-206 | the live chart becomes the given chart as is, and one snapshot is recorded |
| ChartStore.NavigationKeepsOrder | vue-app/src/stores/chart.ts:213-242 | undo and redo keep the ordering invariant, because they restore snapshots |
| Batch.Edit | vue-app/src/stores/chart.ts:134-206 | every mutator that ends in `saveToHistory` leaves the store recorded after its change, and keeps the ordering invariant |
| Batch.Apply | vue-app/src/stores/chart.ts:130-246 | every store call keeps the history invariant. Recording calls record; the others leave the history alone; `setSongInfo` also leaves the cursor alone. The ordering invariant is kept |
| Batch.Run | vue-app/src/stores/chart.ts:249-253 | while recording is suspended, a run of calls leaves the history unchanged, and leaves the cursor unchanged if it contains no undo or redo |
| Batch.PerformBatch | vue-app/src/stores/chart.ts:249-257 | a batch without undo or redo adds exactly one snapshot, the final chart, after the starting cursor, and leaves the store synced at the newest entry |
| Batch.UndoRevertsBatch | vue-app/src/stores/chart.ts:249-257 | a single undo after a batch returns to the snapshot current before it |
| Batch.RecordStepWithRoom | vue-app/src/stores/chart.ts:69-91 | with room left, a recording call appends exactly one snapshot right after the cursor |
| Batch.RecordedRunExtendsHistory | vue-app/src/stores/chart.ts:69-91 | with room left, n recording calls advance the cursor by n and leave earlier entries alone |
| Batch.UndoRedoRestoresRun | vue-app/src/stores/chart.ts:213-242 | n recorded edits followed by n undo calls restore the starting chart, and n redo calls then restore the edited store exactly |
| Batch.UndoAllFromInit | vue-app/src/stores/chart.ts:94 | from a new store, up to 49 recorded edits can all be undone back to the default chart, and no further |
| Batch.RecordStepAtNewest | vue-app/src/stores/chart.ts:83-90 | from the newest entry, a recording call grows the history by one until it holds 50 |
| Batch.HistoryFills | vue-app/src/stores/chart.ts:83-90 | from the newest entry, each recording call grows the history by one until it holds 50, keeping the cursor at the newest entry |
| Batch.FortyNineUndos | vue-app/src/stores/chart.ts:65-90 | after at least 49 recorded edits from a new store, exactly 49 undo calls succeed |

## Left out

- Vue and Pinia plumbing (`ref`, `computed`, `defineStore`): the store is a plain value, and the `chartData` getter is its `data` field.
- `console.log` calls: they have no effect on the state.
- `exportChartData`: it only pretty-prints JSON through the platform serializer, which is not modelled.
- JSON deep copies in `saveToHistory`, `undo` and `redo`: immutable values give the same independence from later edits.
- Aliasing: `loadChartData` (chart.ts:201-206), `addTimingPoint` (chart.ts:145, 149) and `addNote` (chart.ts:163) store the caller's object itself, and `getTimeSignatureAt` (chart.ts:125) returns the stored tuple itself. A later mutation through such a shared reference cannot be expressed with values.
- Exceptions inside `performBatchOperation`: the operation is a finite list of store calls, none of which throws.
- Nested batches: the inner `finally` would switch recording back on early. Only one level is modelled.
- `splice` with negative or fractional indices: indices are `nat`.
- Floating point: beats, tempos, volume, offsets and durations are `real`. The sort comparators' subtraction is modelled as a comparison, so NaN and infinities are not modelled.
- Partial song-info patches that set a field to `undefined` explicitly: a patch field is either present with a value or absent.
- Time signatures as JavaScript tuples: a two-field datatype is used instead.
- History.Undo: requires the history invariant. chart.ts would read an undefined entry only from a store that breaks it, and no store call produces such a store.
- History.Redo: requires the history invariant, for the same reason.
- Notes.Add: the exact position of the new note is stated only when the notes were sorted before the call; after `loadChartData` with unsorted notes, only sortedness and the multiset are stated.
- ChartStore.AddNote: the same restriction as `Notes.Add` for the new note's position.
- Batch.PerformBatch: the exact resulting history is stated only for batches without undo or redo inside.
