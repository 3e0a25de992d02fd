/**
 The chart store's mutators over the whole store: each changes the live
 chart and, except `setSongInfo`, then runs `saveToHistory`. Also the
 store's construction and the ordering invariant the mutators keep.
 */
module ChartStore {
  import opened ChartTypes
  import opened KeyedSeq
  import opened History
  import TimingPoints
  import Notes

  function DefaultSongInfo(): SongInfo {
    SongInfo("", "", "", 0.0, 100, 0.5, "Normal", 1)
  }

  /** The chart a new store starts with: default song info, one point at (1, 0) of 120 BPM in 4/4, no notes. */
  function DefaultChart(): ChartData {
    ChartData(DefaultSongInfo(), [TimingPoint(1, 0.0, 120.0, TimeSignature(4, 4))], [])
  }

  /** Timing points sorted with one per position, notes sorted. */
  ghost predicate WellFormed(d: ChartData) {
    && Sorted(d.timingPoints, TpKey)
    && Unique(d.timingPoints, TpKey)
    && Sorted(d.notes, NoteKey)
  }

  /** The live chart and every snapshot are well formed. */
  ghost predicate Ordered(s: Store) {
    WellFormed(s.data) && forall e | e in s.history :: WellFormed(e)
  }

  /**
   What `saveToHistory` leaves after a mutation produced `r.data` from `s`:
   while recording is suspended the history and cursor are untouched;
   otherwise the redo branch is gone, `r.data` is the newest of at most 50
   entries and the cursor points at it.
   */
  ghost predicate RecordedAfter(s: Store, r: Store) {
    && r.skip == s.skip
    && (s.skip ==> r.history == s.history && r.cursor == s.cursor)
    && (!s.skip ==> Synced(r) && r.cursor == |r.history| - 1)
    && (!s.skip && Valid(s) ==> r.history == Newest(s.history[..s.cursor + 1] + [r.data], MaxHistory))
    && (Valid(s) ==> Valid(r))
  }

  /** Replace the live chart by `d`, then `saveToHistory`. */
  function Commit(s: Store, d: ChartData): (r: Store)
    ensures r.data == d
    ensures RecordedAfter(s, r)
    ensures Ordered(s) && WellFormed(d) ==> Ordered(r)
  {
    Record(s.(data := d))
  }

  /** Construction: the default chart, then `saveToHistory` on the empty history (cursor -1). */
  function Init(): (s: Store)
    ensures Synced(s) && s.cursor == 0 && s.history == [DefaultChart()]
    ensures s.data == DefaultChart() && !s.skip
    ensures !CanUndo(s) && !CanRedo(s)
    ensures Ordered(s)
  {
    var empty := Store(DefaultChart(), [], -1, false);
    assert WellFormed(DefaultChart());
    Record(empty)
  }

  /** `saveToHistory`, called directly. */
  function SaveToHistory(s: Store): (r: Store)
    ensures r.data == s.data
    ensures RecordedAfter(s, r)
    ensures Ordered(s) ==> Ordered(r)
  {
    Record(s)
  }

  /** `setSongInfo`: merges the patch into the song info and, unlike the other mutators, records nothing. */
  function SetSongInfo(s: Store, patch: SongInfoPatch): (r: Store)
    ensures r.data.songInfo == Merge(s.data.songInfo, patch)
    ensures r.data.timingPoints == s.data.timingPoints && r.data.notes == s.data.notes
    ensures r.history == s.history && r.cursor == s.cursor && r.skip == s.skip
    ensures Ordered(s) ==> Ordered(r)
  {
    s.(data := s.data.(songInfo := Merge(s.data.songInfo, patch)))
  }

  /**
   Because `setSongInfo` records nothing, an undo followed by a redo brings
   back the last recorded snapshot, without the song-info edit.
   */
  lemma SongInfoEditLostByUndoRedo(s: Store, patch: SongInfoPatch)
    requires Synced(s) && CanUndo(s)
    requires Merge(s.data.songInfo, patch) != s.data.songInfo
    ensures Redo(Undo(SetSongInfo(s, patch)).store).succeeded
    ensures Redo(Undo(SetSongInfo(s, patch)).store).store.data == s.data
    ensures Redo(Undo(SetSongInfo(s, patch)).store).store.data != SetSongInfo(s, patch).data
  {
  }

  /** `addTimingPoint`. */
  function AddTimingPoint(s: Store, tp: TimingPoint): (r: Store)
    ensures Sorted(r.data.timingPoints, TpKey)
    ensures Unique(s.data.timingPoints, TpKey) ==> Unique(r.data.timingPoints, TpKey)
    ensures TimingPoints.At(r.data.timingPoints, tp.measure, tp.beat) == Some(tp)
    ensures TimingPoints.HasAt(r.data.timingPoints, tp.measure, tp.beat)
    ensures |r.data.timingPoints| == if TimingPoints.HasAt(s.data.timingPoints, tp.measure, tp.beat)
                                     then |s.data.timingPoints| else |s.data.timingPoints| + 1
    ensures forall q | q in s.data.timingPoints && !TimingPoints.IsAt(q, tp.measure, tp.beat) :: q in r.data.timingPoints
    ensures forall q | q in r.data.timingPoints :: q == tp || q in s.data.timingPoints
    ensures multiset(r.data.timingPoints) == match TimingPoints.At(s.data.timingPoints, tp.measure, tp.beat)
              case None => multiset(s.data.timingPoints) + multiset{tp}
              case Some(replaced) => multiset(s.data.timingPoints) - multiset{replaced} + multiset{tp}
    ensures r.data.songInfo == s.data.songInfo && r.data.notes == s.data.notes
    ensures RecordedAfter(s, r)
    ensures Ordered(s) ==> Ordered(r)
  {
    Commit(s, s.data.(timingPoints := TimingPoints.Add(s.data.timingPoints, tp)))
  }

  /** `addNote`. */
  function AddNote(s: Store, n: Note): (r: Store)
    ensures Sorted(r.data.notes, NoteKey)
    ensures multiset(r.data.notes) == multiset(s.data.notes) + multiset{n}
    ensures Sorted(s.data.notes, NoteKey) ==> Notes.PlacedAfterEqual(s.data.notes, n, r.data.notes)
    ensures r.data.songInfo == s.data.songInfo && r.data.timingPoints == s.data.timingPoints
    ensures RecordedAfter(s, r)
    ensures Ordered(s) ==> Ordered(r)
  {
    Commit(s, s.data.(notes := Notes.Add(s.data.notes, n)))
  }

  /** `removeNote`: an index past the end removes nothing, yet a snapshot is still recorded. */
  function RemoveNote(s: Store, i: nat): (r: Store)
    ensures i < |s.data.notes| ==> multiset(r.data.notes) + multiset{s.data.notes[i]} == multiset(s.data.notes)
    ensures i < |s.data.notes| ==> |r.data.notes| == |s.data.notes| - 1
    ensures i < |s.data.notes| ==> r.data.notes == s.data.notes[..i] + s.data.notes[i + 1..]
    ensures |s.data.notes| <= i ==> r.data == s.data
    ensures r.data.songInfo == s.data.songInfo && r.data.timingPoints == s.data.timingPoints
    ensures RecordedAfter(s, r)
    ensures Ordered(s) ==> Ordered(r)
  {
    RemoveKeepsOrder(s.data.notes, i, NoteKey);
    Commit(s, s.data.(notes := RemoveAt(s.data.notes, i)))
  }

  /** `removeTimingPoint`: an index past the end removes nothing, yet a snapshot is still recorded. */
  function RemoveTimingPoint(s: Store, i: nat): (r: Store)
    ensures i < |s.data.timingPoints| ==>
              multiset(r.data.timingPoints) + multiset{s.data.timingPoints[i]} == multiset(s.data.timingPoints)
    ensures i < |s.data.timingPoints| ==> |r.data.timingPoints| == |s.data.timingPoints| - 1
    ensures i < |s.data.timingPoints| ==> r.data.timingPoints == s.data.timingPoints[..i] + s.data.timingPoints[i + 1..]
    ensures |s.data.timingPoints| <= i ==> r.data == s.data
    ensures r.data.songInfo == s.data.songInfo && r.data.notes == s.data.notes
    ensures RecordedAfter(s, r)
    ensures Ordered(s) ==> Ordered(r)
  {
    RemoveKeepsOrder(s.data.timingPoints, i, TpKey);
    Commit(s, s.data.(timingPoints := RemoveAt(s.data.timingPoints, i)))
  }

  /** `clearNotes`. */
  function ClearNotes(s: Store): (r: Store)
    ensures |r.data.notes| == 0
    ensures r.data.songInfo == s.data.songInfo && r.data.timingPoints == s.data.timingPoints
    ensures RecordedAfter(s, r)
    ensures Ordered(s) ==> Ordered(r)
  {
    Commit(s, s.data.(notes := []))
  }

  /** `loadChartData`: the chart is taken as given (not re-sorted), then recorded. */
  function LoadChartData(s: Store, d: ChartData): (r: Store)
    ensures r.data == d
    ensures RecordedAfter(s, r)
    ensures Ordered(s) && WellFormed(d) ==> Ordered(r)
  {
    Commit(s, d)
  }

  /** Undo and redo restore snapshots, so they keep the ordering invariant too. */
  lemma NavigationKeepsOrder(s: Store)
    requires Valid(s)
    ensures Ordered(s) ==> Ordered(Undo(s).store) && Ordered(Redo(s).store)
  {
    if CanUndo(s) {
      assert s.history[s.cursor - 1] in s.history;
    }
    if CanRedo(s) {
      assert s.history[s.cursor + 1] in s.history;
    }
  }
}
