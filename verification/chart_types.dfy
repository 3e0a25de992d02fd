/**
 The value types of the chart editor's state store: song metadata, timing
 points, notes and the aggregate chart snapshot, together with the sort key
 by which the store keeps its collections ordered.

 Quantities the editor holds as JavaScript numbers and only compares
 (beats, tempos, volume, offsets, durations) are `real`; indices and counts
 (measures, lanes, level) are `int`.
 */
module ChartTypes {

  datatype Option<+T> = None | Some(value: T)

  /** Song metadata (`SongInfo`). */
  datatype SongInfo = SongInfo(
    title: string,
    artist: string,
    audioFile: string,
    audioOffset: real,
    totalMeasures: int,
    volume: real,
    difficulty: string,
    level: int)

  /** A `Partial<SongInfo>`: a field that is `None` is absent from the patch. */
  datatype SongInfoPatch = SongInfoPatch(
    title: Option<string>,
    artist: Option<string>,
    audioFile: Option<string>,
    audioOffset: Option<real>,
    totalMeasures: Option<int>,
    volume: Option<real>,
    difficulty: Option<string>,
    level: Option<int>)

  /** The patch with no field present. */
  function NoChange(): SongInfoPatch {
    SongInfoPatch(None, None, None, None, None, None, None, None)
  }

  /** The patch that carries every field of `info`. */
  function AllOf(info: SongInfo): SongInfoPatch {
    SongInfoPatch(Some(info.title), Some(info.artist), Some(info.audioFile), Some(info.audioOffset),
                  Some(info.totalMeasures), Some(info.volume), Some(info.difficulty), Some(info.level))
  }

  function Pick<T>(field: Option<T>, current: T): T {
    match field
    case Some(v) => v
    case None => current
  }

  /** `{ ...info, ...patch }`: the fields present in the patch win. */
  function Merge(info: SongInfo, patch: SongInfoPatch): (r: SongInfo)
    ensures r.title == if patch.title.Some? then patch.title.value else info.title
    ensures r.artist == if patch.artist.Some? then patch.artist.value else info.artist
    ensures r.audioFile == if patch.audioFile.Some? then patch.audioFile.value else info.audioFile
    ensures r.audioOffset == if patch.audioOffset.Some? then patch.audioOffset.value else info.audioOffset
    ensures r.totalMeasures == if patch.totalMeasures.Some? then patch.totalMeasures.value else info.totalMeasures
    ensures r.volume == if patch.volume.Some? then patch.volume.value else info.volume
    ensures r.difficulty == if patch.difficulty.Some? then patch.difficulty.value else info.difficulty
    ensures r.level == if patch.level.Some? then patch.level.value else info.level
    ensures patch == NoChange() ==> r == info
    ensures forall other :: patch == AllOf(other) ==> r == other
  {
    SongInfo(
      Pick(patch.title, info.title),
      Pick(patch.artist, info.artist),
      Pick(patch.audioFile, info.audioFile),
      Pick(patch.audioOffset, info.audioOffset),
      Pick(patch.totalMeasures, info.totalMeasures),
      Pick(patch.volume, info.volume),
      Pick(patch.difficulty, info.difficulty),
      Pick(patch.level, info.level))
  }

  /** Merging `first` and then `second` is merging one patch in which `second`'s fields win. */
  function Then(first: SongInfoPatch, second: SongInfoPatch): SongInfoPatch {
    SongInfoPatch(
      if second.title.Some? then second.title else first.title,
      if second.artist.Some? then second.artist else first.artist,
      if second.audioFile.Some? then second.audioFile else first.audioFile,
      if second.audioOffset.Some? then second.audioOffset else first.audioOffset,
      if second.totalMeasures.Some? then second.totalMeasures else first.totalMeasures,
      if second.volume.Some? then second.volume else first.volume,
      if second.difficulty.Some? then second.difficulty else first.difficulty,
      if second.level.Some? then second.level else first.level)
  }

  /** Applying the same patch a second time changes nothing. */
  lemma MergeIdempotent(info: SongInfo, patch: SongInfoPatch)
    ensures Merge(Merge(info, patch), patch) == Merge(info, patch)
  {
  }

  lemma MergeComposes(info: SongInfo, first: SongInfoPatch, second: SongInfoPatch)
    ensures Merge(Merge(info, first), second) == Merge(info, Then(first, second))
  {
  }

  datatype TimeSignature = TimeSignature(numerator: int, denominator: int)

  /** A tempo / time-signature change at position (measure, beat). */
  datatype TimingPoint = TimingPoint(measure: int, beat: real, bpm: real, timeSignature: TimeSignature)

  datatype NoteKind = Tap | Hold

  /** A note (the `Note` interface); `duration` is its optional field, present for holds. */
  datatype Note = Note(measure: int, beat: real, lane: int, kind: NoteKind, duration: Option<real>)

  /** The `chartData` aggregate; history entries are snapshots of exactly this shape. */
  datatype ChartData = ChartData(songInfo: SongInfo, timingPoints: seq<TimingPoint>, notes: seq<Note>)

  /**
   The sort key of both collections, compared lexicographically. Notes are
   compared on (measure, beat, lane); the timing-point comparator stops at
   beat, so timing points carry lane 0.
   */
  datatype SortKey = SortKey(measure: int, beat: real, lane: int)

  predicate KeyLe(a: SortKey, b: SortKey) {
    || a.measure < b.measure
    || (a.measure == b.measure && a.beat < b.beat)
    || (a.measure == b.measure && a.beat == b.beat && a.lane <= b.lane)
  }

  function PositionKey(measure: int, beat: real): SortKey {
    SortKey(measure, beat, 0)
  }

  function TpKey(tp: TimingPoint): SortKey {
    PositionKey(tp.measure, tp.beat)
  }

  function NoteKey(n: Note): SortKey {
    SortKey(n.measure, n.beat, n.lane)
  }

  /** The timing-point comparator: measure first, then beat; equal keys are the same position. */
  lemma TpKeyOrder(a: TimingPoint, b: TimingPoint)
    ensures KeyLe(TpKey(a), TpKey(b)) <==> a.measure < b.measure || (a.measure == b.measure && a.beat <= b.beat)
    ensures TpKey(a) == TpKey(b) <==> a.measure == b.measure && a.beat == b.beat
  {
  }

  /** `KeyLe` is a total order on keys. */
  lemma KeyLeTotalOrder(a: SortKey, b: SortKey, c: SortKey)
    ensures KeyLe(a, a)
    ensures KeyLe(a, b) || KeyLe(b, a)
    ensures KeyLe(a, b) && KeyLe(b, a) ==> a == b
    ensures KeyLe(a, b) && KeyLe(b, c) ==> KeyLe(a, c)
  {
  }
}
