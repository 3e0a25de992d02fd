/**
 Sequences of store calls: the commands a batch operation (or a user) may
 issue, `performBatchOperation`, and the properties of whole runs - a batch
 is one history entry, and N recorded edits are undone by N undo calls.
 */
module Batch {
  import opened ChartTypes
  import History
  import ChartStore

  /** One call on the store. */
  datatype Command =
    | SetSongInfo(patch: SongInfoPatch)
    | AddTimingPoint(tp: TimingPoint)
    | AddNote(note: Note)
    | RemoveNote(index: nat)
    | RemoveTimingPoint(index: nat)
    | ClearNotes
    | LoadChartData(chart: ChartData)
    | SaveToHistory
    | Undo
    | Redo

  /** The command ends with `saveToHistory`. */
  predicate Records(c: Command) {
    !(c.SetSongInfo? || c.Undo? || c.Redo?)
  }

  /** The command moves the history cursor. */
  predicate Navigates(c: Command) {
    c.Undo? || c.Redo?
  }

  /** Loads only well-formed charts. */
  ghost predicate LoadsWellFormed(c: Command) {
    c.LoadChartData? ==> ChartStore.WellFormed(c.chart)
  }

  /** A command that ends with `saveToHistory`. */
  function Edit(s: History.Store, c: Command): (r: History.Store)
    requires Records(c)
    ensures ChartStore.RecordedAfter(s, r)
    ensures ChartStore.Ordered(s) && LoadsWellFormed(c) ==> ChartStore.Ordered(r)
  {
    match c
    case AddTimingPoint(tp) => ChartStore.AddTimingPoint(s, tp)
    case AddNote(note) => ChartStore.AddNote(s, note)
    case RemoveNote(i) => ChartStore.RemoveNote(s, i)
    case RemoveTimingPoint(i) => ChartStore.RemoveTimingPoint(s, i)
    case ClearNotes => ChartStore.ClearNotes(s)
    case LoadChartData(d) => ChartStore.LoadChartData(s, d)
    case SaveToHistory => ChartStore.SaveToHistory(s)
  }

  function Apply(s: History.Store, c: Command): (r: History.Store)
    requires History.Valid(s)
    ensures History.Valid(r)
    ensures Records(c) ==> ChartStore.RecordedAfter(s, r)
    ensures !Records(c) ==> r.history == s.history && r.skip == s.skip
    ensures c.SetSongInfo? ==> r.cursor == s.cursor
    ensures ChartStore.Ordered(s) && LoadsWellFormed(c) ==> ChartStore.Ordered(r)
  {
    match c
    case SetSongInfo(patch) => ChartStore.SetSongInfo(s, patch)
    case Undo =>
      ChartStore.NavigationKeepsOrder(s);
      History.Undo(s).store
    case Redo =>
      ChartStore.NavigationKeepsOrder(s);
      History.Redo(s).store
    case _ => Edit(s, c)
  }

  /** The commands one after the other. */
  function Run(s: History.Store, cmds: seq<Command>): (r: History.Store)
    requires History.Valid(s)
    ensures History.Valid(r) && r.skip == s.skip
    ensures s.skip ==> r.history == s.history
    ensures s.skip && (forall c | c in cmds :: !Navigates(c)) ==> r.cursor == s.cursor
    ensures ChartStore.Ordered(s) && (forall c | c in cmds :: LoadsWellFormed(c)) ==> ChartStore.Ordered(r)
    decreases |cmds|
  {
    if |cmds| == 0 then s
    else
      assert cmds[0] in cmds;
      assert forall c | c in cmds[1..] :: c in cmds;
      Run(Apply(s, cmds[0]), cmds[1..])
  }

  /**
   `performBatchOperation`: recording is suspended while the commands run,
   then resumed, and one snapshot of the result is recorded.
   */
  function PerformBatch(s: History.Store, ops: seq<Command>): (r: History.Store)
    requires History.Valid(s)
    ensures History.Synced(r) && !r.skip && r.cursor == |r.history| - 1
    ensures r.data == Run(s.(skip := true), ops).data
    ensures (forall c | c in ops :: !Navigates(c)) ==>
              r.history == History.Newest(s.history[..s.cursor + 1] + [r.data], History.MaxHistory)
    ensures ChartStore.Ordered(s) && (forall c | c in ops :: LoadsWellFormed(c)) ==> ChartStore.Ordered(r)
  {
    var inside := Run(s.(skip := true), ops);
    History.Record(inside.(skip := false))
  }

  /** A single undo after a batch returns to the snapshot that was current before it. */
  lemma UndoRevertsBatch(s: History.Store, ops: seq<Command>)
    requires History.Valid(s)
    requires forall c | c in ops :: !Navigates(c)
    ensures History.Undo(PerformBatch(s, ops)).succeeded
    ensures History.Undo(PerformBatch(s, ops)).store.data == s.history[s.cursor]
    ensures History.Synced(s) ==> History.Undo(PerformBatch(s, ops)).store.data == s.data
  {
    var inside := Run(s.(skip := true), ops);
    History.UndoAfterRecord(inside.(skip := false));
  }

  lemma SharedPrefix<T>(a: seq<T>, b: seq<T>, m: nat, n: nat)
    requires m <= n <= |a| && n <= |b| && a[..n] == b[..n]
    ensures a[..m] == b[..m]
  {
    assert a[..m] == a[..n][..m];
    assert b[..m] == b[..n][..m];
  }

  /** With recording on and room left, a recording command appends one entry right after the cursor. */
  lemma RecordStepWithRoom(s: History.Store, c: Command)
    requires History.Valid(s) && !s.skip && Records(c)
    requires s.cursor + 1 < History.MaxHistory
    ensures Apply(s, c).history == s.history[..s.cursor + 1] + [Apply(s, c).data]
    ensures Apply(s, c).cursor == s.cursor + 1 && History.Synced(Apply(s, c)) && !Apply(s, c).skip
  {
    var r := Edit(s, c);
    assert Apply(s, c) == r;
    var pushed := s.history[..s.cursor + 1] + [r.data];
    assert |pushed| <= History.MaxHistory;
    assert r.history == History.Newest(pushed, History.MaxHistory) == pushed;
  }

  /**
   While recording is on and the history has room, each recording command
   adds exactly one entry after the cursor and leaves the entries up to the
   starting cursor alone.
   */
  lemma {:induction false} RecordedRunExtendsHistory(s: History.Store, cmds: seq<Command>)
    requires History.Valid(s) && !s.skip
    requires forall c | c in cmds :: Records(c)
    requires s.cursor + |cmds| < History.MaxHistory
    ensures Run(s, cmds).cursor == s.cursor + |cmds|
    ensures Run(s, cmds).history[..s.cursor + 1] == s.history[..s.cursor + 1]
    ensures |cmds| > 0 ==> History.Synced(Run(s, cmds))
    decreases |cmds|
  {
    if |cmds| > 0 {
      var next := RecordFirst(s, cmds);
      RecordedRunExtendsHistory(next, cmds[1..]);
      PrefixThrough(Run(next, cmds[1..]).history, next.history, s.history, s.cursor + 1, next.cursor + 1);
    }
  }

  lemma PrefixThrough<T>(a: seq<T>, b: seq<T>, c: seq<T>, m: nat, n: nat)
    requires m <= n <= |a| && n <= |b| && m <= |c|
    requires a[..n] == b[..n] && b[..m] == c[..m]
    ensures a[..m] == c[..m]
  {
    SharedPrefix(a, b, m, n);
  }

  /** The first command of a recorded run with room left: it appends one entry and the rest of the run starts from there. */
  lemma RecordFirst(s: History.Store, cmds: seq<Command>) returns (next: History.Store)
    requires History.Valid(s) && !s.skip && |cmds| > 0
    requires forall c | c in cmds :: Records(c)
    requires s.cursor + |cmds| < History.MaxHistory
    ensures History.Synced(next) && !next.skip && next.cursor == s.cursor + 1
    ensures next.history[..s.cursor + 1] == s.history[..s.cursor + 1]
    ensures Run(s, cmds) == Run(next, cmds[1..])
    ensures forall c | c in cmds[1..] :: Records(c)
  {
    assert cmds[0] in cmds;
    assert forall c | c in cmds[1..] :: c in cmds;
    RecordStepWithRoom(s, cmds[0]);
    next := Apply(s, cmds[0]);
    var prefix := s.history[..s.cursor + 1];
    assert next.history == prefix + [next.data];
    assert next.history[..s.cursor + 1] == prefix;
  }

  /**
   N recorded edits followed by N undo calls restore the chart the store
   started from, and N redo calls then restore the edited chart exactly.
   */
  lemma UndoRedoRestoresRun(s: History.Store, cmds: seq<Command>)
    requires History.Synced(s) && !s.skip
    requires forall c | c in cmds :: Records(c)
    requires s.cursor + |cmds| < History.MaxHistory
    ensures History.UndoTimes(Run(s, cmds), |cmds|).data == s.data
    ensures History.UndoTimes(Run(s, cmds), |cmds|).cursor == s.cursor
    ensures History.RedoTimes(History.UndoTimes(Run(s, cmds), |cmds|), |cmds|) == Run(s, cmds)
  {
    RecordedRunExtendsHistory(s, cmds);
    var r := Run(s, cmds);
    if |cmds| > 0 {
      assert r.history[s.cursor] == r.history[..s.cursor + 1][s.cursor];
      History.UndoRedoRoundTrip(r, |cmds|);
    }
  }

  /** From a fresh store, up to 49 recorded edits can all be undone back to the default chart. */
  lemma UndoAllFromInit(cmds: seq<Command>)
    requires forall c | c in cmds :: Records(c)
    requires |cmds| < History.MaxHistory
    ensures History.UndoTimes(Run(ChartStore.Init(), cmds), |cmds|).data == ChartStore.DefaultChart()
    ensures !History.CanUndo(History.UndoTimes(Run(ChartStore.Init(), cmds), |cmds|))
  {
    UndoRedoRestoresRun(ChartStore.Init(), cmds);
  }

  /** From the newest entry, a recording command grows the history by one, up to 50 entries. */
  lemma RecordStepAtNewest(s: History.Store, c: Command)
    requires History.Valid(s) && !s.skip && s.cursor == |s.history| - 1 && Records(c)
    ensures |Apply(s, c).history| == if |s.history| < History.MaxHistory then |s.history| + 1 else History.MaxHistory
    ensures Apply(s, c).cursor == |Apply(s, c).history| - 1 && History.Valid(Apply(s, c)) && !Apply(s, c).skip
  {
    var r := Edit(s, c);
    assert Apply(s, c) == r;
    assert s.history[..s.cursor + 1] == s.history;
    assert r.history == History.Newest(s.history + [r.data], History.MaxHistory);
  }

  /** With recording on and the cursor at the newest entry, every recording command grows the history by one until it holds 50. */
  lemma {:induction false} HistoryFills(s: History.Store, cmds: seq<Command>)
    requires History.Valid(s) && !s.skip && s.cursor == |s.history| - 1
    requires forall c | c in cmds :: Records(c)
    ensures |Run(s, cmds).history| == if |s.history| + |cmds| <= History.MaxHistory then |s.history| + |cmds| else History.MaxHistory
    ensures Run(s, cmds).cursor == |Run(s, cmds).history| - 1
    decreases |cmds|
  {
    if |cmds| > 0 {
      assert cmds[0] in cmds;
      RecordStepAtNewest(s, cmds[0]);
      var next := Apply(s, cmds[0]);
      assert forall c | c in cmds[1..] :: c in cmds;
      HistoryFills(next, cmds[1..]);
      assert Run(s, cmds) == Run(next, cmds[1..]);
    }
  }

  /** After 49 or more recorded edits from a fresh store, exactly 49 undo calls succeed. */
  lemma FortyNineUndos(cmds: seq<Command>)
    requires forall c | c in cmds :: Records(c)
    requires |cmds| >= History.MaxHistory - 1
    ensures History.CanUndo(History.UndoTimes(Run(ChartStore.Init(), cmds), History.MaxHistory - 2))
    ensures !History.CanUndo(History.UndoTimes(Run(ChartStore.Init(), cmds), History.MaxHistory - 1))
  {
    HistoryFills(ChartStore.Init(), cmds);
    History.UndoDepthBound(Run(ChartStore.Init(), cmds));
  }
}
