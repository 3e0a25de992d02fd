/**
 The bounded undo/redo history: a sequence of at most 50 snapshots with a
 cursor, a recording step that drops the redo branch, and cursor moves that
 restore the live chart from the snapshot they land on.
 */
module History {
  import opened ChartTypes

  const MaxHistory: nat := 50

  /**
   The store: the live chart (`chartData`), the snapshots, the cursor
   (`historyIndex`, -1 before the first snapshot) and the flag that suspends
   recording during a batch.
   */
  datatype Store = Store(data: ChartData, history: seq<ChartData>, cursor: int, skip: bool)

  /** The history invariant every operation keeps once the store is built. */
  ghost predicate Valid(s: Store) {
    0 <= s.cursor < |s.history| <= MaxHistory
  }

  /** The live chart is the snapshot under the cursor. */
  ghost predicate Synced(s: Store) {
    Valid(s) && s.data == s.history[s.cursor]
  }

  /** ECMAScript's relative index: a negative index counts from the end; both are clamped to [0, len]. */
  function RelativeIndex(i: int, len: nat): (r: nat)
    ensures r <= len
    ensures 0 <= i <= len ==> r == i
    ensures -(len as int) <= i < 0 ==> r == len + i
    ensures i > len ==> r == len
    ensures i < -(len as int) ==> r == 0
  {
    if i < 0 then (if len + i < 0 then 0 else len + i)
    else if i < len then i else len
  }

  /** `Array.prototype.slice(start, end)`. */
  function JsSlice<T>(xs: seq<T>, start: int, end: int): (r: seq<T>)
    ensures 0 <= start <= end <= |xs| ==> r == xs[start..end]
    ensures forall e | e in r :: e in xs
  {
    var from := RelativeIndex(start, |xs|);
    var to := RelativeIndex(end, |xs|);
    if from < to then xs[from..to] else []
  }

  /** The last `n` entries of `xs` (all of them when there are fewer). */
  function Newest<T>(xs: seq<T>, n: nat): seq<T> {
    if |xs| <= n then xs else xs[|xs| - n..]
  }

  /**
   `saveToHistory`: unless recording is suspended, drop the entries after the
   cursor, append a snapshot of the live chart, point the cursor at it and
   keep only the newest 50 entries.
   */
  function Record(s: Store): (r: Store)
    ensures s.skip ==> r == s
    ensures !s.skip ==> Synced(r) && r.cursor == |r.history| - 1 && r.data == s.data && !r.skip
    ensures !s.skip && -1 <= s.cursor < |s.history| ==>
              r.history == Newest(s.history[..s.cursor + 1] + [s.data], MaxHistory)
    ensures forall e | e in r.history :: e in s.history || e == s.data
  {
    if s.skip then s
    else
      var kept := if s.cursor < |s.history| - 1 then JsSlice(s.history, 0, s.cursor + 1) else s.history;
      var pushed := kept + [s.data];
      assert -1 <= s.cursor < |s.history| ==> kept == s.history[..s.cursor + 1];
      assert forall e | e in pushed :: e in s.history || e == s.data;
      if |pushed| > MaxHistory then
        var trimmed := JsSlice(pushed, -(MaxHistory as int), |pushed|);
        assert trimmed == pushed[|pushed| - MaxHistory..];
        s.(history := trimmed, cursor := |trimmed| - 1)
      else
        s.(history := pushed, cursor := |pushed| - 1)
  }

  /** A cursor move and whether it happened. */
  datatype Outcome = Outcome(succeeded: bool, store: Store)

  /** `canUndo`. */
  function CanUndo(s: Store): (b: bool)
    ensures Valid(s) ==> (b <==> Undo(s).succeeded)
    ensures Valid(s) && b ==> |s.history| >= 2
  {
    s.cursor > 0
  }

  /** `canRedo`. */
  function CanRedo(s: Store): (b: bool)
    ensures Valid(s) ==> (b <==> Redo(s).succeeded)
    ensures Valid(s) && b ==> |s.history| >= 2
  {
    s.cursor < |s.history| - 1
  }

  /** `undo`: step the cursor back and restore the snapshot there; at the oldest entry, nothing changes. */
  function Undo(s: Store): (r: Outcome)
    requires Valid(s)
    ensures r.succeeded <==> s.cursor > 0
    ensures r.succeeded ==> Synced(r.store) && r.store.cursor == s.cursor - 1
    ensures r.succeeded ==> r.store.history == s.history && r.store.skip == s.skip
    ensures !r.succeeded ==> r.store == s
  {
    if s.cursor > 0 then
      var c := s.cursor - 1;
      Outcome(true, s.(cursor := c, data := s.history[c]))
    else
      Outcome(false, s)
  }

  /** `redo`: step the cursor forward and restore the snapshot there; at the newest entry, nothing changes. */
  function Redo(s: Store): (r: Outcome)
    requires Valid(s)
    ensures r.succeeded <==> s.cursor < |s.history| - 1
    ensures r.succeeded ==> Synced(r.store) && r.store.cursor == s.cursor + 1
    ensures r.succeeded ==> r.store.history == s.history && r.store.skip == s.skip
    ensures !r.succeeded ==> r.store == s
  {
    if s.cursor < |s.history| - 1 then
      var c := s.cursor + 1;
      Outcome(true, s.(cursor := c, data := s.history[c]))
    else
      Outcome(false, s)
  }

  /** A successful undo is reverted by a redo; on a synced store the round trip changes nothing. */
  lemma UndoThenRedo(s: Store)
    requires Valid(s) && CanUndo(s)
    ensures Redo(Undo(s).store).succeeded
    ensures Redo(Undo(s).store).store == s.(data := s.history[s.cursor])
    ensures Synced(s) ==> Redo(Undo(s).store).store == s
  {
  }

  /** A successful redo is reverted by an undo; on a synced store the round trip changes nothing. */
  lemma RedoThenUndo(s: Store)
    requires Valid(s) && CanRedo(s)
    ensures Undo(Redo(s).store).succeeded
    ensures Undo(Redo(s).store).store == s.(data := s.history[s.cursor])
    ensures Synced(s) ==> Undo(Redo(s).store).store == s
  {
  }

  /** One undo after recording goes back to the snapshot that was under the cursor, even when the oldest entry was evicted. */
  lemma UndoAfterRecord(s: Store)
    requires Valid(s) && !s.skip
    ensures Undo(Record(s)).succeeded
    ensures Undo(Record(s)).store.data == s.history[s.cursor]
    ensures Synced(s) ==> Undo(Record(s)).store.data == s.data
  {
    var pushed := s.history[..s.cursor + 1] + [s.data];
    var r := Record(s);
    assert pushed[|pushed| - 2] == s.history[s.cursor];
    assert r.history[r.cursor - 1] == pushed[|pushed| - 2];
  }

  /** Recording discards the redo branch. */
  lemma RecordClearsRedo(s: Store)
    requires !s.skip
    ensures !CanRedo(Record(s))
  {
  }

  /** `n` successive undo calls. */
  function UndoTimes(s: Store, n: nat): (r: Store)
    requires Valid(s)
    ensures Valid(r) && r.history == s.history && r.skip == s.skip
    ensures r.cursor == if n <= s.cursor then s.cursor - n else 0
    ensures n > 0 && s.cursor > 0 ==> Synced(r)
    ensures n == 0 || s.cursor == 0 ==> r == s
    decreases n
  {
    if n == 0 then s else UndoTimes(Undo(s).store, n - 1)
  }

  /** `n` successive redo calls. */
  function RedoTimes(s: Store, n: nat): (r: Store)
    requires Valid(s)
    ensures Valid(r) && r.history == s.history && r.skip == s.skip
    ensures r.cursor == if s.cursor + n < |s.history| then s.cursor + n else |s.history| - 1
    ensures n > 0 && s.cursor < |s.history| - 1 ==> Synced(r)
    ensures n == 0 || s.cursor == |s.history| - 1 ==> r == s
    decreases n
  {
    if n == 0 then s else RedoTimes(Redo(s).store, n - 1)
  }

  /** Undoing `n` steps and redoing them returns a synced store to exactly where it was. */
  lemma {:induction false} UndoRedoRoundTrip(s: Store, n: nat)
    requires Synced(s) && n <= s.cursor
    ensures RedoTimes(UndoTimes(s, n), n) == s
  {
    var u := UndoTimes(s, n);
    var r := RedoTimes(u, n);
    if n > 0 {
      assert r.cursor == s.cursor;
      assert Synced(r);
    }
  }

  /** Whatever the history, at most 49 undo calls in a row succeed; from the newest entry of a full history, exactly 49 do. */
  lemma UndoDepthBound(s: Store)
    requires Valid(s)
    ensures !CanUndo(UndoTimes(s, MaxHistory - 1))
    ensures s.cursor == MaxHistory - 1 ==> CanUndo(UndoTimes(s, MaxHistory - 2))
  {
  }
}
