/** The note collection: `addNote` appends and re-sorts by (measure, beat, lane), never replacing. */
module Notes {
  import opened ChartTypes
  import opened KeyedSeq

  /**
   `r` is `notes` with `n` inserted after every note whose key is not above
   its own (so after the notes at the same measure, beat and lane) and before
   all the others.
   */
  ghost predicate PlacedAfterEqual(notes: seq<Note>, n: Note, r: seq<Note>) {
    exists k | 0 <= k <= |notes| ::
      && r == notes[..k] + [n] + notes[k..]
      && (forall i | 0 <= i < k :: KeyLe(NoteKey(notes[i]), NoteKey(n)))
      && (forall i | k <= i < |notes| :: !KeyLe(NoteKey(notes[i]), NoteKey(n)))
  }

  /** `addNote`: the new note joins the collection, which is then sorted by (measure, beat, lane). */
  function Add(notes: seq<Note>, n: Note): (r: seq<Note>)
    ensures Sorted(r, NoteKey)
    ensures multiset(r) == multiset(notes) + multiset{n}
    ensures Sorted(notes, NoteKey) ==> PlacedAfterEqual(notes, n, r)
  {
    assert Sorted(notes, NoteKey) ==> PlacedAfterEqual(notes, n, Sort(notes + [n], NoteKey)) by {
      if Sorted(notes, NoteKey) {
        SortAppend(notes, n, NoteKey);
        var k := UpperBound(notes, n, NoteKey);
        assert Sort(notes + [n], NoteKey) == notes[..k] + [n] + notes[k..];
      }
    }
    Sort(notes + [n], NoteKey)
  }

  /** Notes are never replaced: one more note sits at the new note's (measure, beat, lane) than before. */
  lemma AddKeepsSameKey(notes: seq<Note>, n: Note)
    ensures |Add(notes, n)| == |notes| + 1
    ensures forall m | m in notes :: m in Add(notes, n)
    ensures multiset(Add(notes, n))[n] == multiset(notes)[n] + 1
  {
    var r := Add(notes, n);
    assert |r| == |multiset(r)|;
    forall m | m in notes ensures m in r {
      assert m in multiset(notes);
      assert m in multiset(r);
    }
  }

  /**
   In a sorted collection, a note added at the measure, beat and lane of an
   existing note lands after it, and everything before that note stays put.
   */
  lemma SameKeyAddedLast(notes: seq<Note>, i: nat, n: Note)
    requires Sorted(notes, NoteKey) && i < |notes| && NoteKey(notes[i]) == NoteKey(n)
    ensures exists k | i < k <= |notes| :: Add(notes, n)[k] == n && Add(notes, n)[..k] == notes[..k]
  {
    var r := Add(notes, n);
    var k :| 0 <= k <= |notes|
             && r == notes[..k] + [n] + notes[k..]
             && (forall j | 0 <= j < k :: KeyLe(NoteKey(notes[j]), NoteKey(n)))
             && (forall j | k <= j < |notes| :: !KeyLe(NoteKey(notes[j]), NoteKey(n)));
    KeyLeTotalOrder(NoteKey(n), NoteKey(n), NoteKey(n));
    assert i < k;
    SpliceFront(notes, k, n, r);
  }

  /** Two notes at the same measure, beat and lane: the one added later comes second. */
  lemma ExampleSameKeyPair(a: Note, n: Note)
    requires NoteKey(a) == NoteKey(n)
    ensures Add([a], n) == [a, n]
  {
    SortAppend([a], n, NoteKey);
    assert [a][1..] == [];
    assert UpperBound([a], n, NoteKey) == 1;
  }
}
