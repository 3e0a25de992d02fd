/**
 Temporal lookups (`getBpmAt`, `getTimeSignatureAt`): the tempo and time
 signature in force at a position are those of the latest timing point at or
 before it, with 120 BPM and 4/4 when no point qualifies.
 */
module Lookup {
  import opened ChartTypes
  import opened KeyedSeq

  const DefaultBpm: real := 120.0
  const DefaultTimeSignature: TimeSignature := TimeSignature(4, 4)

  /** The filter of both lookups: an earlier measure, or the same measure at or before the beat. */
  predicate AtOrBefore(tp: TimingPoint, measure: int, beat: real) {
    tp.measure < measure || (tp.measure == measure && tp.beat <= beat)
  }

  /** The timing points the lookups consider, in collection order. */
  function Relevant(tps: seq<TimingPoint>, measure: int, beat: real): (r: seq<TimingPoint>)
    ensures |r| <= |tps|
    ensures forall tp :: tp in r <==> tp in tps && AtOrBefore(tp, measure, beat)
  {
    if |tps| == 0 then []
    else
      assert tps == [tps[0]] + tps[1..];
      (if AtOrBefore(tps[0], measure, beat) then [tps[0]] else []) + Relevant(tps[1..], measure, beat)
  }

  /** The filter keeps every qualifying point as often as it occurs and drops the others. */
  lemma {:induction false} RelevantCounts(tps: seq<TimingPoint>, measure: int, beat: real)
    ensures forall tp :: multiset(Relevant(tps, measure, beat))[tp]
                         == if AtOrBefore(tp, measure, beat) then multiset(tps)[tp] else 0
  {
    if |tps| > 0 {
      RelevantCounts(tps[1..], measure, beat);
      assert tps == [tps[0]] + tps[1..];
      RelevantCons(tps[0], tps[1..], measure, beat);
    }
  }

  /** The filter keeps collection order: filtering a concatenation concatenates the filtered parts. */
  lemma {:induction false} RelevantAppend(a: seq<TimingPoint>, b: seq<TimingPoint>, measure: int, beat: real)
    ensures Relevant(a + b, measure, beat) == Relevant(a, measure, beat) + Relevant(b, measure, beat)
  {
    if |a| == 0 {
      assert a + b == b;
    } else {
      assert (a + b)[0] == a[0] && (a + b)[1..] == a[1..] + b;
      RelevantAppend(a[1..], b, measure, beat);
    }
  }

  /** `tp` is a qualifying point no other qualifying point comes after. */
  ghost predicate IsLatestAt(tp: TimingPoint, tps: seq<TimingPoint>, measure: int, beat: real) {
    && tp in tps
    && AtOrBefore(tp, measure, beat)
    && forall q | q in tps && AtOrBefore(q, measure, beat) :: KeyLe(TpKey(q), TpKey(tp))
  }

  /** No qualifying point after index `i` sits at the position of `tps[i]`. */
  ghost predicate NoLaterAtPosition(tps: seq<TimingPoint>, i: nat, measure: int, beat: real)
    requires i < |tps|
  {
    forall j | i < j < |tps| && AtOrBefore(tps[j], measure, beat) :: TpKey(tps[j]) != TpKey(tps[i])
  }

  /**
   `tp` is a latest qualifying point and, among the qualifying points at its
   position, the last in collection order.
   */
  ghost predicate IsLastLatestAt(tp: TimingPoint, tps: seq<TimingPoint>, measure: int, beat: real) {
    && IsLatestAt(tp, tps, measure, beat)
    && exists i | 0 <= i < |tps| :: tps[i] == tp && NoLaterAtPosition(tps, i, measure, beat)
  }

  lemma RelevantCons(tp: TimingPoint, rest: seq<TimingPoint>, measure: int, beat: real)
    ensures Relevant([tp] + rest, measure, beat)
            == (if AtOrBefore(tp, measure, beat) then [tp] else []) + Relevant(rest, measure, beat)
  {
    assert ([tp] + rest)[0] == tp && ([tp] + rest)[1..] == rest;
  }

  /** The last qualifying point of its position, in the filtered sequence, is also the last one in the collection. */
  lemma {:induction false} RelevantLastOfKey(tps: seq<TimingPoint>, measure: int, beat: real, x: TimingPoint)
    requires LastOfKey(Relevant(tps, measure, beat), x, TpKey)
    ensures exists i | 0 <= i < |tps| :: tps[i] == x && NoLaterAtPosition(tps, i, measure, beat)
  {
    var c := Relevant(tps, measure, beat);
    assert |tps| > 0;
    var rest := Relevant(tps[1..], measure, beat);
    assert tps == [tps[0]] + tps[1..];
    RelevantCons(tps[0], tps[1..], measure, beat);
    if !AtOrBefore(tps[0], measure, beat) {
      assert c == rest;
      RelevantLastOfKey(tps[1..], measure, beat, x);
      ShiftWitness(tps, measure, beat, x);
    } else {
      assert c[1..] == rest;
      LastOfKeyHead(c, x, TpKey);
      if LastOfKey(rest, x, TpKey) {
        RelevantLastOfKey(tps[1..], measure, beat, x);
        ShiftWitness(tps, measure, beat, x);
      } else {
        HeadNoLater(tps, measure, beat, x);
      }
    }
  }

  /** A witness for the tail shifts by one to a witness for the whole collection. */
  lemma ShiftWitness(tps: seq<TimingPoint>, measure: int, beat: real, x: TimingPoint)
    requires |tps| > 0
    requires exists i | 0 <= i < |tps[1..]| :: tps[1..][i] == x && NoLaterAtPosition(tps[1..], i, measure, beat)
    ensures exists i | 0 <= i < |tps| :: tps[i] == x && NoLaterAtPosition(tps, i, measure, beat)
  {
    var i :| 0 <= i < |tps[1..]| && tps[1..][i] == x && NoLaterAtPosition(tps[1..], i, measure, beat);
    forall j | i + 1 < j < |tps| && AtOrBefore(tps[j], measure, beat) ensures TpKey(tps[j]) != TpKey(tps[i + 1]) {
      assert tps[j] == tps[1..][j - 1];
    }
    assert tps[i + 1] == x && NoLaterAtPosition(tps, i + 1, measure, beat);
  }

  lemma HeadNoLater(tps: seq<TimingPoint>, measure: int, beat: real, x: TimingPoint)
    requires |tps| > 0 && tps[0] == x
    requires forall tp | tp in Relevant(tps[1..], measure, beat) :: TpKey(tp) != TpKey(x)
    ensures exists i | 0 <= i < |tps| :: tps[i] == x && NoLaterAtPosition(tps, i, measure, beat)
  {
    forall j | 0 < j < |tps| && AtOrBefore(tps[j], measure, beat) ensures TpKey(tps[j]) != TpKey(x) {
      assert tps[j] == tps[1..][j - 1];
      assert tps[j] in Relevant(tps[1..], measure, beat);
    }
    assert NoLaterAtPosition(tps, 0, measure, beat);
  }

  /** The last of the sorted qualifying points is the last latest one. */
  lemma SortedRelevantLast(tps: seq<TimingPoint>, measure: int, beat: real, c: seq<TimingPoint>, last: TimingPoint)
    requires c == Relevant(tps, measure, beat) && |c| > 0
    requires last == Sort(c, TpKey)[|c| - 1]
    ensures IsLastLatestAt(last, tps, measure, beat)
  {
    var sorted := Sort(c, TpKey);
    SortSameElements(c, TpKey);
    SortedLastIsGreatest(sorted, TpKey);
    assert last in sorted;
    SortLastIsLastOfKey(c, TpKey);
    RelevantLastOfKey(tps, measure, beat, last);
  }

  /** The last element of the qualifying points once sorted by (measure, beat). */
  function Latest(tps: seq<TimingPoint>, measure: int, beat: real): (r: Option<TimingPoint>)
    ensures r.None? <==> forall tp | tp in tps :: !AtOrBefore(tp, measure, beat)
    ensures r.Some? ==> IsLastLatestAt(r.value, tps, measure, beat)
  {
    var candidates := Relevant(tps, measure, beat);
    if |candidates| > 0 then
      var last := Sort(candidates, TpKey)[|candidates| - 1];
      SortedRelevantLast(tps, measure, beat, candidates, last);
      Some(last)
    else
      assert forall tp | tp in tps :: !AtOrBefore(tp, measure, beat) by {
        forall tp | tp in tps ensures !AtOrBefore(tp, measure, beat) {
          assert tp !in candidates;
        }
      }
      None
  }

  /** `getBpmAt`. */
  function BpmAt(tps: seq<TimingPoint>, measure: int, beat: real): (r: real)
    ensures (forall tp | tp in tps :: !AtOrBefore(tp, measure, beat)) ==> r == DefaultBpm
    ensures (exists tp | tp in tps :: AtOrBefore(tp, measure, beat)) ==>
              exists tp :: IsLastLatestAt(tp, tps, measure, beat) && r == tp.bpm
  {
    match Latest(tps, measure, beat)
    case None => DefaultBpm
    case Some(tp) => tp.bpm
  }

  /** `getTimeSignatureAt`. */
  function TimeSignatureAt(tps: seq<TimingPoint>, measure: int, beat: real): (r: TimeSignature)
    ensures (forall tp | tp in tps :: !AtOrBefore(tp, measure, beat)) ==> r == DefaultTimeSignature
    ensures (exists tp | tp in tps :: AtOrBefore(tp, measure, beat)) ==>
              exists tp :: IsLastLatestAt(tp, tps, measure, beat) && r == tp.timeSignature
  {
    match Latest(tps, measure, beat)
    case None => DefaultTimeSignature
    case Some(tp) => tp.timeSignature
  }

  /** Whatever the collection, even with several points at one position, at most one point is the last latest one: the lookups' answer is determined. */
  lemma LastLatestIsUnique(tps: seq<TimingPoint>, measure: int, beat: real, p: TimingPoint, q: TimingPoint)
    requires IsLastLatestAt(p, tps, measure, beat) && IsLastLatestAt(q, tps, measure, beat)
    ensures p == q
  {
    KeyLeTotalOrder(TpKey(p), TpKey(q), TpKey(q));
    var i :| 0 <= i < |tps| && tps[i] == p && NoLaterAtPosition(tps, i, measure, beat);
    var k :| 0 <= k < |tps| && tps[k] == q && NoLaterAtPosition(tps, k, measure, beat);
  }

  /** With one point per position, there is at most one latest qualifying point. */
  lemma LatestIsUnique(tps: seq<TimingPoint>, measure: int, beat: real, p: TimingPoint, q: TimingPoint)
    requires Unique(tps, TpKey)
    requires IsLatestAt(p, tps, measure, beat) && IsLatestAt(q, tps, measure, beat)
    ensures p == q
  {
    KeyLeTotalOrder(TpKey(p), TpKey(q), TpKey(q));
    var i :| 0 <= i < |tps| && tps[i] == p;
    var j :| 0 <= j < |tps| && tps[j] == q;
  }

  /** With one point per position, both lookups answer with the latest qualifying point. */
  lemma LookupsReadLatest(tps: seq<TimingPoint>, measure: int, beat: real, p: TimingPoint)
    requires Unique(tps, TpKey)
    requires IsLatestAt(p, tps, measure, beat)
    ensures BpmAt(tps, measure, beat) == p.bpm
    ensures TimeSignatureAt(tps, measure, beat) == p.timeSignature
  {
    var q := Latest(tps, measure, beat).value;
    LatestIsUnique(tps, measure, beat, p, q);
  }

  /** Points at (1, 0) with 100 BPM in 6/8 and at (3, 0) with 140 BPM in 3/4; neither carries the defaults. */
  function ExamplePoints(): seq<TimingPoint> {
    [TimingPoint(1, 0.0, 100.0, TimeSignature(6, 8)), TimingPoint(3, 0.0, 140.0, TimeSignature(3, 4))]
  }

  lemma ExampleBeforeFirstPoint()
    ensures BpmAt(ExamplePoints(), 0, 2.0) == 120.0
    ensures TimeSignatureAt(ExamplePoints(), 1, -1.0) == TimeSignature(4, 4)
  {
  }

  lemma ExampleBetweenPoints()
    ensures BpmAt(ExamplePoints(), 2, 0.0) == 100.0
    ensures TimeSignatureAt(ExamplePoints(), 2, 3.5) == TimeSignature(6, 8)
  {
    var tps := ExamplePoints();
    assert Unique(tps, TpKey);
    LookupsReadLatest(tps, 2, 0.0, tps[0]);
    LookupsReadLatest(tps, 2, 3.5, tps[0]);
  }

  lemma ExampleOnSecondPoint()
    ensures BpmAt(ExamplePoints(), 3, 0.0) == 140.0
    ensures BpmAt(ExamplePoints(), 3, 2.0) == 140.0
    ensures TimeSignatureAt(ExamplePoints(), 3, 0.0) == TimeSignature(3, 4)
  {
    var tps := ExamplePoints();
    assert Unique(tps, TpKey);
    LookupsReadLatest(tps, 3, 0.0, tps[1]);
    LookupsReadLatest(tps, 3, 2.0, tps[1]);
  }
}
