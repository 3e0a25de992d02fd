/**
 The timing-point collection: exact-position lookups and `addTimingPoint`,
 which replaces the point already at a position or adds a new one and keeps
 the collection sorted by (measure, beat).
 */
module TimingPoints {
  import opened ChartTypes
  import opened KeyedSeq

  predicate IsAt(tp: TimingPoint, measure: int, beat: real) {
    tp.measure == measure && tp.beat == beat
  }

  /** `getTimingPointAt`: the first timing point at exactly (measure, beat), if any. */
  function At(tps: seq<TimingPoint>, measure: int, beat: real): (r: Option<TimingPoint>)
    ensures r.Some? ==> r.value in tps && IsAt(r.value, measure, beat)
    ensures r.Some? ==> exists i | 0 <= i < |tps| :: tps[i] == r.value && forall j | 0 <= j < i :: !IsAt(tps[j], measure, beat)
    ensures r.None? ==> forall tp | tp in tps :: !IsAt(tp, measure, beat)
  {
    var i := FindIndex(tps, TpKey, PositionKey(measure, beat));
    if i < 0 then None
    else
      assert forall j | 0 <= j < i :: !IsAt(tps[j], measure, beat) by {
        forall j | 0 <= j < i ensures !IsAt(tps[j], measure, beat) {
          assert TpKey(tps[j]) != PositionKey(measure, beat);
        }
      }
      Some(tps[i])
  }

  /** `hasTimingPointAt`: some timing point sits at exactly (measure, beat). */
  function HasAt(tps: seq<TimingPoint>, measure: int, beat: real): (r: bool)
    ensures r <==> At(tps, measure, beat).Some?
  {
    exists i | 0 <= i < |tps| :: IsAt(tps[i], measure, beat)
  }

  /** The point at the same position is replaced in place; otherwise the new point goes at the end. */
  function Upsert(tps: seq<TimingPoint>, tp: TimingPoint): (u: seq<TimingPoint>)
    ensures FirstWith(u, TpKey, TpKey(tp)) == Some(tp)
    ensures |u| == if HasAt(tps, tp.measure, tp.beat) then |tps| else |tps| + 1
    ensures multiset(u) == match At(tps, tp.measure, tp.beat)
                           case None => multiset(tps) + multiset{tp}
                           case Some(replaced) => multiset(tps) - multiset{replaced} + multiset{tp}
  {
    var i := FindIndex(tps, TpKey, TpKey(tp));
    if i >= 0 then
      var u := tps[i := tp];
      ReplacedIsFirst(tps, i, tp);
      assert tps == tps[..i] + [tps[i]] + tps[i + 1..];
      assert u == tps[..i] + [tp] + tps[i + 1..];
      u
    else
      var u := tps + [tp];
      assert FindIndex(u, TpKey, TpKey(tp)) == |tps| by {
        var found := FindIndex(u, TpKey, TpKey(tp));
        assert u[|tps|] == tp;
        assert forall j | 0 <= j < |tps| :: u[j] == tps[j];
      }
      u
  }

  lemma ReplacedIsFirst(tps: seq<TimingPoint>, i: nat, tp: TimingPoint)
    requires i == FindIndex(tps, TpKey, TpKey(tp))
    ensures FindIndex(tps[i := tp], TpKey, TpKey(tp)) == i
  {
    var u := tps[i := tp];
    var found := FindIndex(u, TpKey, TpKey(tp));
    assert TpKey(u[i]) == TpKey(tp);
  }

  /** Upserting keeps every point at another position and adds nothing but the new point. */
  lemma UpsertMembers(tps: seq<TimingPoint>, tp: TimingPoint)
    ensures forall q | q in Upsert(tps, tp) :: q == tp || q in tps
    ensures forall q | q in tps && !IsAt(q, tp.measure, tp.beat) :: q in Upsert(tps, tp)
  {
    var u := Upsert(tps, tp);
    var i := FindIndex(tps, TpKey, TpKey(tp));
    forall q | q in u ensures q == tp || q in tps {
      var k :| 0 <= k < |u| && u[k] == q;
      if k != i && k < |tps| {
        assert q == tps[k];
      }
    }
    forall q | q in tps && !IsAt(q, tp.measure, tp.beat) ensures q in u {
      var k :| 0 <= k < |tps| && tps[k] == q;
      assert u[k] == q;
    }
  }

  lemma UpsertUnique(tps: seq<TimingPoint>, tp: TimingPoint)
    requires Unique(tps, TpKey)
    ensures Unique(Upsert(tps, tp), TpKey)
  {
    var i := FindIndex(tps, TpKey, TpKey(tp));
    var u := Upsert(tps, tp);
    forall p, q | 0 <= p < q < |u| ensures TpKey(u[p]) != TpKey(u[q]) {
      if i >= 0 {
        assert TpKey(u[p]) == TpKey(tps[p]) && TpKey(u[q]) == TpKey(tps[q]);
      } else if q == |tps| {
        assert u[p] == tps[p];
      } else {
        assert u[p] == tps[p] && u[q] == tps[q];
      }
    }
  }

  /**
   `addTimingPoint`: the first point at the new point's position is replaced
   by it, or the new point is appended when there is none; then the
   collection is sorted by (measure, beat).
   */
  function Add(tps: seq<TimingPoint>, tp: TimingPoint): (r: seq<TimingPoint>)
    ensures Sorted(r, TpKey)
    ensures |r| == if HasAt(tps, tp.measure, tp.beat) then |tps| else |tps| + 1
    ensures At(r, tp.measure, tp.beat) == Some(tp)
    ensures Unique(tps, TpKey) ==> Unique(r, TpKey)
    ensures forall q | q in tps && !IsAt(q, tp.measure, tp.beat) :: q in r
    ensures forall q | q in r :: q == tp || q in tps
    ensures multiset(r) == match At(tps, tp.measure, tp.beat)
                           case None => multiset(tps) + multiset{tp}
                           case Some(replaced) => multiset(tps) - multiset{replaced} + multiset{tp}
  {
    var u := Upsert(tps, tp);
    SortKeepsFirst(u, TpKey, TpKey(tp));
    assert Unique(tps, TpKey) ==> Unique(Sort(u, TpKey), TpKey) by {
      if Unique(tps, TpKey) {
        UpsertUnique(tps, tp);
        SortUnique(u, TpKey);
      }
    }
    SortSameElements(u, TpKey);
    UpsertMembers(tps, tp);
    var r := Sort(u, TpKey);
    r
  }
}
