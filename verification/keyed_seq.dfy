/**
 Sequences kept in `SortKey` order: the sortedness and key-uniqueness
 predicates, the stable sort the store applies after every insertion
 (chart.ts calls `Array.prototype.sort`, which is stable), `findIndex`-style
 search and `splice(i, 1)`-style removal.
 */
module KeyedSeq {
  import opened ChartTypes

  ghost predicate Sorted<T>(xs: seq<T>, key: T -> SortKey) {
    forall i, j | 0 <= i < j < |xs| :: KeyLe(key(xs[i]), key(xs[j]))
  }

  /** No two elements share a key. */
  ghost predicate Unique<T>(xs: seq<T>, key: T -> SortKey) {
    forall i, j | 0 <= i < j < |xs| :: key(xs[i]) != key(xs[j])
  }

  /** Inserts `x` in front of the first element whose key is not smaller than its own. */
  function Insert<T>(x: T, ys: seq<T>, key: T -> SortKey): (r: seq<T>)
    ensures multiset(r) == multiset(ys) + multiset{x}
    ensures |r| == |ys| + 1
    ensures Sorted(ys, key) ==> Sorted(r, key)
  {
    if |ys| == 0 then [x]
    else if KeyLe(key(x), key(ys[0])) then [x] + ys
    else
      var rest := Insert(x, ys[1..], key);
      assert ys == [ys[0]] + ys[1..];
      assert Sorted(ys, key) ==> Sorted([ys[0]] + rest, key) by {
        if Sorted(ys, key) {
          KeyLeTotalOrder(key(x), key(ys[0]), key(x));
          ConsSorted(ys[0], rest, ys[1..], x, key);
        }
      }
      [ys[0]] + rest
  }

  /** `y` in front of a sorted sequence made of `x` and `others`, all with keys not below `y`'s, keeps it sorted. */
  lemma ConsSorted<T>(y: T, rest: seq<T>, others: seq<T>, x: T, key: T -> SortKey)
    requires Sorted(rest, key) && multiset(rest) == multiset(others) + multiset{x}
    requires KeyLe(key(y), key(x))
    requires forall i | 0 <= i < |others| :: KeyLe(key(y), key(others[i]))
    ensures Sorted([y] + rest, key)
  {
    forall j | 0 <= j < |rest| ensures KeyLe(key(y), key(rest[j])) {
      assert rest[j] in multiset(rest);
      if rest[j] != x {
        assert rest[j] in multiset(others);
      }
    }
    var r := [y] + rest;
    forall i, j | 0 <= i < j < |r| ensures KeyLe(key(r[i]), key(r[j])) {
      assert r[j] == rest[j - 1];
      if i > 0 {
        assert r[i] == rest[i - 1];
      }
    }
  }

  /** Sorting keeps exactly the elements it was given. */
  lemma SortSameElements<T>(xs: seq<T>, key: T -> SortKey)
    ensures forall e :: e in Sort(xs, key) <==> e in xs
  {
    var r := Sort(xs, key);
    forall e ensures e in r <==> e in xs {
      assert e in r <==> e in multiset(r);
      assert e in xs <==> e in multiset(xs);
    }
  }

  /** The last element of a sorted sequence has the greatest key. */
  lemma SortedLastIsGreatest<T>(xs: seq<T>, key: T -> SortKey)
    requires Sorted(xs, key) && |xs| > 0
    ensures forall e | e in xs :: KeyLe(key(e), key(xs[|xs| - 1]))
  {
    forall e | e in xs ensures KeyLe(key(e), key(xs[|xs| - 1])) {
      var k :| 0 <= k < |xs| && xs[k] == e;
      KeyLeTotalOrder(key(e), key(e), key(e));
    }
  }

  /** Stable insertion sort by `key`. */
  function Sort<T>(xs: seq<T>, key: T -> SortKey): (r: seq<T>)
    ensures Sorted(r, key)
    ensures multiset(r) == multiset(xs)
    ensures |r| == |xs|
  {
    if |xs| == 0 then []
    else
      assert xs == [xs[0]] + xs[1..];
      Insert(xs[0], Sort(xs[1..], key), key)
  }

  /** `findIndex`: the index of the first element with key `k`, or -1. */
  function FindIndex<T>(xs: seq<T>, key: T -> SortKey, k: SortKey): (r: int)
    ensures -1 <= r < |xs|
    ensures 0 <= r ==> key(xs[r]) == k
    ensures forall j | 0 <= j < |xs| && (r < 0 || j < r) :: key(xs[j]) != k
  {
    if |xs| == 0 then -1
    else if key(xs[0]) == k then 0
    else
      var i := FindIndex(xs[1..], key, k);
      if i < 0 then -1 else i + 1
  }

  /** `find`: the first element with key `k`, if any. */
  function FirstWith<T>(xs: seq<T>, key: T -> SortKey, k: SortKey): (r: Option<T>)
    ensures r.Some? <==> exists i :: 0 <= i < |xs| && key(xs[i]) == k
    ensures r.Some? ==> r.value in xs && key(r.value) == k
    ensures r.Some? ==> exists i | 0 <= i < |xs| :: xs[i] == r.value && forall j | 0 <= j < i :: key(xs[j]) != k
  {
    var i := FindIndex(xs, key, k);
    if i < 0 then None else Some(xs[i])
  }

  lemma FirstWithCons<T>(x: T, ys: seq<T>, key: T -> SortKey, k: SortKey)
    ensures FirstWith([x] + ys, key, k) == if key(x) == k then Some(x) else FirstWith(ys, key, k)
  {
    assert ([x] + ys)[1..] == ys;
  }

  /** Inserting `x` leaves it before every element of its own key: the first element of each key is as if `x` had been prepended. */
  lemma {:induction false} InsertKeepsFirst<T>(x: T, ys: seq<T>, key: T -> SortKey, k: SortKey)
    ensures FirstWith(Insert(x, ys, key), key, k) == FirstWith([x] + ys, key, k)
  {
    if |ys| == 0 {
    } else if KeyLe(key(x), key(ys[0])) {
    } else {
      var rest := Insert(x, ys[1..], key);
      assert ys == [ys[0]] + ys[1..];
      InsertKeepsFirst(x, ys[1..], key, k);
      FirstWithCons(ys[0], rest, key, k);
      FirstWithCons(x, ys, key, k);
      FirstWithCons(ys[0], ys[1..], key, k);
      FirstWithCons(x, ys[1..], key, k);
    }
  }

  /** Stability, as far as lookups see it: sorting does not change which element is the first of a key. */
  lemma {:induction false} SortKeepsFirst<T>(xs: seq<T>, key: T -> SortKey, k: SortKey)
    ensures FirstWith(Sort(xs, key), key, k) == FirstWith(xs, key, k)
  {
    if |xs| > 0 {
      SortKeepsFirst(xs[1..], key, k);
      InsertKeepsFirst(xs[0], Sort(xs[1..], key), key, k);
      FirstWithCons(xs[0], Sort(xs[1..], key), key, k);
      FirstWithCons(xs[0], xs[1..], key, k);
      assert xs == [xs[0]] + xs[1..];
    }
  }

  /** Putting an element whose key is new in front keeps the keys unique. */
  lemma PrependUnique<T>(x: T, ys: seq<T>, key: T -> SortKey)
    requires Unique(ys, key)
    requires forall y | y in ys :: key(y) != key(x)
    ensures Unique([x] + ys, key)
  {
    var r := [x] + ys;
    forall i, j | 0 <= i < j < |r| ensures key(r[i]) != key(r[j]) {
      assert r[j] == ys[j - 1];
      if i > 0 {
        assert r[i] == ys[i - 1];
      }
    }
  }

  /** Every element of `Insert(x, ys)` is `x` or an element of `ys`. */
  lemma InsertMembers<T>(x: T, ys: seq<T>, key: T -> SortKey)
    ensures forall e | e in Insert(x, ys, key) :: e == x || e in ys
  {
    var r := Insert(x, ys, key);
    forall e | e in r ensures e == x || e in ys {
      assert e in multiset(r);
    }
  }

  lemma {:induction false} InsertUnique<T>(x: T, ys: seq<T>, key: T -> SortKey)
    requires Unique(ys, key)
    requires forall y | y in ys :: key(y) != key(x)
    ensures Unique(Insert(x, ys, key), key)
  {
    if |ys| == 0 {
    } else if KeyLe(key(x), key(ys[0])) {
      PrependUnique(x, ys, key);
    } else {
      var tail := ys[1..];
      TailUnique(ys, key);
      assert forall y | y in tail :: y in ys;
      InsertUnique(x, tail, key);
      var rest := Insert(x, tail, key);
      InsertMembers(x, tail, key);
      forall e | e in rest ensures key(e) != key(ys[0]) {
        if e != x {
          var k :| 0 <= k < |tail| && tail[k] == e;
          assert ys[k + 1] == e;
        }
      }
      PrependUnique(ys[0], rest, key);
    }
  }

  /** Sorting a sequence with unique keys keeps the keys unique. */
  lemma {:induction false} SortUnique<T>(xs: seq<T>, key: T -> SortKey)
    requires Unique(xs, key)
    ensures Unique(Sort(xs, key), key)
  {
    if |xs| > 0 {
      var tail := xs[1..];
      TailUnique(xs, key);
      SortUnique(tail, key);
      var sorted := Sort(tail, key);
      forall y | y in sorted ensures key(y) != key(xs[0]) {
        assert y in multiset(sorted);
        assert y in multiset(tail);
        var k :| 0 <= k < |tail| && tail[k] == y;
        assert xs[k + 1] == y;
      }
      InsertUnique(xs[0], sorted, key);
    }
  }

  lemma TailUnique<T>(xs: seq<T>, key: T -> SortKey)
    requires |xs| > 0 && Unique(xs, key)
    ensures Unique(xs[1..], key)
  {
    forall p, q | 0 <= p < q < |xs[1..]| ensures key(xs[1..][p]) != key(xs[1..][q]) {
      assert xs[1..][p] == xs[p + 1] && xs[1..][q] == xs[q + 1];
    }
  }

  /** Two sorted arrangements of the same elements with unique keys start with the same element. */
  lemma SortedHeadsEqual<T>(a: seq<T>, b: seq<T>, key: T -> SortKey)
    requires Sorted(a, key) && Sorted(b, key) && Unique(a, key)
    requires multiset(a) == multiset(b) && |a| > 0 && |b| > 0
    ensures a[0] == b[0]
  {
    assert a[0] in multiset(b);
    var i :| 0 <= i < |b| && b[i] == a[0];
    assert b[0] in multiset(a);
    var j :| 0 <= j < |a| && a[j] == b[0];
    assert KeyLe(key(b[0]), key(b[i]));
    assert KeyLe(key(a[0]), key(a[j]));
  }

  lemma TailMultiset<T>(a: seq<T>, b: seq<T>)
    requires |a| > 0 && |b| > 0 && a[0] == b[0] && multiset(a) == multiset(b)
    ensures multiset(a[1..]) == multiset(b[1..])
  {
    assert a == [a[0]] + a[1..] && b == [b[0]] + b[1..];
    calc {
      multiset(a[1..]);
      multiset(a) - multiset{a[0]};
      multiset(b) - multiset{b[0]};
      multiset(b[1..]);
    }
  }

  /**
   Any two sorted arrangements of the same elements with unique keys are
   equal: for timing points, the order the store produces does not depend on
   how it sorts.
   */
  lemma {:induction false} SortedPermutationUnique<T>(a: seq<T>, b: seq<T>, key: T -> SortKey)
    requires Sorted(a, key) && Sorted(b, key) && Unique(a, key)
    requires multiset(a) == multiset(b)
    ensures a == b
  {
    assert |a| == |multiset(a)| == |multiset(b)| == |b|;
    if |a| > 0 {
      SortedHeadsEqual(a, b, key);
      assert a == [a[0]] + a[1..] && b == [b[0]] + b[1..];
      TailMultiset(a, b);
      TailUnique(a, key);
      TailSorted(a, key);
      TailSorted(b, key);
      SortedPermutationUnique(a[1..], b[1..], key);
    }
  }

  /** The number of leading elements whose key is not above `key(x)`: where a stable sort puts `x` appended to a sorted sequence. */
  function UpperBound<T>(ys: seq<T>, x: T, key: T -> SortKey): (k: nat)
    ensures k <= |ys|
    ensures forall i | 0 <= i < k :: KeyLe(key(ys[i]), key(x))
    ensures Sorted(ys, key) ==> forall i | k <= i < |ys| :: !KeyLe(key(ys[i]), key(x))
    ensures |ys| > 0 && !KeyLe(key(ys[0]), key(x)) ==> k == 0
  {
    if |ys| == 0 || !KeyLe(key(ys[0]), key(x)) then
      assert Sorted(ys, key) ==> forall i | 0 <= i < |ys| :: !KeyLe(key(ys[i]), key(x)) by {
        if Sorted(ys, key) && |ys| > 0 {
          forall i | 0 <= i < |ys| ensures !KeyLe(key(ys[i]), key(x)) {
            KeyLeTotalOrder(key(ys[0]), key(ys[i]), key(x));
          }
        }
      }
      0
    else
      var k := UpperBound(ys[1..], x, key);
      assert Sorted(ys, key) ==> Sorted(ys[1..], key) by {
        if Sorted(ys, key) {
          forall i, j | 0 <= i < j < |ys[1..]| ensures KeyLe(key(ys[1..][i]), key(ys[1..][j])) {
            assert ys[1..][i] == ys[i + 1] && ys[1..][j] == ys[j + 1];
          }
        }
      }
      assert forall i | 1 <= i <= k :: ys[i] == ys[1..][i - 1];
      assert forall i | k + 1 <= i < |ys| :: ys[i] == ys[1..][i - 1];
      k + 1
  }

  /** Inserting in front of a sorted sequence that starts with a key not below `y`'s prepends. */
  lemma InsertInFront<T>(y: T, zs: seq<T>, key: T -> SortKey)
    requires |zs| == 0 || KeyLe(key(y), key(zs[0]))
    ensures Insert(y, zs, key) == [y] + zs
  {
  }

  lemma TailSorted<T>(xs: seq<T>, key: T -> SortKey)
    requires Sorted(xs, key) && |xs| > 0
    ensures Sorted(xs[1..], key)
  {
    var tail := xs[1..];
    forall i, j | 0 <= i < j < |tail| ensures KeyLe(key(tail[i]), key(tail[j])) {
      assert tail[i] == xs[i + 1] && tail[j] == xs[j + 1];
    }
  }

  /**
   Stability for an appended element: sorting a sorted sequence with `x`
   appended puts `x` after every element whose key is not above its own and
   before the rest, leaving the others in place.
   */
  lemma {:induction false} SortAppend<T>(ys: seq<T>, x: T, key: T -> SortKey)
    requires Sorted(ys, key)
    ensures Sort(ys + [x], key) == ys[..UpperBound(ys, x, key)] + [x] + ys[UpperBound(ys, x, key)..]
  {
    var xs := ys + [x];
    if |ys| == 0 {
      assert xs == [x];
      assert xs[1..] == [];
    } else {
      var tail := ys[1..];
      assert xs[0] == ys[0] && xs[1..] == tail + [x];
      TailSorted(ys, key);
      SortAppend(tail, x, key);
      if KeyLe(key(ys[0]), key(x)) {
        AppendStepNotAbove(ys, x, key);
      } else {
        AppendStepAbove(ys, x, key);
        assert tail[..0] + [x] + tail[0..] == [x] + tail;
      }
    }
  }

  /** The step of `SortAppend` when the first element's key is not above `x`'s: it stays in front. */
  lemma AppendStepNotAbove<T>(ys: seq<T>, x: T, key: T -> SortKey)
    requires Sorted(ys, key) && |ys| > 0 && KeyLe(key(ys[0]), key(x))
    ensures UpperBound(ys, x, key) == UpperBound(ys[1..], x, key) + 1
    ensures Insert(ys[0], ys[1..][..UpperBound(ys[1..], x, key)] + [x] + ys[1..][UpperBound(ys[1..], x, key)..], key)
            == ys[..UpperBound(ys[1..], x, key) + 1] + [x] + ys[UpperBound(ys[1..], x, key) + 1..]
  {
    var k := UpperBound(ys[1..], x, key);
    InsertStaysInFront(ys, x, k, key);
    SpliceShift(ys, x, k);
  }

  lemma InsertStaysInFront<T>(ys: seq<T>, x: T, k: nat, key: T -> SortKey)
    requires Sorted(ys, key) && 0 < |ys| && k < |ys| && KeyLe(key(ys[0]), key(x))
    ensures Insert(ys[0], ys[1..][..k] + [x] + ys[1..][k..], key) == [ys[0]] + (ys[1..][..k] + [x] + ys[1..][k..])
  {
    var mid := ys[1..][..k] + [x] + ys[1..][k..];
    if k > 0 {
      assert mid[0] == ys[1];
    } else {
      assert mid[0] == x;
    }
    InsertInFront(ys[0], mid, key);
  }

  lemma SpliceShift<T>(ys: seq<T>, x: T, k: nat)
    requires k < |ys|
    ensures [ys[0]] + (ys[1..][..k] + [x] + ys[1..][k..]) == ys[..k + 1] + [x] + ys[k + 1..]
  {
    var lhs := [ys[0]] + (ys[1..][..k] + [x] + ys[1..][k..]);
    var rhs := ys[..k + 1] + [x] + ys[k + 1..];
    assert |lhs| == |rhs|;
    forall i | 0 <= i < |lhs| ensures lhs[i] == rhs[i] {
      if 0 < i <= k {
        assert lhs[i] == ys[1..][i - 1];
      } else if i > k + 1 {
        assert lhs[i] == ys[1..][i - 2];
      }
    }
  }

  /** The step of `SortAppend` when the first element's key is above `x`'s: `x` goes first. */
  lemma AppendStepAbove<T>(ys: seq<T>, x: T, key: T -> SortKey)
    requires Sorted(ys, key) && |ys| > 0 && !KeyLe(key(ys[0]), key(x))
    ensures UpperBound(ys, x, key) == 0 && UpperBound(ys[1..], x, key) == 0
    ensures Insert(ys[0], [x] + ys[1..], key) == [x] + ys
  {
    var tail := ys[1..];
    if |tail| > 0 {
      assert tail[0] == ys[1];
      KeyLeTotalOrder(key(ys[0]), key(ys[1]), key(x));
    }
    assert UpperBound(tail, x, key) == 0;
    InsertPastFirst(ys[0], x, tail, key);
    assert [ys[0]] + tail == ys;
  }

  /** An element whose key is above the head's but not above the next one's goes second. */
  lemma InsertPastFirst<T>(y: T, x: T, tail: seq<T>, key: T -> SortKey)
    requires !KeyLe(key(y), key(x))
    requires |tail| == 0 || KeyLe(key(y), key(tail[0]))
    ensures Insert(y, [x] + tail, key) == [x] + ([y] + tail)
  {
    var zs := [x] + tail;
    assert zs[0] == x && zs[1..] == tail;
    InsertInFront(y, tail, key);
  }

  /** The last element of `Insert(x, ys)` for a sorted non-empty `ys`: `x` only when its key is above every key of `ys`. */
  lemma {:induction false} InsertLast<T>(x: T, ys: seq<T>, key: T -> SortKey)
    requires Sorted(ys, key) && |ys| > 0
    ensures Insert(x, ys, key)[|ys|] == if KeyLe(key(x), key(ys[|ys| - 1])) then ys[|ys| - 1] else x
  {
    if !KeyLe(key(x), key(ys[0])) {
      var tail := ys[1..];
      if |tail| > 0 {
        assert Sorted(tail, key) by {
          forall i, j | 0 <= i < j < |tail| ensures KeyLe(key(tail[i]), key(tail[j])) {
            assert tail[i] == ys[i + 1] && tail[j] == ys[j + 1];
          }
        }
        InsertLast(x, tail, key);
        assert tail[|tail| - 1] == ys[|ys| - 1];
      }
    }
  }

  /** `m` sits at an index of `xs` after which no element shares its key: it is the last element of its key. */
  ghost predicate LastOfKey<T>(xs: seq<T>, m: T, key: T -> SortKey) {
    exists i | 0 <= i < |xs| :: xs[i] == m && forall j | i < j < |xs| :: key(xs[j]) != key(m)
  }

  /**
   Stability at the end: the last element of the sorted sequence is, in the
   input, the last element of its key, so among the elements of greatest key
   it is the one that came last.
   */
  lemma {:induction false} SortLastIsLastOfKey<T>(xs: seq<T>, key: T -> SortKey)
    requires |xs| > 0
    ensures LastOfKey(xs, Sort(xs, key)[|xs| - 1], key)
    decreases |xs|, 1
  {
    if |xs| == 1 {
      SingleIsLastOfKey(xs, key);
    } else {
      InsertKeepsLastOfKey(xs, key);
    }
  }

  lemma SingleIsLastOfKey<T>(xs: seq<T>, key: T -> SortKey)
    requires |xs| == 1
    ensures LastOfKey(xs, Sort(xs, key)[0], key)
  {
    assert Sort(xs, key)[0] == xs[0] by {
      assert Sort(xs, key)[0] in multiset(xs);
    }
    assert xs[0] == Sort(xs, key)[0];
  }

  /** One insertion step: the sorted tail ends with the tail's last element of its key
      (by induction), and inserting the head keeps that property for the whole sequence. */
  lemma {:induction false} InsertKeepsLastOfKey<T>(xs: seq<T>, key: T -> SortKey)
    requires |xs| > 1
    ensures LastOfKey(xs, Sort(xs, key)[|xs| - 1], key)
    decreases |xs|, 0
  {
    var s := Sort(xs[1..], key);
    var last := s[|s| - 1];
    SortLastIsLastOfKey(xs[1..], key);
    InsertLast(xs[0], s, key);
    assert Sort(xs, key) == Insert(xs[0], s, key);
    if KeyLe(key(xs[0]), key(last)) {
      assert Sort(xs, key)[|xs| - 1] == last;
      LastOfKeyCons(xs, last, key);
    } else {
      assert Sort(xs, key)[|xs| - 1] == xs[0];
      HeadIsLastOfKey(xs, s, key);
    }
  }

  lemma LastOfKeyCons<T>(xs: seq<T>, m: T, key: T -> SortKey)
    requires |xs| > 1 && LastOfKey(xs[1..], m, key)
    ensures LastOfKey(xs, m, key)
  {
    var tail := xs[1..];
    var i :| 0 <= i < |tail| && tail[i] == m && forall j | i < j < |tail| :: key(tail[j]) != key(m);
    assert xs[i + 1] == m;
    forall j | i + 1 < j < |xs| ensures key(xs[j]) != key(m) {
      assert xs[j] == tail[j - 1];
    }
  }

  lemma HeadIsLastOfKey<T>(xs: seq<T>, s: seq<T>, key: T -> SortKey)
    requires |xs| > 1 && Sorted(s, key) && multiset(s) == multiset(xs[1..]) && |s| == |xs| - 1
    requires !KeyLe(key(xs[0]), key(s[|s| - 1]))
    ensures LastOfKey(xs, xs[0], key)
  {
    SortedLastIsGreatest(s, key);
    forall j | 0 < j < |xs| ensures key(xs[j]) != key(xs[0]) {
      assert xs[j] == xs[1..][j - 1];
      assert xs[j] in multiset(s);
      KeyLeTotalOrder(key(xs[j]), key(xs[j]), key(xs[j]));
    }
  }

  /** The last element of its key is either the last of its key in the tail, or the head with no element of its key after it. */
  lemma LastOfKeyHead<T>(xs: seq<T>, m: T, key: T -> SortKey)
    requires |xs| > 0 && LastOfKey(xs, m, key)
    ensures LastOfKey(xs[1..], m, key) || (xs[0] == m && forall y | y in xs[1..] :: key(y) != key(m))
  {
    var i :| 0 <= i < |xs| && xs[i] == m && forall j | i < j < |xs| :: key(xs[j]) != key(m);
    if i > 0 {
      assert xs[1..][i - 1] == m;
      forall j | i - 1 < j < |xs| - 1 ensures key(xs[1..][j]) != key(m) {
        assert xs[1..][j] == xs[j + 1];
      }
    } else {
      forall y | y in xs[1..] ensures key(y) != key(m) {
        var k :| 0 <= k < |xs| - 1 && xs[1..][k] == y;
        assert xs[k + 1] == y;
      }
    }
  }

  /** After splicing `x` in at index `k`, `x` sits at `k` and the prefix before it is unchanged. */
  lemma SpliceFront<T>(xs: seq<T>, k: nat, x: T, r: seq<T>)
    requires k <= |xs| && r == xs[..k] + [x] + xs[k..]
    ensures r[k] == x && r[..k] == xs[..k]
  {
    assert |r| == |xs| + 1;
    forall j | 0 <= j < k ensures r[j] == xs[j] {
      assert r[j] == (xs[..k] + [x])[j];
    }
  }

  /** `splice(i, 1)`: removes the element at `i`; an index past the end removes nothing. */
  function RemoveAt<T>(xs: seq<T>, i: nat): (r: seq<T>)
    ensures i < |xs| ==> |r| == |xs| - 1
    ensures i < |xs| ==> forall j | 0 <= j < |r| :: r[j] == xs[if j < i then j else j + 1]
    ensures i < |xs| ==> multiset(r) + multiset{xs[i]} == multiset(xs)
    ensures |xs| <= i ==> r == xs
  {
    if i < |xs| then
      assert xs == xs[..i] + [xs[i]] + xs[i + 1..];
      xs[..i] + xs[i + 1..]
    else xs
  }

  /** Removing an element keeps a sorted sequence sorted and unique keys unique. */
  lemma RemoveKeepsOrder<T>(xs: seq<T>, i: nat, key: T -> SortKey)
    ensures Sorted(xs, key) ==> Sorted(RemoveAt(xs, i), key)
    ensures Unique(xs, key) ==> Unique(RemoveAt(xs, i), key)
  {
    var r := RemoveAt(xs, i);
    if i < |xs| {
      forall p, q | 0 <= p < q < |r|
        ensures r[p] == xs[if p < i then p else p + 1] && r[q] == xs[if q < i then q else q + 1]
      {
      }
    }
  }
}
