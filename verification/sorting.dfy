/** `Array.prototype.sort` with a consistent comparator.  The language
    requires the sort to be stable, so it is modelled by insertion sort,
    proved here to return a sorted permutation that keeps equivalent
    elements in their input order.  A comparator `cmp` is represented by the
    relation `le(a, b) := cmp(a, b) <= 0`. */
module Sorting {

  /** `le` is total and transitive: the relation of a consistent comparator. */
  ghost predicate TotalPreorder<T(!new)>(le: (T, T) -> bool) {
    && (forall a, b :: le(a, b) || le(b, a))
    && (forall a, b, c :: le(a, b) && le(b, c) ==> le(a, c))
  }

  ghost predicate SortedBy<T(!new)>(s: seq<T>, le: (T, T) -> bool) {
    forall i, j | 0 <= i < j < |s| :: le(s[i], s[j])
  }

  /** Puts `x` before the first element it is `le`. */
  function Insert<T(!new)>(x: T, s: seq<T>, le: (T, T) -> bool): (r: seq<T>)
    ensures |r| == |s| + 1
    ensures multiset(r) == multiset(s) + multiset{x}
  {
    if |s| == 0 then [x]
    else if le(x, s[0]) then [x] + s
    else
      assert s == [s[0]] + s[1..];
      [s[0]] + Insert(x, s[1..], le)
  }

  lemma {:induction false} InsertSorted<T(!new)>(x: T, s: seq<T>, le: (T, T) -> bool)
    requires TotalPreorder(le)
    requires SortedBy(s, le)
    ensures SortedBy(Insert(x, s, le), le)
    decreases |s|
  {
    if |s| > 0 && !le(x, s[0]) {
      InsertSorted(x, s[1..], le);
      var r := Insert(x, s, le);
      var t := Insert(x, s[1..], le);
      assert r == [s[0]] + t;
      forall j | 0 < j < |r| ensures le(r[0], r[j]) {
        assert r[j] == t[j - 1];
        assert r[j] in multiset(t);
        assert r[j] == x || r[j] in multiset(s[1..]);
        if r[j] != x {
          var k :| 1 <= k < |s| && s[k] == r[j] by {
            assert r[j] in s[1..];
          }
        }
      }
    }
  }

  /** Insertion sort: the stable sort by `le`. */
  function Sort<T(!new)>(s: seq<T>, le: (T, T) -> bool): (r: seq<T>)
    requires TotalPreorder(le)
    ensures |r| == |s|
    ensures multiset(r) == multiset(s)
    ensures SortedBy(r, le)
  {
    if |s| == 0 then []
    else
      var t := Sort(s[1..], le);
      InsertSorted(s[0], t, le);
      assert s == [s[0]] + s[1..];
      Insert(s[0], t, le)
  }

  /** The elements of `s` equivalent to `k` under `le`, in order. */
  function EquivalentTo<T(!new)>(s: seq<T>, le: (T, T) -> bool, k: T): seq<T> {
    if |s| == 0 then []
    else if le(s[0], k) && le(k, s[0]) then [s[0]] + EquivalentTo(s[1..], le, k)
    else EquivalentTo(s[1..], le, k)
  }

  lemma {:induction false} InsertStable<T(!new)>(x: T, s: seq<T>, le: (T, T) -> bool, k: T)
    requires TotalPreorder(le)
    ensures EquivalentTo(Insert(x, s, le), le, k)
         == if le(x, k) && le(k, x) then [x] + EquivalentTo(s, le, k) else EquivalentTo(s, le, k)
    decreases |s|
  {
    if |s| > 0 && !le(x, s[0]) {
      InsertStable(x, s[1..], le, k);
      assert Insert(x, s, le)[1..] == Insert(x, s[1..], le);
      if le(x, k) && le(k, x) {
        assert !(le(s[0], k) && le(k, s[0]));
      }
    } else if |s| > 0 {
      assert Insert(x, s, le)[1..] == s;
    }
  }

  /** Stability: sorting keeps every class of equivalent elements in input order. */
  lemma {:induction false} SortStable<T(!new)>(s: seq<T>, le: (T, T) -> bool, k: T)
    requires TotalPreorder(le)
    ensures EquivalentTo(Sort(s, le), le, k) == EquivalentTo(s, le, k)
    decreases |s|
  {
    if |s| > 0 {
      SortStable(s[1..], le, k);
      InsertStable(s[0], Sort(s[1..], le), le, k);
    }
  }

  /** The last element of a sorted sequence is `le`-greatest. */
  lemma SortedLastGreatest<T(!new)>(s: seq<T>, le: (T, T) -> bool)
    requires TotalPreorder(le)
    requires SortedBy(s, le)
    requires |s| > 0
    ensures forall i | 0 <= i < |s| :: le(s[i], s[|s| - 1])
  {
    var last := s[|s| - 1];
    assert le(last, last);
  }

  lemma {:induction false} EquivalentToAppend<T(!new)>(a: seq<T>, x: T, le: (T, T) -> bool, k: T)
    ensures EquivalentTo(a + [x], le, k)
         == EquivalentTo(a, le, k) + (if le(x, k) && le(k, x) then [x] else [])
    decreases |a|
  {
    if |a| > 0 {
      assert (a + [x])[1..] == a[1..] + [x];
      EquivalentToAppend(a[1..], x, le, k);
    } else {
      assert a + [x] == [x];
    }
  }

  /** The last element equivalent to `k` is the last one in position. */
  lemma {:induction false} EquivalentToLast<T(!new)>(s: seq<T>, le: (T, T) -> bool, k: T)
    requires |EquivalentTo(s, le, k)| > 0
    ensures var q := EquivalentTo(s, le, k);
      exists i | 0 <= i < |s| :: s[i] == q[|q| - 1] && forall j | i < j < |s| :: !(le(s[j], k) && le(k, s[j]))
    decreases |s|
  {
    var a, x := s[..|s| - 1], s[|s| - 1];
    assert s == a + [x];
    EquivalentToAppend(a, x, le, k);
    if le(x, k) && le(k, x) {
      assert s[|s| - 1] == EquivalentTo(s, le, k)[|EquivalentTo(s, le, k)| - 1];
    } else {
      EquivalentToLast(a, le, k);
      var i :| 0 <= i < |a| && a[i] == EquivalentTo(a, le, k)[|EquivalentTo(a, le, k)| - 1]
        && forall j | i < j < |a| :: !(le(a[j], k) && le(k, a[j]));
      assert s[i] == a[i];
      forall j | i < j < |s| ensures !(le(s[j], k) && le(k, s[j])) {
        if j < |a| { assert s[j] == a[j]; }
      }
    }
  }

  /** The last element after sorting (`pop()` of the sorted array) is a
      greatest element of the input. */
  lemma SortLastGreatest<T(!new)>(s: seq<T>, le: (T, T) -> bool)
    requires TotalPreorder(le)
    requires |s| > 0
    ensures forall x | x in s :: le(x, Sort(s, le)[|s| - 1])
  {
    var t := Sort(s, le);
    SortedLastGreatest(t, le);
    forall x | x in s ensures le(x, t[|t| - 1]) {
      assert x in multiset(t);
      var k :| 0 <= k < |t| && t[k] == x;
    }
  }

  lemma EquivalentToEndsWithLast<T(!new)>(t: seq<T>, le: (T, T) -> bool)
    requires |t| > 0 && le(t[|t| - 1], t[|t| - 1])
    ensures var q := EquivalentTo(t, le, t[|t| - 1]); |q| > 0 && q[|q| - 1] == t[|t| - 1]
  {
    var a := t[..|t| - 1];
    assert t == a + [t[|t| - 1]];
    EquivalentToAppend(a, t[|t| - 1], le, t[|t| - 1]);
  }

  /** If `e` ends `t`, is greatest in `s`, and `t` keeps the order of the
      elements equivalent to `e`, then `e` is the last greatest element of `s`. */
  lemma LastOfEquivalenceClass<T(!new)>(s: seq<T>, t: seq<T>, le: (T, T) -> bool)
    requires TotalPreorder(le)
    requires |t| > 0
    requires forall x | x in s :: le(x, t[|t| - 1])
    requires EquivalentTo(t, le, t[|t| - 1]) == EquivalentTo(s, le, t[|t| - 1])
    ensures exists i | 0 <= i < |s| :: s[i] == t[|t| - 1] && forall j | i < j < |s| :: !le(t[|t| - 1], s[j])
  {
    var e := t[|t| - 1];
    assert le(e, e);
    EquivalentToEndsWithLast(t, le);
    EquivalentToLast(s, le, e);
    var i :| 0 <= i < |s| && s[i] == e && forall j | i < j < |s| :: !(le(s[j], e) && le(e, s[j]));
    forall j | i < j < |s| ensures !le(e, s[j]) {
      assert s[j] in s;
    }
  }

  /** Stability at the end: the last element after sorting is the last of
      the greatest elements in input order, so every element after it in
      the input is strictly smaller. */
  lemma SortLastIsLastGreatest<T(!new)>(s: seq<T>, le: (T, T) -> bool)
    requires TotalPreorder(le)
    requires |s| > 0
    ensures var e := Sort(s, le)[|s| - 1];
      exists i | 0 <= i < |s| :: s[i] == e && forall j | i < j < |s| :: !le(e, s[j])
  {
    var t := Sort(s, le);
    SortLastGreatest(s, le);
    SortStable(s, le, t[|t| - 1]);
    LastOfEquivalenceClass(s, t, le);
  }

  /** The last element after sorting is greatest, and it is the last of the
      greatest elements in input order: its input position `i`. */
  lemma SortLastIndex<T(!new)>(s: seq<T>, le: (T, T) -> bool) returns (i: nat)
    requires TotalPreorder(le)
    requires |s| > 0
    ensures i < |s| && s[i] == Sort(s, le)[|s| - 1]
    ensures forall x | x in s :: le(x, s[i])
    ensures forall j | i < j < |s| :: !le(s[i], s[j])
  {
    SortLastGreatest(s, le);
    SortLastIsLastGreatest(s, le);
    var e := Sort(s, le)[|s| - 1];
    i :| 0 <= i < |s| && s[i] == e && forall j | i < j < |s| :: !le(e, s[j]);
  }
}
