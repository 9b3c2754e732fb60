/** A JavaScript object (or `Map`) with string keys, as the ordered list of
    its entries.  Assigning a new key appends an entry; assigning an
    existing key replaces its value in place, so iteration order is the
    order of first assignment.  (Integer-like keys, which objects enumerate
    first, are not distinguished.) */
module JsObject {
  import opened Wrappers

  type Obj<V> = seq<(string, V)>

  function Keys<V>(o: Obj<V>): (r: seq<string>)
    ensures |r| == |o| && forall i | 0 <= i < |o| :: r[i] == o[i].0
  {
    if |o| == 0 then [] else [o[0].0] + Keys(o[1..])
  }

  /** Every key occurs once. */
  predicate WellFormed<V>(o: Obj<V>) {
    forall i, j | 0 <= i < j < |o| :: o[i].0 != o[j].0
  }

  function Get<V>(o: Obj<V>, k: string): (r: Option<V>)
    ensures r.None? <==> k !in Keys(o)
  {
    if |o| == 0 then None
    else if o[0].0 == k then Some(o[0].1)
    else Get(o[1..], k)
  }

  /** A value read comes from an entry holding the key; `i` is its
      position. */
  lemma {:induction false} GetFound<V>(o: Obj<V>, k: string) returns (i: nat)
    requires Get(o, k).Some?
    ensures i < |o| && o[i] == (k, Get(o, k).value)
    decreases |o|
  {
    if o[0].0 == k {
      i := 0;
    } else {
      var j := GetFound(o[1..], k);
      i := j + 1;
    }
  }

  /** `o[k] = v`. */
  function Set<V>(o: Obj<V>, k: string, v: V): (r: Obj<V>)
    ensures k in Keys(o) ==> Keys(r) == Keys(o)
    ensures k !in Keys(o) ==> Keys(r) == Keys(o) + [k]
    ensures WellFormed(o) ==> forall i | 0 <= i < |o| :: r[i] == if o[i].0 == k then (k, v) else o[i]
  {
    if |o| == 0 then [(k, v)]
    else if o[0].0 == k then [(k, v)] + o[1..]
    else [o[0]] + Set(o[1..], k, v)
  }

  /** Assigning keeps every key unique. */
  lemma SetWellFormed<V>(o: Obj<V>, k: string, v: V)
    requires WellFormed(o)
    ensures WellFormed(Set(o, k, v))
  {
    var r := Set(o, k, v);
    forall i, j | 0 <= i < j < |r| ensures r[i].0 != r[j].0 {
      assert Keys(r)[i] == r[i].0 && Keys(r)[j] == r[j].0;
      assert forall m | 0 <= m < |o| :: Keys(o)[m] == o[m].0;
    }
  }

  /** Reading back after an assignment, whatever the object: the key
      assigned has the new value, every other key its old one. */
  lemma {:induction false} GetSetAny<V>(o: Obj<V>, k: string, v: V, k': string)
    ensures Get(Set(o, k, v), k') == if k' == k then Some(v) else Get(o, k')
    decreases |o|
  {
    if |o| > 0 && o[0].0 != k {
      GetSetAny(o[1..], k, v, k');
      assert Set(o, k, v) == [o[0]] + Set(o[1..], k, v);
      assert (Set(o, k, v))[1..] == Set(o[1..], k, v);
    } else if |o| > 0 {
      assert Set(o, k, v)[1..] == o[1..];
    }
  }

  /** Reading back: the key just assigned has the new value, every other key
      its old one, and keys stay unique. */
  lemma GetSet<V>(o: Obj<V>, k: string, v: V, k': string)
    requires WellFormed(o)
    ensures WellFormed(Set(o, k, v))
    ensures Get(Set(o, k, v), k') == if k' == k then Some(v) else Get(o, k')
  {
    SetWellFormed(o, k, v);
    GetSetAny(o, k, v, k');
  }

  /** Assigning a new key appends its entry. */
  lemma {:induction false} SetNew<V>(o: Obj<V>, k: string, v: V)
    requires k !in Keys(o)
    ensures Set(o, k, v) == o + [(k, v)]
    decreases |o|
  {
    if |o| > 0 {
      assert Keys(o)[1..] == Keys(o[1..]);
      SetNew(o[1..], k, v);
      assert o == [o[0]] + o[1..];
    }
  }

  /** In a well-formed object, the entry holding a key gives its value. */
  lemma GetAt<V>(o: Obj<V>, i: nat)
    requires WellFormed(o) && i < |o|
    ensures Get(o, o[i].0) == Some(o[i].1)
  {
    var j := GetFound(o, o[i].0);
    assert j == i;
  }

  /** Assigning a key the value it already holds changes nothing. */
  lemma {:induction false} SetCurrent<V>(o: Obj<V>, k: string)
    requires Get(o, k).Some?
    ensures Set(o, k, Get(o, k).value) == o
    decreases |o|
  {
    assert o == [o[0]] + o[1..];
    if o[0].0 != k {
      assert Get(o, k) == Get(o[1..], k);
      SetCurrent(o[1..], k);
      assert Set(o, k, Get(o, k).value) == [o[0]] + Set(o[1..], k, Get(o, k).value);
    }
  }

  /** The second of two assignments to the same key wins. */
  lemma {:induction false} SetSet<V>(o: Obj<V>, k: string, v: V, w: V)
    ensures Set(Set(o, k, v), k, w) == Set(o, k, w)
    decreases |o|
  {
    if |o| > 0 && o[0].0 != k {
      SetSet(o[1..], k, v, w);
    }
  }

  /** `Object.assign(o, src)`: the entries of `src` assigned in order. */
  function Assign<V>(o: Obj<V>, src: Obj<V>): (r: Obj<V>)
    decreases |src|
  {
    if |src| == 0 then o
    else Assign(Set(o, src[0].0, src[0].1), src[1..])
  }

  /** The object built by assigning `kvs` in order to `{}`. */
  function FromEntries<V>(kvs: seq<(string, V)>): (r: Obj<V>)
    decreases |kvs|
  {
    if |kvs| == 0 then [] else Set(FromEntries(kvs[..|kvs| - 1]), kvs[|kvs| - 1].0, kvs[|kvs| - 1].1)
  }

  /** The last value assigned to `k` in `kvs`. */
  function LastValue<V>(kvs: seq<(string, V)>, k: string): Option<V> {
    if |kvs| == 0 then None
    else if kvs[|kvs| - 1].0 == k then Some(kvs[|kvs| - 1].1)
    else LastValue(kvs[..|kvs| - 1], k)
  }

  lemma {:induction false} FromEntriesWellFormed<V>(kvs: seq<(string, V)>)
    ensures WellFormed(FromEntries(kvs))
    decreases |kvs|
  {
    if |kvs| > 0 {
      var p := kvs[..|kvs| - 1];
      FromEntriesWellFormed(p);
      GetSet(FromEntries(p), kvs[|kvs| - 1].0, kvs[|kvs| - 1].1, "");
    }
  }

  /** Building an object from entries: the keys are the keys assigned. */
  lemma {:induction false} FromEntriesKeys<V>(kvs: seq<(string, V)>, k: string)
    ensures (k in Keys(FromEntries(kvs))) <==> exists i | 0 <= i < |kvs| :: kvs[i].0 == k
    decreases |kvs|
  {
    if |kvs| > 0 {
      var p := kvs[..|kvs| - 1];
      FromEntriesKeys(p, k);
      if exists i | 0 <= i < |kvs| :: kvs[i].0 == k {
        var i :| 0 <= i < |kvs| && kvs[i].0 == k;
        if i < |kvs| - 1 {
          assert p[i].0 == k;
        }
      }
      if exists i | 0 <= i < |p| :: p[i].0 == k {
        var i :| 0 <= i < |p| && p[i].0 == k;
        assert kvs[i].0 == k;
      }
    }
  }

  /** Building an object from entries: each key holds its last assignment. */
  lemma {:induction false} FromEntriesGet<V>(kvs: seq<(string, V)>, k: string)
    ensures Get(FromEntries(kvs), k) == LastValue(kvs, k)
    decreases |kvs|
  {
    if |kvs| > 0 {
      var p := kvs[..|kvs| - 1];
      FromEntriesGet(p, k);
      FromEntriesWellFormed(p);
      GetSet(FromEntries(p), kvs[|kvs| - 1].0, kvs[|kvs| - 1].1, k);
    }
  }
}
