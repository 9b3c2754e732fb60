/** Array operations of JavaScript (`indexOf`, `filter`, `slice`) over `seq`. */
module Seqs {

  /** `s.indexOf(x)`: the first position of `x`, or -1. */
  function IndexOf<T(==)>(s: seq<T>, x: T): (i: int)
    ensures -1 <= i < |s|
    ensures i == -1 <==> x !in s
    ensures i >= 0 ==> s[i] == x && forall j | 0 <= j < i :: s[j] != x
  {
    if |s| == 0 then -1
    else if s[0] == x then 0
    else
      var k := IndexOf(s[1..], x);
      if k == -1 then -1 else k + 1
  }

  /** `s.filter(p)`: the elements satisfying `p`, in their original order. */
  function Filter<T(!new)>(s: seq<T>, p: T -> bool): (r: seq<T>)
    ensures |r| <= |s|
    ensures forall k | 0 <= k < |r| :: p(r[k])
    ensures forall x :: x in r <==> x in s && p(x)
  {
    if |s| == 0 then []
    else if p(s[0]) then [s[0]] + Filter(s[1..], p)
    else Filter(s[1..], p)
  }

  /** Filtering distributes over concatenation. */
  lemma {:induction false} FilterAppend<T(!new)>(a: seq<T>, b: seq<T>, p: T -> bool)
    ensures Filter(a + b, p) == Filter(a, p) + Filter(b, p)
    decreases |a|
  {
    if |a| > 0 {
      assert (a + b)[1..] == a[1..] + b;
      FilterAppend(a[1..], b, p);
    } else {
      assert a + b == b;
    }
  }

  /** Filtering with a test every element passes changes nothing. */
  lemma {:induction false} FilterKeepsAll<T(!new)>(s: seq<T>, p: T -> bool)
    requires forall k | 0 <= k < |s| :: p(s[k])
    ensures Filter(s, p) == s
    decreases |s|
  {
    if |s| > 0 {
      FilterKeepsAll(s[1..], p);
      assert s == [s[0]] + s[1..];
    }
  }

  /** Filtering out the one element that fails the test. */
  lemma FilterDropsOne<T(!new)>(before: seq<T>, x: T, after: seq<T>, p: T -> bool)
    requires forall k | 0 <= k < |before| :: p(before[k])
    requires forall k | 0 <= k < |after| :: p(after[k])
    requires !p(x)
    ensures Filter(before + [x] + after, p) == before + after
  {
    FilterKeepsAll(before, p);
    FilterKeepsAll(after, p);
    assert Filter([x], p) == [] by {
      assert [x][1..] == [];
    }
    FilterAppend(before, [x], p);
    assert Filter(before + [x], p) == before;
    FilterAppend(before + [x], after, p);
  }

  /** `s.slice(0, n)`. */
  function Take<T>(s: seq<T>, n: nat): (r: seq<T>)
    ensures |r| == if n < |s| then n else |s|
    ensures r == s[..|r|]
  {
    if n < |s| then s[..n] else s
  }

  /** `s.filter((_, i) => i !== k)`: every element but the one at position `k`. */
  function RemoveAt<T>(s: seq<T>, k: int): (r: seq<T>)
    ensures 0 <= k < |s| ==> |r| == |s| - 1 && r == s[..k] + s[k + 1..]
    ensures !(0 <= k < |s|) ==> r == s
  {
    if 0 <= k < |s| then s[..k] + s[k + 1..] else s
  }

  /** `s.map((x, i) => i === k ? y : x)`: `s` with position `k` replaced by `y`. */
  function UpdateAt<T>(s: seq<T>, k: int, y: T): (r: seq<T>)
    ensures |r| == |s|
    ensures forall i | 0 <= i < |s| :: r[i] == if i == k then y else s[i]
  {
    if 0 <= k < |s| then s[k := y] else s
  }

  /** Position of the first element satisfying `p`, or `|s|` when there is
      none (the loop-with-`break` search of the application). */
  function FindIndex<T>(s: seq<T>, p: T -> bool): (k: nat)
    ensures k <= |s|
    ensures k < |s| ==> p(s[k])
    ensures forall j | 0 <= j < k :: !p(s[j])
  {
    if |s| == 0 then 0 else if p(s[0]) then 0 else 1 + FindIndex(s[1..], p)
  }

  /** The elements of `s` are pairwise distinct. */
  predicate Distinct<T(==)>(s: seq<T>) {
    forall i, j | 0 <= i < j < |s| :: s[i] != s[j]
  }

  /** In a sequence of distinct elements, the element at `i` occurs neither
      before nor after position `i`. */
  lemma DistinctAround<T>(s: seq<T>, i: int)
    requires Distinct(s) && 0 <= i < |s|
    ensures s[i] !in s[..i] && s[i] !in s[i + 1..]
  {
    forall k | 0 <= k < i ensures s[..i][k] != s[i] {
      assert s[..i][k] == s[k];
    }
    var after := s[i + 1..];
    forall k | 0 <= k < |after| ensures after[k] != s[i] {
      assert after[k] == s[i + 1 + k];
    }
  }

  /** Filtering keeps distinct elements distinct. */
  lemma {:induction false} FilterDistinct<T(!new)>(s: seq<T>, p: T -> bool)
    requires Distinct(s)
    ensures Distinct(Filter(s, p))
    decreases |s|
  {
    if |s| > 0 {
      var tail := s[1..];
      assert Distinct(tail) by {
        forall i, j | 0 <= i < j < |tail| ensures tail[i] != tail[j] {
          assert tail[i] == s[i + 1] && tail[j] == s[j + 1];
        }
      }
      FilterDistinct(tail, p);
      var r := Filter(tail, p);
      assert s[0] !in tail by {
        forall k | 0 <= k < |tail| ensures tail[k] != s[0] {
          assert tail[k] == s[k + 1];
        }
      }
      if p(s[0]) {
        forall i, j | 0 <= i < j < |r| + 1 ensures ([s[0]] + r)[i] != ([s[0]] + r)[j] {
          assert ([s[0]] + r)[j] == r[j - 1];
          assert r[j - 1] in r;
          if i > 0 {
            assert ([s[0]] + r)[i] == r[i - 1];
          }
        }
      }
    }
  }
}
