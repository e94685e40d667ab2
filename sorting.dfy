/**
 * Stable sorting by an integer key, as Rust's `slice::sort_by` does it, and
 * in-place reversal, as `Vec::reverse` does it.
 *
 * `SortBy` is the specification: a left-to-right insertion sort in which every
 * new element is placed after all elements whose key is not larger. Its lemmas
 * give the three facts that pin a stable sort down: it is a permutation, it is
 * ordered by key, and among elements of equal key the input order survives.
 * `SortInPlace` and `ReverseInPlace` are the in-place algorithms on arrays,
 * proved to compute `SortBy` and `Reverse`.
 */
module Sorting {
  import opened Options

  function Last<T>(s: seq<T>): T
    requires |s| > 0
  {
    s[|s| - 1]
  }

  /** Every earlier element has a key no larger than every later one. */
  ghost predicate SortedBy<T>(s: seq<T>, key: T -> int) {
    forall i, j :: 0 <= i < j < |s| ==> key(s[i]) <= key(s[j])
  }

  /** Inserts `x` into `t` right after the last element whose key is at most `key(x)`. */
  function InsertBy<T>(t: seq<T>, x: T, key: T -> int): (r: seq<T>)
    ensures |r| == |t| + 1
  {
    if t == [] then [x]
    else if key(Last(t)) <= key(x) then t + [x]
    else InsertBy(t[..|t| - 1], x, key) + [Last(t)]
  }

  /** Stable sort of `s` by ascending `key`. */
  function SortBy<T>(s: seq<T>, key: T -> int): (r: seq<T>)
    ensures |r| == |s|
  {
    if s == [] then [] else InsertBy(SortBy(s[..|s| - 1], key), Last(s), key)
  }

  /** The elements of `s` whose key is `v`, in their order in `s`. */
  function WithKey<T>(s: seq<T>, key: T -> int, v: int): (r: seq<T>)
    ensures |r| <= |s|
    ensures forall i :: 0 <= i < |r| ==> key(r[i]) == v
  {
    if s == [] then []
    else (if key(s[0]) == v then [s[0]] else []) + WithKey(s[1..], key, v)
  }

  /** `s` read backwards. */
  function Reverse<T>(s: seq<T>): (r: seq<T>)
    ensures |r| == |s|
  {
    if s == [] then [] else [Last(s)] + Reverse(s[..|s| - 1])
  }

  /** The first element of `s` satisfying `p`, if any. */
  function FirstWhere<T>(s: seq<T>, p: T -> bool): (r: Option<T>)
    ensures r.None? <==> forall i :: 0 <= i < |s| ==> !p(s[i])
    ensures r.Some? ==> exists i :: 0 <= i < |s| && s[i] == r.value && p(s[i]) &&
                                    forall j :: 0 <= j < i ==> !p(s[j])
  {
    if s == [] then None
    else if p(s[0]) then Some(s[0])
    else
      var r := FirstWhere(s[1..], p);
      assert forall j :: 1 <= j < |s| ==> s[j] == s[1..][j - 1];
      r
  }

  /**
   * Reference selection: scanning `s` from the front, keep the first element
   * satisfying `p` and replace it only by one with a strictly smaller key.
   */
  function BestOf<T>(s: seq<T>, key: T -> int, p: T -> bool): Option<T> {
    if s == [] then None
    else
      var b := BestOf(s[..|s| - 1], key, p);
      if p(Last(s)) && (b.None? || key(Last(s)) < key(b.value)) then Some(Last(s)) else b
  }

  /** Index `i` holds an element satisfying `p` of least key, and no earlier one has that key. */
  ghost predicate IsEarliestMin<T>(s: seq<T>, key: T -> int, p: T -> bool, i: int) {
    && 0 <= i < |s|
    && p(s[i])
    && (forall j :: 0 <= j < |s| && p(s[j]) ==> key(s[i]) <= key(s[j]))
    && (forall j :: 0 <= j < i && p(s[j]) ==> key(s[i]) < key(s[j]))
  }

  // ---------------------------------------------------------------------------
  // Properties of the specification functions

  lemma {:induction false} InsertByPermutation<T>(t: seq<T>, x: T, key: T -> int)
    ensures multiset(InsertBy(t, x, key)) == multiset(t) + multiset{x}
  {
    if t != [] && key(Last(t)) > key(x) {
      assert t == t[..|t| - 1] + [Last(t)];
      InsertByPermutation(t[..|t| - 1], x, key);
    }
  }

  /** The stable sort is a permutation of its input. */
  lemma {:induction false} SortByPermutation<T>(s: seq<T>, key: T -> int)
    ensures multiset(SortBy(s, key)) == multiset(s)
  {
    if s != [] {
      assert s == s[..|s| - 1] + [Last(s)];
      SortByPermutation(s[..|s| - 1], key);
      InsertByPermutation(SortBy(s[..|s| - 1], key), Last(s), key);
    }
  }

  /** Inserting under a common upper bound of the keys keeps that bound. */
  lemma {:induction false} InsertByBounded<T>(t: seq<T>, x: T, key: T -> int, b: int)
    requires forall i :: 0 <= i < |t| ==> key(t[i]) <= b
    requires key(x) <= b
    ensures forall i :: 0 <= i < |InsertBy(t, x, key)| ==> key(InsertBy(t, x, key)[i]) <= b
  {
    if t != [] && key(Last(t)) > key(x) {
      InsertByBounded(t[..|t| - 1], x, key, b);
    }
  }

  lemma {:induction false} InsertBySorted<T>(t: seq<T>, x: T, key: T -> int)
    requires SortedBy(t, key)
    ensures SortedBy(InsertBy(t, x, key), key)
  {
    if t != [] && key(Last(t)) > key(x) {
      var t' := t[..|t| - 1];
      InsertBySorted(t', x, key);
      InsertByBounded(t', x, key, key(Last(t)));
      var r' := InsertBy(t', x, key);
      var r := r' + [Last(t)];
      forall i, j | 0 <= i < j < |r| ensures key(r[i]) <= key(r[j]) {
        assert r[i] == r'[i];
        if j < |r| - 1 {
          assert r[j] == r'[j];
        }
      }
    }
  }

  /** The stable sort orders its output by key. */
  lemma {:induction false} SortBySorted<T>(s: seq<T>, key: T -> int)
    ensures SortedBy(SortBy(s, key), key)
  {
    if s != [] {
      SortBySorted(s[..|s| - 1], key);
      InsertBySorted(SortBy(s[..|s| - 1], key), Last(s), key);
    }
  }

  lemma {:induction false} WithKeyAppend<T>(a: seq<T>, b: seq<T>, key: T -> int, v: int)
    ensures WithKey(a + b, key, v) == WithKey(a, key, v) + WithKey(b, key, v)
  {
    if a != [] {
      assert (a + b)[0] == a[0] && (a + b)[1..] == a[1..] + b;
      WithKeyAppend(a[1..], b, key, v);
    } else {
      assert a + b == b;
    }
  }

  lemma {:induction false} WithKeyInsert<T>(t: seq<T>, x: T, key: T -> int, v: int)
    ensures WithKey(InsertBy(t, x, key), key, v) ==
            WithKey(t, key, v) + (if key(x) == v then [x] else [])
  {
    if t == [] {
    } else if key(Last(t)) <= key(x) {
      WithKeyAppend(t, [x], key, v);
    } else {
      var t' := t[..|t| - 1];
      assert t == t' + [Last(t)];
      WithKeyInsert(t', x, key, v);
      WithKeyAppend(InsertBy(t', x, key), [Last(t)], key, v);
      WithKeyAppend(t', [Last(t)], key, v);
    }
  }

  /** Stability: the elements of any one key keep their input order. */
  lemma {:induction false} SortByStable<T>(s: seq<T>, key: T -> int, v: int)
    ensures WithKey(SortBy(s, key), key, v) == WithKey(s, key, v)
  {
    if s != [] {
      var s' := s[..|s| - 1];
      assert s == s' + [Last(s)];
      SortByStable(s', key, v);
      WithKeyInsert(SortBy(s', key), Last(s), key, v);
      WithKeyAppend(s', [Last(s)], key, v);
    }
  }

  /** Position `k` of the reversal holds position `|s| - 1 - k` of the input. */
  lemma {:induction false} ReverseAt<T>(s: seq<T>, k: int)
    requires 0 <= k < |s|
    ensures Reverse(s)[k] == s[|s| - 1 - k]
  {
    if k > 0 {
      ReverseAt(s[..|s| - 1], k - 1);
    }
  }

  lemma ReverseMultiset<T>(s: seq<T>)
    ensures multiset(Reverse(s)) == multiset(s)
  {
    if s != [] {
      assert s == s[..|s| - 1] + [Last(s)];
      ReverseMultiset(s[..|s| - 1]);
    }
  }

  lemma {:induction false} WithKeyReverse<T>(s: seq<T>, key: T -> int, v: int)
    ensures WithKey(Reverse(s), key, v) == Reverse(WithKey(s, key, v))
  {
    if s != [] {
      var s' := s[..|s| - 1];
      assert s == s' + [Last(s)];
      WithKeyReverse(s', key, v);
      assert [Last(s)][1..] == [];
      assert WithKey([Last(s)], key, v) == if key(Last(s)) == v then [Last(s)] else [];
      WithKeyAppend([Last(s)], Reverse(s'), key, v);
      WithKeyAppend(s', [Last(s)], key, v);
      var w := WithKey(s, key, v);
      if key(Last(s)) == v {
        assert w == WithKey(s', key, v) + [Last(s)];
        assert w[..|w| - 1] == WithKey(s', key, v) && Last(w) == Last(s);
        assert Reverse(w) == [Last(s)] + Reverse(WithKey(s', key, v));
      } else {
        assert w == WithKey(s', key, v);
      }
    }
  }

  lemma {:induction false} FirstWhereAppend<T>(a: seq<T>, b: seq<T>, p: T -> bool)
    ensures FirstWhere(a + b, p) == if FirstWhere(a, p).Some? then FirstWhere(a, p) else FirstWhere(b, p)
  {
    if a != [] {
      assert (a + b)[0] == a[0] && (a + b)[1..] == a[1..] + b;
      FirstWhereAppend(a[1..], b, p);
    } else {
      assert a + b == b;
    }
  }

  lemma {:induction false} FirstWhereInsert<T>(t: seq<T>, x: T, key: T -> int, p: T -> bool)
    requires SortedBy(t, key)
    ensures var f := FirstWhere(t, p);
            FirstWhere(InsertBy(t, x, key), p) ==
            if p(x) && (f.None? || key(x) < key(f.value)) then Some(x) else f
  {
    if t == [] {
    } else if key(Last(t)) <= key(x) {
      FirstWhereAppend(t, [x], p);
    } else {
      var t' := t[..|t| - 1];
      assert t == t' + [Last(t)];
      assert SortedBy(t', key);
      FirstWhereInsert(t', x, key, p);
      FirstWhereAppend(InsertBy(t', x, key), [Last(t)], p);
      FirstWhereAppend(t', [Last(t)], p);
    }
  }

  /** Taking the first element satisfying `p` after a stable sort is the reference selection. */
  lemma {:induction false} FirstWhereSortBy<T>(s: seq<T>, key: T -> int, p: T -> bool)
    ensures FirstWhere(SortBy(s, key), p) == BestOf(s, key, p)
  {
    if s != [] {
      FirstWhereSortBy(s[..|s| - 1], key, p);
      SortBySorted(s[..|s| - 1], key);
      FirstWhereInsert(SortBy(s[..|s| - 1], key), Last(s), key, p);
    }
  }

  /** The reference selection picks an element of least key, the earliest one among ties. */
  lemma {:induction false} BestOfIsEarliestMin<T>(s: seq<T>, key: T -> int, p: T -> bool)
    ensures BestOf(s, key, p).None? <==> forall i :: 0 <= i < |s| ==> !p(s[i])
    ensures BestOf(s, key, p).Some? ==>
              exists i :: IsEarliestMin(s, key, p, i) && s[i] == BestOf(s, key, p).value
  {
    if s != [] {
      var s' := s[..|s| - 1];
      var y := Last(s);
      BestOfIsEarliestMin(s', key, p);
      var b := BestOf(s', key, p);
      assert forall j :: 0 <= j < |s'| ==> s[j] == s'[j];
      if p(y) && (b.None? || key(y) < key(b.value)) {
        if b.Some? {
          var i' :| IsEarliestMin(s', key, p, i') && s'[i'] == b.value;
        }
        assert IsEarliestMin(s, key, p, |s| - 1);
      } else if b.Some? {
        var i' :| IsEarliestMin(s', key, p, i') && s'[i'] == b.value;
        assert IsEarliestMin(s, key, p, i');
      }
    }
  }

  // ---------------------------------------------------------------------------
  // In-place algorithms

  /** `InsertBy` on a sorted prefix splits `t` at the insertion point `j`. */
  lemma {:induction false} InsertByAt<T>(t: seq<T>, x: T, key: T -> int, j: int)
    requires 0 <= j <= |t|
    requires j == 0 || key(t[j - 1]) <= key(x)
    requires forall k :: j <= k < |t| ==> key(t[k]) > key(x)
    ensures InsertBy(t, x, key) == t[..j] + [x] + t[j..]
    decreases |t|
  {
    if j < |t| {
      var t' := t[..|t| - 1];
      assert key(Last(t)) > key(x);
      assert InsertBy(t, x, key) == InsertBy(t', x, key) + [Last(t)];
      assert forall k :: j <= k < |t'| ==> t'[k] == t[k];
      assert j > 0 ==> t'[j - 1] == t[j - 1];
      InsertByAt(t', x, key, j);
      assert t'[..j] == t[..j];
      assert t[j..] == t'[j..] + [Last(t)];
      assert t'[..j] + [x] + t'[j..] + [Last(t)] == t[..j] + [x] + (t'[j..] + [Last(t)]);
    } else if t != [] {
      assert Last(t) == t[j - 1];
      assert t[..j] == t && t[j..] == [];
    }
  }

  /**
   * One step of insertion sort: with `a[..i]` sorted, moves `a[i]` left past
   * every element of larger key.
   */
  method InsertLast<T>(a: array<T>, i: int, key: T -> int)
    requires 0 <= i < a.Length
    modifies a
    ensures a[..i + 1] == InsertBy(old(a[..i]), old(a[i]), key)
    ensures a[i + 1..] == old(a[i + 1..])
  {
    var x := a[i];
    ghost var t := a[..i];
    var j := i;
    while j > 0 && key(a[j - 1]) > key(x)
      invariant 0 <= j <= i
      invariant forall k :: 0 <= k < j ==> a[k] == t[k]
      invariant forall k :: j < k <= i ==> a[k] == t[k - 1]
      invariant forall k :: i < k < a.Length ==> a[k] == old(a[k])
      invariant forall k :: j <= k < i ==> key(t[k]) > key(x)
    {
      a[j] := a[j - 1];
      j := j - 1;
    }
    a[j] := x;
    InsertByAt(t, x, key, j);
    assert a[..i + 1] == t[..j] + [x] + t[j..] by {
      forall k | 0 <= k <= i ensures a[k] == (t[..j] + [x] + t[j..])[k] {
        if k < j {
        } else if k == j {
        } else {
          assert (t[..j] + [x] + t[j..])[k] == t[k - 1];
        }
      }
    }
  }

  /** Stable insertion sort of `a` by `key`, in place (Rust's `sort_by`). */
  method SortInPlace<T>(a: array<T>, key: T -> int)
    modifies a
    ensures a[..] == SortBy(old(a[..]), key)
  {
    ghost var s := a[..];
    var i := 0;
    while i < a.Length
      invariant 0 <= i <= a.Length
      invariant a[..i] == SortBy(s[..i], key)
      invariant a[i..] == s[i..]
    {
      InsertLast(a, i, key);
      assert s[..i + 1][..i] == s[..i];
      i := i + 1;
    }
    assert s[..a.Length] == s;
  }

  /** Reverses `a` in place (Rust's `Vec::reverse`). */
  method ReverseInPlace<T>(a: array<T>)
    modifies a
    ensures a[..] == Reverse(old(a[..]))
  {
    ghost var s := a[..];
    var lo, hi := 0, a.Length - 1;
    while lo < hi
      invariant 0 <= lo <= hi + 1 && lo + hi == a.Length - 1
      invariant forall k :: 0 <= k < lo ==> a[k] == s[a.Length - 1 - k] && a[a.Length - 1 - k] == s[k]
      invariant forall k :: lo <= k <= hi ==> a[k] == s[k]
    {
      a[lo], a[hi] := a[hi], a[lo];
      lo, hi := lo + 1, hi - 1;
    }
    forall k | 0 <= k < a.Length
      ensures a[k] == Reverse(s)[k]
    {
      ReverseAt(s, k);
    }
  }
}
