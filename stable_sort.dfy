/** `Array.prototype.sort` with a comparator `(a, b) => key(a) - key(b)`: an in-place stable sort ascending
    by `key` (the language has required stability since ECMAScript 2019). The specification is a functional
    insertion sort, `SortBy`, proved ordered, a permutation and stable; the array method is proved to
    compute it. */
module StableSort {
  import opened Prelude

  predicate SortedBy<T>(s: seq<T>, key: T -> int)
  {
    forall i, j :: 0 <= i < j < |s| ==> key(s[i]) <= key(s[j])
  }

  /** `x` placed after every element of `t` whose key is not greater than its own. */
  function InsertBy<T(==)>(t: seq<T>, x: T, key: T -> int): (r: seq<T>)
    ensures |r| == |t| + 1 && multiset(r) == multiset(t) + multiset{x}
    decreases |t|
  {
    if t == [] then [x]
    else if key(t[|t| - 1]) > key(x) then
      assert t == t[..|t| - 1] + [t[|t| - 1]];
      InsertBy(t[..|t| - 1], x, key) + [t[|t| - 1]]
    else
      t + [x]
  }

  /** Insertion sort, taking the elements from left to right. */
  function SortBy<T(==)>(s: seq<T>, key: T -> int): (r: seq<T>)
    ensures |r| == |s| && multiset(r) == multiset(s)
  {
    if s == [] then []
    else
      assert s == s[..|s| - 1] + [s[|s| - 1]];
      InsertBy(SortBy(s[..|s| - 1], key), s[|s| - 1], key)
  }

  lemma {:induction false} InsertSorted<T>(t: seq<T>, x: T, key: T -> int)
    requires SortedBy(t, key)
    ensures SortedBy(InsertBy(t, x, key), key)
    decreases |t|
  {
    if t != [] && key(t[|t| - 1]) > key(x) {
      var init, last := t[..|t| - 1], t[|t| - 1];
      InsertSorted(init, x, key);
      var u := InsertBy(init, x, key);
      forall i | 0 <= i < |u|
        ensures key(u[i]) <= key(last)
      {
        assert u[i] in multiset(init) + multiset{x};
        if u[i] != x {
          var k :| 0 <= k < |init| && init[k] == u[i];
          assert t[k] == u[i];
        }
      }
    }
  }

  /** The sort's result is ordered by the key. */
  lemma {:induction false} SortBySorted<T>(s: seq<T>, key: T -> int)
    ensures SortedBy(SortBy(s, key), key)
  {
    if s != [] {
      SortBySorted(s[..|s| - 1], key);
      InsertSorted(SortBy(s[..|s| - 1], key), s[|s| - 1], key);
    }
  }

  /** Selects the elements whose key is `v`. */
  function KeyIs<T>(key: T -> int, v: int): T -> bool
  {
    x => key(x) == v
  }

  lemma {:induction false} InsertStable<T>(t: seq<T>, x: T, key: T -> int, v: int)
    ensures Filter(InsertBy(t, x, key), KeyIs(key, v)) == Filter(t + [x], KeyIs(key, v))
    decreases |t|
  {
    if t != [] && key(t[|t| - 1]) > key(x) {
      var init, last := t[..|t| - 1], t[|t| - 1];
      var p := KeyIs(key, v);
      assert t == init + [last];
      assert Filter([x], p) == (if p(x) then [x] else []);
      assert Filter([last], p) == (if p(last) then [last] else []);
      calc {
        Filter(InsertBy(t, x, key), p);
        Filter(InsertBy(init, x, key) + [last], p);
        { FilterAppend(InsertBy(init, x, key), [last], p); }
        Filter(InsertBy(init, x, key), p) + Filter([last], p);
        { InsertStable(init, x, key, v); FilterAppend(init, [x], p); }
        Filter(init, p) + Filter([x], p) + Filter([last], p);
        Filter(init, p) + Filter([last], p) + Filter([x], p);
        { FilterAppend(init, [last], p); FilterAppend(init + [last], [x], p); }
        Filter(t + [x], p);
      }
    }
  }

  /** Stability: the elements sharing any one key keep their relative order. */
  lemma {:induction false} SortByStable<T>(s: seq<T>, key: T -> int, v: int)
    ensures Filter(SortBy(s, key), KeyIs(key, v)) == Filter(s, KeyIs(key, v))
  {
    if s != [] {
      var init, last := s[..|s| - 1], s[|s| - 1];
      SortByStable(init, key, v);
      InsertStable(SortBy(init, key), last, key, v);
      FilterAppend(SortBy(init, key), [last], KeyIs(key, v));
      FilterAppend(init, [last], KeyIs(key, v));
      assert s == init + [last];
    }
  }

  /** `InsertBy` puts `x` just after the last element whose key does not exceed its own. */
  lemma {:induction false} InsertByAt<T>(t: seq<T>, x: T, key: T -> int, j: int)
    requires 0 <= j <= |t|
    requires j == 0 || key(t[j - 1]) <= key(x)
    requires forall k :: j <= k < |t| ==> key(t[k]) > key(x)
    ensures InsertBy(t, x, key) == t[..j] + [x] + t[j..]
    decreases |t|
  {
    if j < |t| {
      var init, last := t[..|t| - 1], t[|t| - 1];
      assert InsertBy(t, x, key) == InsertBy(init, x, key) + [last];
      InsertByAt(init, x, key, j);
      SplitBeforeLast(t, x, j);
    } else {
      assert t[..j] == t;
    }
  }

  lemma SplitBeforeLast<T>(t: seq<T>, x: T, j: int)
    requires 0 <= j < |t|
    ensures t[..|t| - 1][..j] + [x] + t[..|t| - 1][j..] + [t[|t| - 1]] == t[..j] + [x] + t[j..]
  {
    assert t[..|t| - 1][..j] == t[..j];
    assert t[..|t| - 1][j..] + [t[|t| - 1]] == t[j..];
  }

  /** The inner loop of the insertion sort: shifts one place right the elements at the end of `a[..i]`
      whose key is strictly greater than that of `x`, and returns the slot this opens. */
  method ShiftGreater<T>(a: array<T>, i: int, x: T, key: T -> int) returns (j: int)
    requires 0 <= i < a.Length
    modifies a
    ensures 0 <= j <= i
    ensures forall k :: 0 <= k < j ==> a[k] == old(a[k])
    ensures a[j] == old(a[j])
    ensures forall k :: j < k <= i ==> a[k] == old(a[k - 1])
    ensures forall k :: i < k < a.Length ==> a[k] == old(a[k])
    ensures forall k :: j <= k < i ==> key(old(a[k])) > key(x)
    ensures j == 0 || key(old(a[j - 1])) <= key(x)
  {
    j := i;
    while j > 0 && key(a[j - 1]) > key(x)
      invariant 0 <= j <= i
      invariant forall k :: 0 <= k < j ==> a[k] == old(a[k])
      invariant a[j] == old(a[j])
      invariant forall k :: j < k <= i ==> a[k] == old(a[k - 1])
      invariant forall k :: i < k < a.Length ==> a[k] == old(a[k])
      invariant forall k :: j <= k < i ==> key(old(a[k])) > key(x)
    {
      a[j] := a[j - 1];
      j := j - 1;
    }
  }

  /** One outer step of the insertion sort: `a[i]` inserted into the sorted prefix `a[..i]`. */
  method InsertAt<T>(a: array<T>, i: int, key: T -> int)
    requires 0 <= i < a.Length
    modifies a
    ensures a[..i + 1] == InsertBy(old(a[..i]), old(a[i]), key)
    ensures a[i + 1..] == old(a[i + 1..])
  {
    var x := a[i];
    ghost var sorted := a[..i];
    var j := ShiftGreater(a, i, x, key);
    InsertByAt(sorted, x, key, j);
    a[j] := x;
    Placed(a[..], sorted, x, j);
    assert a[i + 1..] == old(a[i + 1..]);
  }

  /** The array after the inner loop, seen as a sequence. */
  lemma Placed<T>(s: seq<T>, sorted: seq<T>, x: T, j: int)
    requires 0 <= j <= |sorted| < |s|
    requires forall k :: 0 <= k < j ==> s[k] == sorted[k]
    requires s[j] == x
    requires forall k :: j < k <= |sorted| ==> s[k] == sorted[k - 1]
    ensures s[..|sorted| + 1] == sorted[..j] + [x] + sorted[j..]
  {
    var result := sorted[..j] + [x] + sorted[j..];
    forall k | 0 <= k <= |sorted|
      ensures s[k] == result[k]
    {
      if k < j {
        assert result[k] == sorted[k];
      } else if k > j {
        assert result[k] == sorted[k - 1];
      }
    }
  }

  lemma SortByStep<T>(s: seq<T>, i: int, key: T -> int)
    requires 0 <= i < |s|
    ensures SortBy(s[..i + 1], key) == InsertBy(SortBy(s[..i], key), s[i], key)
  {
    assert s[..i + 1][..i] == s[..i];
  }

  /** Sorts `a` in place with an insertion sort that moves an element left only past strictly greater
      keys, so that equal keys stay in their original order. */
  method InsertionSortBy<T>(a: array<T>, key: T -> int)
    modifies a
    ensures a[..] == SortBy(old(a[..]), key)
  {
    ghost var orig := a[..];
    var i := 0;
    while i < a.Length
      invariant 0 <= i <= a.Length
      invariant a[..i] == SortBy(orig[..i], key)
      invariant a[i..] == orig[i..]
    {
      assert a[i] == orig[i] by { assert a[i..][0] == orig[i..][0]; }
      SortByStep(orig, i, key);
      InsertAt(a, i, key);
      assert a[i + 1..] == orig[i + 1..] by { assert orig[i + 1..] == orig[i..][1..]; }
      i := i + 1;
    }
    assert orig[..a.Length] == orig;
  }
}
