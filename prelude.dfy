/** Shared vocabulary: an optional value and the `filter` of JavaScript arrays on sequences. */
module Prelude {

  datatype Option<+T> = None | Some(value: T)

  /** `Array.prototype.filter`: the elements of `s` satisfying `p`, in their original order. */
  function Filter<T>(s: seq<T>, p: T -> bool): (r: seq<T>)
    ensures |r| <= |s|
    ensures forall k :: 0 <= k < |r| ==> p(r[k])
  {
    if s == [] then [] else (if p(s[0]) then [s[0]] else []) + Filter(s[1..], p)
  }

  /** An element is kept exactly when it occurs in `s` and satisfies `p`. */
  lemma FilterMembers<T>(s: seq<T>, p: T -> bool)
    ensures forall x :: x in Filter(s, p) <==> x in s && p(x)
  {
    var r := Filter(s, p);
    var idx := FilterPositions(s, p);
    forall x
      ensures x in r <==> x in s && p(x)
    {
      if x in r {
        var k :| 0 <= k < |r| && r[k] == x;
        assert s[idx[k]] == x;
      }
      if x in s && p(x) {
        var i :| 0 <= i < |s| && s[i] == x;
        assert i in idx;
        var k :| 0 <= k < |idx| && idx[k] == i;
        assert r[k] == x;
      }
    }
  }

  /** `r` consists of the elements of `s` at the strictly increasing positions `idx`. */
  ghost predicate Selects<T>(r: seq<T>, s: seq<T>, idx: seq<int>)
  {
    && |idx| == |r|
    && (forall k :: 0 <= k < |idx| ==> 0 <= idx[k] < |s| && r[k] == s[idx[k]])
    && (forall k, l :: 0 <= k < l < |idx| ==> idx[k] < idx[l])
  }

  /** The positions `Filter` keeps are exactly those whose element satisfies `p`, and it keeps them in order. */
  lemma {:induction false} FilterPositions<T>(s: seq<T>, p: T -> bool) returns (idx: seq<int>)
    ensures Selects(Filter(s, p), s, idx)
    ensures forall i :: 0 <= i < |s| ==> (i in idx <==> p(s[i]))
  {
    if s == [] {
      idx := [];
    } else {
      var rest := FilterPositions(s[1..], p);
      var shifted := Shift(rest);
      ShiftSelects(Filter(s[1..], p), s, rest);
      var head := if p(s[0]) then [s[0]] else [];
      assert Filter(s, p) == head + Filter(s[1..], p);
      idx := (if p(s[0]) then [0] else []) + shifted;
      forall i | 0 <= i < |s|
        ensures i in idx <==> p(s[i])
      {
        if i == 0 {
          assert 0 !in shifted;
        } else {
          assert s[1..][i - 1] == s[i];
        }
      }
      PrependSelects(head, Filter(s[1..], p), s, shifted);
    }
  }

  /** Every position moved one place to the right. */
  function Shift(idx: seq<int>): (r: seq<int>)
    ensures |r| == |idx|
    ensures forall k :: 0 <= k < |idx| ==> r[k] == idx[k] + 1
  {
    seq(|idx|, k requires 0 <= k < |idx| => idx[k] + 1)
  }

  lemma ShiftSelects<T>(r: seq<T>, s: seq<T>, idx: seq<int>)
    requires s != [] && Selects(r, s[1..], idx)
    ensures Selects(r, s, Shift(idx))
    ensures forall i :: 1 <= i < |s| ==> (i in Shift(idx) <==> i - 1 in idx)
    ensures forall k :: 0 <= k < |idx| ==> Shift(idx)[k] >= 1
  {
    var sh := Shift(idx);
    forall i | 1 <= i < |s|
      ensures i in sh <==> i - 1 in idx
    {
      if i - 1 in idx {
        var k :| 0 <= k < |idx| && idx[k] == i - 1;
        assert sh[k] == i;
      }
    }
  }

  lemma PrependSelects<T>(head: seq<T>, r: seq<T>, s: seq<T>, idx: seq<int>)
    requires |head| <= 1 && s != [] && (head != [] ==> head[0] == s[0])
    requires Selects(r, s, idx)
    requires forall k :: 0 <= k < |idx| ==> idx[k] >= 1
    ensures Selects(head + r, s, (if head != [] then [0] else []) + idx)
  {
  }

  /** Filtering distributes over concatenation. */
  lemma {:induction false} FilterAppend<T>(s: seq<T>, t: seq<T>, p: T -> bool)
    ensures Filter(s + t, p) == Filter(s, p) + Filter(t, p)
  {
    if s == [] {
      assert s + t == t;
    } else {
      assert (s + t)[1..] == s[1..] + t;
      FilterAppend(s[1..], t, p);
    }
  }
}
