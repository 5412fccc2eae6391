/** A stable insertion sort over any total preorder. The source sorts with Python's `sorted`,
    SQL's `ORDER BY` and pandas' `sort_values`; each use states only what its own sort promises
    (a permutation in the requested order), and this sort is one order that meets it. */
module Sorting {

  /** `le` is total and transitive, as a sort key comparison is. */
  ghost predicate TotalPreorder<T(!new)>(le: (T, T) -> bool) {
    && (forall a, b :: le(a, b) || le(b, a))
    && (forall a, b, c :: le(a, b) && le(b, c) ==> le(a, c))
  }

  /** Every element is `le` every later one. */
  ghost predicate SortedBy<T>(s: seq<T>, le: (T, T) -> bool) {
    forall i, j :: 0 <= i < j < |s| ==> le(s[i], s[j])
  }

  /** Inserts `x` after every element it is not strictly below. */
  function Insert<T(!new)>(x: T, s: seq<T>, le: (T, T) -> bool): (r: seq<T>)
    requires TotalPreorder(le)
    requires SortedBy(s, le)
    ensures SortedBy(r, le)
    ensures multiset(r) == multiset(s) + multiset{x}
    ensures |r| == |s| + 1
  {
    if |s| == 0 then [x]
    else if le(x, s[0]) && !le(s[0], x) then
      assert forall j :: 0 <= j < |s| ==> le(x, s[j]);
      PrependSorted(x, s, le);
      [x] + s
    else
      var tail := Insert(x, s[1..], le);
      HeadBelowAll(s[0], x, s[1..], tail, le);
      PrependSorted(s[0], tail, le);
      assert s == [s[0]] + s[1..];
      [s[0]] + tail
  }

  /** An element below every element of a sorted sequence can go in front of it. */
  lemma PrependSorted<T>(h: T, s: seq<T>, le: (T, T) -> bool)
    requires SortedBy(s, le)
    requires forall k :: 0 <= k < |s| ==> le(h, s[k])
    ensures SortedBy([h] + s, le)
  {
    var r := [h] + s;
    forall i, j | 0 <= i < j < |r| ensures le(r[i], r[j]) {
      assert r[j] == s[j - 1];
      if 0 < i {
        assert r[i] == s[i - 1];
      }
    }
  }

  /** An element below `x` and below every element of `s` is below every element of a
      sequence holding exactly `s` and `x`. */
  lemma HeadBelowAll<T(!new)>(h: T, x: T, s: seq<T>, tail: seq<T>, le: (T, T) -> bool)
    requires le(h, x)
    requires forall j :: 0 <= j < |s| ==> le(h, s[j])
    requires multiset(tail) == multiset(s) + multiset{x}
    ensures forall k :: 0 <= k < |tail| ==> le(h, tail[k])
  {
    forall k | 0 <= k < |tail|
      ensures le(h, tail[k])
    {
      assert tail[k] in multiset(tail);
      if tail[k] != x {
        assert tail[k] in multiset(s);
        var j :| 0 <= j < |s| && s[j] == tail[k];
      }
    }
  }

  /** `s` sorted by `le`; equal elements keep their input order. */
  function InsertionSort<T(!new)>(s: seq<T>, le: (T, T) -> bool): (r: seq<T>)
    requires TotalPreorder(le)
    ensures SortedBy(r, le)
    ensures multiset(r) == multiset(s)
    ensures |r| == |s|
  {
    if |s| == 0 then []
    else
      assert s == s[..|s| - 1] + [s[|s| - 1]];
      Insert(s[|s| - 1], InsertionSort(s[..|s| - 1], le), le)
  }
}
