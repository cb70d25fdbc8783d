/** Ordering of records by an integer key, as SQL `ORDER BY key ASC` does.
    The order of records with equal keys is not part of any contract here. */
module Sorting {

  predicate SortedBy<T>(s: seq<T>, key: T -> int) {
    forall i, j :: 0 <= i < j < |s| ==> key(s[i]) <= key(s[j])
  }

  /** Inserts x into a sorted list before the first element with a key at least key(x). */
  function Insert<T(==,!new)>(x: T, s: seq<T>, key: T -> int): (r: seq<T>)
    requires SortedBy(s, key)
    ensures SortedBy(r, key)
    ensures multiset(r) == multiset(s) + multiset{x}
    ensures |r| == |s| + 1
  {
    if s == [] then [x]
    else if key(x) <= key(s[0]) then [x] + s
    else
      var rest := Insert(x, s[1..], key);
      assert s == [s[0]] + s[1..];
      LowerBoundKept(rest, x, s[1..], key, key(s[0]));
      ConsSorted(s[0], rest, key);
      [s[0]] + rest
  }

  /** A list holding exactly x and the elements of s respects every lower
      bound that x and the elements of s respect. */
  lemma LowerBoundKept<T(!new)>(r: seq<T>, x: T, s: seq<T>, key: T -> int, bound: int)
    requires multiset(r) == multiset(s) + multiset{x}
    requires bound <= key(x) && forall k :: 0 <= k < |s| ==> bound <= key(s[k])
    ensures forall k :: 0 <= k < |r| ==> bound <= key(r[k])
  {
    forall k | 0 <= k < |r| ensures bound <= key(r[k]) {
      assert r[k] in multiset(r);
      if r[k] != x {
        assert r[k] in multiset(s);
        var j :| 0 <= j < |s| && s[j] == r[k];
      }
    }
  }

  /** A head no larger than any element of a sorted tail gives a sorted list. */
  lemma ConsSorted<T>(h: T, t: seq<T>, key: T -> int)
    requires SortedBy(t, key) && forall k :: 0 <= k < |t| ==> key(h) <= key(t[k])
    ensures SortedBy([h] + t, key)
  {
    var s := [h] + t;
    assert forall k :: 1 <= k < |s| ==> s[k] == t[k - 1];
  }

  /** The first n elements of a sorted list are sorted and taken from it. */
  lemma SortedPrefix<T>(s: seq<T>, n: nat, key: T -> int)
    requires SortedBy(s, key) && n <= |s|
    ensures SortedBy(s[..n], key)
    ensures multiset(s[..n]) <= multiset(s)
  {
    assert s == s[..n] + s[n..];
  }

  /** Insertion sort: a permutation of s in non-decreasing key order. */
  function SortBy<T(==,!new)>(s: seq<T>, key: T -> int): (r: seq<T>)
    ensures SortedBy(r, key)
    ensures multiset(r) == multiset(s)
    ensures |r| == |s|
  {
    if s == [] then []
    else
      assert s == [s[0]] + s[1..];
      Insert(s[0], SortBy(s[1..], key), key)
  }
}
