/** Shared vocabulary of the storefront model: optional values, decoded JSON
    values and order-preserving filtering of lists. */
module Common {

  datatype Option<+T> = None | Some(value: T)

  /** A decoded JSON value, as produced by PHP's json_decode(text, true) or by
      JavaScript's JSON.parse. Numbers are integers; object members keep their
      textual order, duplicates included. */
  datatype Json =
    | JNull
    | JBool(b: bool)
    | JNum(n: int)
    | JStr(s: string)
    | JArr(items: seq<Json>)
    | JObj(entries: seq<(string, Json)>)

  /** The elements of xs for which keep holds, in their original order. This is
      JavaScript's Array.prototype.filter and PHP's array_values(array_filter(...)). */
  function Filter<T(==,!new)>(xs: seq<T>, keep: T -> bool): (r: seq<T>)
    ensures |r| <= |xs|
    ensures forall x {:trigger multiset(r)[x]} :: multiset(r)[x] == if keep(x) then multiset(xs)[x] else 0
    ensures forall x {:trigger x in r} :: x in r <==> x in xs && keep(x)
  {
    if xs == [] then []
    else
      var rest := Filter(xs[1..], keep);
      assert xs == [xs[0]] + xs[1..];
      assert forall x :: x in xs <==> x == xs[0] || x in xs[1..];
      if keep(xs[0]) then [xs[0]] + rest else rest
  }

  /** Filtering a concatenation filters each part: the kept elements keep their relative order. */
  lemma {:induction false} FilterConcat<T(!new)>(a: seq<T>, b: seq<T>, keep: T -> bool)
    ensures Filter(a + b, keep) == Filter(a, keep) + Filter(b, keep)
  {
    if a == [] {
      assert a + b == b;
    } else {
      assert (a + b)[1..] == a[1..] + b;
      FilterConcat(a[1..], b, keep);
    }
  }

  /** Filtering is the identity exactly on lists whose every element is kept. */
  lemma {:induction false} FilterIdentity<T(!new)>(xs: seq<T>, keep: T -> bool)
    ensures Filter(xs, keep) == xs <==> forall i :: 0 <= i < |xs| ==> keep(xs[i])
  {
    if xs != [] {
      FilterIdentity(xs[1..], keep);
      if Filter(xs, keep) == xs {
        assert keep(xs[0]);
      }
      if forall i :: 0 <= i < |xs| ==> keep(xs[i]) {
        assert forall i :: 0 <= i < |xs[1..]| ==> keep(xs[1..][i]) by {
          forall i | 0 <= i < |xs[1..]| ensures keep(xs[1..][i]) {
            assert xs[1..][i] == xs[i + 1];
          }
        }
      }
    }
  }

  /** Two filters can be applied in either order. */
  lemma {:induction false} FilterCommute<T(!new)>(xs: seq<T>, a: T -> bool, b: T -> bool)
    ensures Filter(Filter(xs, a), b) == Filter(Filter(xs, b), a)
  {
    if xs != [] {
      FilterCommute(xs[1..], a, b);
      var x := xs[0];
      var ra := Filter(xs[1..], a);
      var rb := Filter(xs[1..], b);
      assert ([x] + ra)[1..] == ra;
      assert ([x] + rb)[1..] == rb;
    }
  }

  /** The positions of xs whose element keep accepts, in increasing order. */
  function KeptIndices<T>(xs: seq<T>, keep: T -> bool): (ix: seq<nat>)
    ensures forall k :: 0 <= k < |ix| ==> ix[k] < |xs| && keep(xs[ix[k]])
    ensures forall k, l :: 0 <= k < l < |ix| ==> ix[k] < ix[l]
    ensures forall i :: 0 <= i < |xs| && keep(xs[i]) ==> i in ix
  {
    if xs == [] then []
    else
      var n := |xs| - 1;
      var front := KeptIndices(xs[..n], keep);
      assert forall i :: 0 <= i < n ==> xs[..n][i] == xs[i];
      if keep(xs[n]) then front + [n] else front
  }

  /** r lists, in order, exactly the elements of xs at the positions keep
      accepts: a subsequence of xs with nothing else left out. */
  predicate KeptInOrder<T(==)>(r: seq<T>, xs: seq<T>, keep: T -> bool) {
    var ix := KeptIndices(xs, keep);
    |r| == |ix| && forall k :: 0 <= k < |r| ==> r[k] == xs[ix[k]]
  }

  /** Filter keeps the accepted elements in their original order. */
  lemma {:induction false} FilterKeptInOrder<T(!new)>(xs: seq<T>, keep: T -> bool)
    ensures KeptInOrder(Filter(xs, keep), xs, keep)
  {
    if xs != [] {
      var n := |xs| - 1;
      var front := xs[..n];
      FilterKeptInOrder(front, keep);
      assert xs == front + [xs[n]];
      FilterConcat(front, [xs[n]], keep);
      assert Filter([xs[n]], keep) == if keep(xs[n]) then [xs[n]] else [] by {
        assert [xs[n]][1..] == [];
      }
      assert forall i :: 0 <= i < n ==> front[i] == xs[i];
    }
  }

  /** The value of the last member named key of a JSON object (JSON.parse keeps
      the last of duplicated names), or None when there is no such member. */
  function Lookup(entries: seq<(string, Json)>, key: string): (r: Option<Json>)
    ensures r.None? <==> forall i :: 0 <= i < |entries| ==> entries[i].0 != key
    ensures r.Some? ==> exists i :: 0 <= i < |entries| && entries[i] == (key, r.value)
  {
    if entries == [] then None
    else
      var last := entries[|entries| - 1];
      if last.0 == key then Some(last.1)
      else
        var r := Lookup(entries[..|entries| - 1], key);
        assert forall i :: 0 <= i < |entries| - 1 ==> entries[..|entries| - 1][i] == entries[i];
        r
  }
}
