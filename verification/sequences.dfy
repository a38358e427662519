/** Small sequence utilities the solver's definitions are phrased in. */
module Sequences {

  /** No element occurs twice. */
  predicate Distinct<T(==)>(xs: seq<T>) {
    forall i, j :: 0 <= i < j < |xs| ==> xs[i] != xs[j]
  }

  /** Concatenation of a list of lists, in order (the source's `flatten`). */
  function Flatten<T>(xss: seq<seq<T>>): seq<T>
  {
    if xss == [] then [] else xss[0] + Flatten(xss[1..])
  }

  /** An element is in the concatenation exactly when it is in one of the lists. */
  lemma {:induction false} FlattenMembers<T(!new)>(xss: seq<seq<T>>)
    ensures forall x :: x in Flatten(xss) <==> exists xs :: xs in xss && x in xs
  {
    if xss != [] {
      FlattenMembers(xss[1..]);
      assert forall xs :: xs in xss <==> xs == xss[0] || xs in xss[1..];
    }
  }

  /** Every list of `xss` has length `n`: then element `j` of list `i` sits at `n * i + j`. */
  lemma {:induction false} FlattenIndex<T>(xss: seq<seq<T>>, n: nat, i: nat, j: nat)
    requires forall k :: 0 <= k < |xss| ==> |xss[k]| == n
    requires i < |xss| && j < n
    ensures |Flatten(xss)| == n * |xss|
    ensures n * i + j < |Flatten(xss)|
    ensures Flatten(xss)[n * i + j] == xss[i][j]
  {
    FlattenLength(xss, n);
    MulBound(n, i, |xss|);
    var f := Flatten(xss);
    var rest := Flatten(xss[1..]);
    assert f == xss[0] + rest;
    if i > 0 {
      var k := n * (i - 1) + j;
      FlattenIndex(xss[1..], n, i - 1, j);
      MulStep(n, i);
      assert n * i + j == n + k;
      assert f[n + k] == rest[k];
    }
  }

  lemma MulBound(n: nat, i: nat, m: nat)
    requires i < m
    ensures n * i + n <= n * m
  {
    MulStep(n, m - i);
    assert n * m == n * i + n * (m - i);
  }

  lemma MulStep(n: int, i: int)
    ensures n * i == n + n * (i - 1)
  {
  }

  lemma {:induction false} FlattenLength<T>(xss: seq<seq<T>>, n: nat)
    requires forall k :: 0 <= k < |xss| ==> |xss[k]| == n
    ensures |Flatten(xss)| == n * |xss|
  {
    if xss != [] {
      FlattenLength(xss[1..], n);
    }
  }

  /** The members of `s` in the range `lo..hi`, in ascending order. */
  function Ascending(s: set<int>, lo: int, hi: int): (xs: seq<int>)
    decreases hi - lo
    ensures forall x :: x in xs <==> x in s && lo <= x < hi
    ensures forall i, j :: 0 <= i < j < |xs| ==> xs[i] < xs[j]
  {
    if hi <= lo then []
    else if lo in s then
      var rest := Ascending(s, lo + 1, hi);
      assert forall j :: 0 <= j < |rest| ==> rest[j] in rest;
      [lo] + rest
    else Ascending(s, lo + 1, hi)
  }

  /** The set of elements of a list. */
  function Elems<T>(xs: seq<T>): set<T> {
    set x | x in xs
  }

  /** A list without repetitions has as many elements as the set of its elements. */
  lemma {:induction false} DistinctCard<T>(xs: seq<T>)
    requires Distinct(xs)
    ensures |Elems(xs)| == |xs|
  {
    if xs != [] {
      DistinctCard(xs[1..]);
      assert xs[0] !in Elems(xs[1..]);
      assert Elems(xs) == {xs[0]} + Elems(xs[1..]);
    }
  }

  /** An ascending enumeration of a set has the set's size. */
  lemma AscendingCard(s: set<int>, lo: int, hi: int)
    requires forall x :: x in s ==> lo <= x < hi
    ensures |Ascending(s, lo, hi)| == |s|
  {
    var xs := Ascending(s, lo, hi);
    DistinctCard(xs);
    assert Elems(xs) == s;
  }
}
