/** Sequence helpers shared by the stores and the lending service: filtering
    in order (Java's `stream().filter(..).toList()`) and the iteration order
    of a hash map's key set. */
module Sequences {

  /** `a` can be obtained from `b` by deleting elements, so `a` keeps the
      relative order `b` gives its elements. */
  predicate IsSubsequence<T(==)>(a: seq<T>, b: seq<T>)
    decreases |b|
  {
    if a == [] then true
    else if b == [] then false
    else if a[0] == b[0] then IsSubsequence(a[1..], b[1..])
    else IsSubsequence(a, b[1..])
  }

  /** The elements of `s` that satisfy `p`, in the order `s` lists them. */
  function Filter<T(==)>(s: seq<T>, p: T -> bool): (r: seq<T>)
    ensures |r| <= |s|
    ensures forall i :: 0 <= i < |r| ==> r[i] in s && p(r[i])
    ensures forall i :: 0 <= i < |s| && p(s[i]) ==> s[i] in r
  {
    if s == [] then []
    else if p(s[0]) then [s[0]] + Filter(s[1..], p)
    else Filter(s[1..], p)
  }

  /** Filtering keeps every occurrence of a passing element and drops every
      occurrence of a failing one. */
  lemma {:induction false} FilterKeepsEveryOccurrence<T(!new)>(s: seq<T>, p: T -> bool)
    ensures forall x :: multiset(Filter(s, p))[x] == (if p(x) then multiset(s)[x] else 0)
  {
    if s != [] {
      assert s == [s[0]] + s[1..];
      FilterKeepsEveryOccurrence(s[1..], p);
    }
  }

  /** Filtering never reorders: its result is a subsequence of its input. */
  lemma {:induction false} FilterIsSubsequence<T>(s: seq<T>, p: T -> bool)
    ensures IsSubsequence(Filter(s, p), s)
  {
    if s != [] {
      FilterIsSubsequence(s[1..], p);
      var r := Filter(s, p);
      if p(s[0]) {
        assert r[1..] == Filter(s[1..], p);
      } else if r != [] {
        assert r[0] in r;
        assert r[0] != s[0];
      }
    }
  }

  /** No element occurs twice in `s`. */
  predicate Distinct<T(==)>(s: seq<T>) {
    forall i, j :: 0 <= i < j < |s| ==> s[i] != s[j]
  }

  /** `order` lists every element of `keys` exactly once and nothing else:
      one possible iteration order of a hash map with key set `keys`. */
  predicate IsEnumeration<K(==)>(order: seq<K>, keys: set<K>) {
    && Distinct(order)
    && (forall k :: k in keys ==> k in order)
    && (forall i :: 0 <= i < |order| ==> order[i] in keys)
  }

  /** An enumeration has exactly as many entries as the key set. */
  lemma {:induction false} EnumerationLength<K>(order: seq<K>, keys: set<K>)
    requires IsEnumeration(order, keys)
    ensures |order| == |keys|
    decreases |order|
  {
    if order == [] {
      assert forall k :: k !in keys;
    } else {
      var x := order[0];
      var rest := keys - {x};
      assert IsEnumeration(order[1..], rest) by {
        forall k | k in rest ensures k in order[1..] {
          assert k in order;
          var i :| 0 <= i < |order| && order[i] == k;
          assert i != 0;
          assert order[1..][i - 1] == k;
        }
        forall i | 0 <= i < |order[1..]| ensures order[1..][i] in rest {
          assert order[1..][i] == order[i + 1] != order[0];
        }
      }
      EnumerationLength(order[1..], rest);
    }
  }

  /** Produces some iteration order of `keys`; which one is left open, as
      Java leaves the iteration order of a `HashMap` open. */
  method KeyOrder<K(==)>(keys: set<K>) returns (order: seq<K>)
    ensures IsEnumeration(order, keys)
  {
    order := [];
    var rest := keys;
    while rest != {}
      invariant rest <= keys
      invariant Distinct(order)
      invariant forall k :: k in keys ==> k in order || k in rest
      invariant forall i :: 0 <= i < |order| ==> order[i] in keys && order[i] !in rest
      decreases rest
    {
      var k :| k in rest;
      order := order + [k];
      rest := rest - {k};
    }
  }
}
