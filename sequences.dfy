/** Collection operations the service relies on: a JavaScript `Set` kept as
    its elements in insertion order, `Array.prototype.filter` and
    `Array.prototype.slice`. */
module Sequences {

  predicate NoDup<T(==)>(s: seq<T>) {
    forall i, j :: 0 <= i < j < |s| ==> s[i] != s[j]
  }

  /** `Set.prototype.add`: the set is its elements in insertion order. */
  function AddToSet<T(==,!new)>(s: seq<T>, x: T): (r: seq<T>)
    ensures NoDup(s) ==> NoDup(r)
    ensures forall y :: y in r <==> y in s || y == x
  {
    if x in s then s else s + [x]
  }

  lemma {:induction false} NoDupCount<T>(s: seq<T>, x: T)
    requires NoDup(s)
    ensures multiset(s)[x] <= 1
  {
    if s != [] {
      NoDupCount(s[1..], x);
      assert s == [s[0]] + s[1..];
      if s[0] == x {
        assert x !in s[1..];
      }
    }
  }

  lemma RepeatCount<T>(s: seq<T>, i: nat, j: nat)
    requires i < j < |s| && s[i] == s[j]
    ensures multiset(s)[s[i]] >= 2
  {
    assert s == s[..j] + s[j..];
    assert s[i] in s[..j];
    assert s[j] in s[j..];
  }

  /** A permutation of a sequence without repeats has no repeats. */
  lemma NoDupByMultiset<T>(s: seq<T>, t: seq<T>)
    requires NoDup(s) && multiset(s) == multiset(t)
    ensures NoDup(t)
  {
    forall i, j | 0 <= i < j < |t| ensures t[i] != t[j] {
      if t[i] == t[j] {
        RepeatCount(t, i, j);
        NoDupCount(s, t[i]);
      }
    }
  }

  // ---------------------------------------------------------------------
  // filter

  /** `Array.prototype.filter` */
  function Filter<T>(s: seq<T>, p: T -> bool): seq<T> {
    if s == [] then [] else (if p(s[0]) then [s[0]] else []) + Filter(s[1..], p)
  }

  /** The positions of `s` from `k` on whose element satisfies `p`, ascending. */
  function MatchIndicesFrom<T>(s: seq<T>, p: T -> bool, k: nat): seq<nat>
    decreases |s| - k
  {
    if k >= |s| then []
    else (if p(s[k]) then [k] else []) + MatchIndicesFrom(s, p, k + 1)
  }

  function MatchIndices<T>(s: seq<T>, p: T -> bool): seq<nat> {
    MatchIndicesFrom(s, p, 0)
  }

  predicate Increasing(ix: seq<nat>) {
    forall i, j :: 0 <= i < j < |ix| ==> ix[i] < ix[j]
  }

  lemma {:induction false} FilterFrom<T>(s: seq<T>, p: T -> bool, k: nat)
    requires k <= |s|
    ensures var f := Filter(s[k..], p); var ix := MatchIndicesFrom(s, p, k);
      && |f| == |ix| && Increasing(ix)
      && (forall m :: m in ix <==> k <= m < |s| && p(s[m]))
      && (forall i :: 0 <= i < |ix| ==> ix[i] < |s| && f[i] == s[ix[i]])
    decreases |s| - k
  {
    if k < |s| {
      FilterFrom(s, p, k + 1);
      assert s[k..][1..] == s[k + 1..];
      var ix := MatchIndicesFrom(s, p, k);
      var rest := MatchIndicesFrom(s, p, k + 1);
      if p(s[k]) {
        assert ix == [k] + rest;
        ConsIncreasing(k, rest);
      } else {
        assert ix == rest;
      }
    }
  }

  lemma ConsIncreasing(k: nat, rest: seq<nat>)
    requires Increasing(rest) && forall m :: m in rest ==> k < m
    ensures Increasing([k] + rest)
  {
    var ix := [k] + rest;
    forall i, j | 0 <= i < j < |ix| ensures ix[i] < ix[j] {
      if i == 0 { assert ix[j] in rest; } else { assert ix[i] == rest[i - 1] && ix[j] == rest[j - 1]; }
    }
  }

  /** The filtered sequence is exactly the elements of `s` at the positions
      that satisfy `p`, in their original order: position `i` of the result
      holds the element at the `i`-th matching position. */
  lemma FilterByIndices<T>(s: seq<T>, p: T -> bool)
    ensures var f := Filter(s, p); var ix := MatchIndices(s, p);
      && |f| == |ix| && Increasing(ix)
      && (forall m :: m in ix <==> 0 <= m < |s| && p(s[m]))
      && (forall i :: 0 <= i < |ix| ==> ix[i] < |s| && f[i] == s[ix[i]])
  {
    FilterFrom(s, p, 0);
    assert s[0..] == s;
  }

  lemma {:induction false} FilterMembers<T>(s: seq<T>, p: T -> bool)
    ensures forall x :: x in Filter(s, p) <==> x in s && p(x)
  {
    if s != [] {
      FilterMembers(s[1..], p);
      assert s == [s[0]] + s[1..];
    }
  }

  lemma {:induction false} FilterAppend<T>(a: seq<T>, b: seq<T>, p: T -> bool)
    ensures Filter(a + b, p) == Filter(a, p) + Filter(b, p)
  {
    if a != [] {
      FilterAppend(a[1..], b, p);
      assert (a + b)[1..] == a[1..] + b;
    } else {
      assert a + b == b;
    }
  }

  // ---------------------------------------------------------------------
  // slice

  /** How `slice` resolves an index against a length: negative counts from
      the end, and the result is clamped to `0..len`. */
  function SliceIndex(len: nat, i: int): (r: nat)
    ensures r <= len
  {
    if i < 0 then (if len + i < 0 then 0 else len + i)
    else if i > len then len
    else i
  }

  /** `Array.prototype.slice(start, end)` */
  function Slice<T>(s: seq<T>, start: int, end: int): seq<T> {
    var from := SliceIndex(|s|, start);
    var to := SliceIndex(|s|, end);
    if from < to then s[from..to] else []
  }

  /** `slice(0, n)` keeps the first `n` elements, or all of them. */
  lemma SliceHead<T>(s: seq<T>, n: nat)
    ensures Slice(s, 0, n) == if |s| <= n then s else s[..n]
  {
  }
}
