/** The order `Array.prototype.sort()` puts strings in when no comparator is
    given: lexicographic, character by character, a proper prefix first. */
module LexOrder {
  import opened Sequences

  predicate LessEq(a: string, b: string)
    decreases |a|
  {
    if a == [] then true
    else if b == [] then false
    else if a[0] != b[0] then a[0] < b[0]
    else LessEq(a[1..], b[1..])
  }

  predicate Less(a: string, b: string) {
    LessEq(a, b) && a != b
  }

  predicate Sorted(s: seq<string>) {
    forall i, j :: 0 <= i < j < |s| ==> LessEq(s[i], s[j])
  }

  /** Ascending with no repeats: what sorting a set's elements gives. */
  predicate StrictlySorted(s: seq<string>) {
    forall i, j :: 0 <= i < j < |s| ==> Less(s[i], s[j])
  }

  lemma {:induction false} Reflexive(a: string)
    ensures LessEq(a, a)
    decreases |a|
  {
    if a != [] { Reflexive(a[1..]); }
  }

  lemma {:induction false} Total(a: string, b: string)
    ensures LessEq(a, b) || LessEq(b, a)
    decreases |a|
  {
    if a != [] && b != [] && a[0] == b[0] { Total(a[1..], b[1..]); }
  }

  lemma {:induction false} Transitive(a: string, b: string, c: string)
    requires LessEq(a, b) && LessEq(b, c)
    ensures LessEq(a, c)
    decreases |a|
  {
    if a != [] && b != [] && c != [] && a[0] == b[0] && b[0] == c[0] {
      Transitive(a[1..], b[1..], c[1..]);
    }
  }

  lemma {:induction false} Antisymmetric(a: string, b: string)
    requires LessEq(a, b) && LessEq(b, a)
    ensures a == b
    decreases |a|
  {
    if a != [] {
      Antisymmetric(a[1..], b[1..]);
      assert a == [a[0]] + a[1..] && b == [b[0]] + b[1..];
    }
  }

  // ---------------------------------------------------------------------
  // Sorting (insertion sort; any correct sort gives the same result on
  // a sequence without repeats, by `SortUnique`)

  function Insert(x: string, s: seq<string>): (r: seq<string>)
    requires Sorted(s)
    ensures Sorted(r) && multiset(r) == multiset(s) + multiset{x}
  {
    if s == [] then [x]
    else if LessEq(x, s[0]) then
      InsertFront(x, s);
      [x] + s
    else
      Total(x, s[0]);
      var t := Insert(x, s[1..]);
      InsertBehind(x, s, t);
      [s[0]] + t
  }

  lemma InsertFront(x: string, s: seq<string>)
    requires Sorted(s) && s != [] && LessEq(x, s[0])
    ensures Sorted([x] + s)
  {
    forall j | 0 <= j < |s| ensures LessEq(x, s[j]) {
      if j > 0 { Transitive(x, s[0], s[j]); }
    }
    var r := [x] + s;
    forall i, j | 0 <= i < j < |r| ensures LessEq(r[i], r[j]) {
      if i > 0 { assert r[i] == s[i - 1] && r[j] == s[j - 1]; }
    }
  }

  lemma InsertBehind(x: string, s: seq<string>, t: seq<string>)
    requires Sorted(s) && s != [] && LessEq(s[0], x)
    requires Sorted(t) && multiset(t) == multiset(s[1..]) + multiset{x}
    ensures Sorted([s[0]] + t)
    ensures multiset([s[0]] + t) == multiset(s) + multiset{x}
  {
    HeadBelowRest(x, s, t);
    var r := [s[0]] + t;
    forall i, j | 0 <= i < j < |r| ensures LessEq(r[i], r[j]) {
      if i > 0 { assert r[i] == t[i - 1] && r[j] == t[j - 1]; }
    }
    assert s == [s[0]] + s[1..];
  }

  lemma HeadBelowRest(x: string, s: seq<string>, t: seq<string>)
    requires Sorted(s) && s != [] && LessEq(s[0], x)
    requires multiset(t) == multiset(s[1..]) + multiset{x}
    ensures forall j :: 0 <= j < |t| ==> LessEq(s[0], t[j])
  {
    forall j | 0 <= j < |t| ensures LessEq(s[0], t[j]) {
      assert t[j] in multiset(t);
      if t[j] != x {
        assert t[j] in multiset(s[1..]);
        var k :| 0 <= k < |s[1..]| && s[1..][k] == t[j];
        assert s[k + 1] == t[j];
      }
    }
  }

  /** `[...set].sort()` */
  function SortStrings(s: seq<string>): (r: seq<string>)
    ensures Sorted(r) && multiset(r) == multiset(s)
  {
    if s == [] then []
    else
      assert s == [s[0]] + s[1..];
      Insert(s[0], SortStrings(s[1..]))
  }

  /** Sorting a set's elements (a sequence without repeats) gives the same
      elements, each once, in strictly ascending order. */
  lemma SortSet(s: seq<string>)
    requires NoDup(s)
    ensures var r := SortStrings(s);
      StrictlySorted(r) && NoDup(r) && |r| == |s| && forall x :: x in r <==> x in s
  {
    var r := SortStrings(s);
    NoDupByMultiset(s, r);
    assert |r| == |multiset(r)| == |multiset(s)| == |s|;
    forall x ensures x in r <==> x in s {
      assert x in r <==> x in multiset(r);
      assert x in s <==> x in multiset(s);
    }
  }

  /** Two strictly ascending lists with the same members are the same list. */
  lemma {:induction false} StrictlySortedUnique(s: seq<string>, t: seq<string>)
    requires StrictlySorted(s) && StrictlySorted(t)
    requires forall x :: x in s <==> x in t
    ensures s == t
    decreases |s|
  {
    SameMembersEmpty(s, t);
    if s != [] && t != [] {
      assert t[0] in s && s[0] in t;
      var j :| 0 <= j < |s| && s[j] == t[0];
      var l :| 0 <= l < |t| && t[l] == s[0];
      Reflexive(s[0]);
      assert LessEq(s[0], t[0]) by { if j > 0 { assert Less(s[0], s[j]); } }
      assert LessEq(t[0], s[0]) by { if l > 0 { assert Less(t[0], t[l]); } }
      Antisymmetric(s[0], t[0]);
      forall x ensures x in s[1..] <==> x in t[1..] {
        if x in s[1..] {
          var a :| 1 <= a < |s| && s[a] == x;
          assert Less(s[0], s[a]);
          assert x in t;
        }
        if x in t[1..] {
          var b :| 1 <= b < |t| && t[b] == x;
          assert Less(t[0], t[b]);
          assert x in s;
        }
      }
      StrictlySortedUnique(s[1..], t[1..]);
      assert s == [s[0]] + s[1..] && t == [t[0]] + t[1..];
    }
  }

  lemma SameMembersEmpty(s: seq<string>, t: seq<string>)
    requires forall x :: x in s <==> x in t
    ensures s == [] <==> t == []
  {
    if s != [] { assert s[0] in t; }
    if t != [] { assert t[0] in s; }
  }

  /** Whatever correct sort the engine uses, on a list without repeats it
      gives the same answer as `SortStrings`: the one strictly ascending
      list of its elements. */
  lemma SortUnique(s: seq<string>, t: seq<string>)
    requires NoDup(s) && StrictlySorted(t) && forall x :: x in t <==> x in s
    ensures SortStrings(s) == t
  {
    SortSet(s);
    StrictlySortedUnique(SortStrings(s), t);
  }

  /** Filtering keeps strict order (it keeps a subsequence). */
  lemma FilterStrictlySorted(s: seq<string>, p: string -> bool)
    requires StrictlySorted(s)
    ensures StrictlySorted(Filter(s, p))
  {
    FilterByIndices(s, p);
  }

  /** `slice(0, n)` of a strictly ascending sequence keeps its `n` least
      elements: whatever it drops is larger than everything it keeps, and it
      drops something only when it keeps `n`. */
  lemma SliceHeadLeast(s: seq<string>, n: nat)
    requires StrictlySorted(s)
    ensures var r := Slice(s, 0, n);
      && |r| <= n && StrictlySorted(r) && (forall x :: x in r ==> x in s)
      && forall x :: x in s && x !in r ==> |r| == n && forall y :: y in r ==> Less(y, x)
  {
    SliceHead(s, n);
    var r := Slice(s, 0, n);
    forall x | x in s && x !in r ensures |r| == n && forall y :: y in r ==> Less(y, x) {
      var k :| 0 <= k < |s| && s[k] == x;
      assert k >= |r|;
      forall y | y in r ensures Less(y, x) {
        var i :| 0 <= i < |r| && r[i] == y;
        assert s[i] == y;
      }
    }
  }
}
