/** `GET /api/check-interactions?drugs=` (api/index.js lines 141-170;
    index.js lines 125-154): every pair of listed drugs, in list order, is
    looked up among the interaction rows, and the first row naming the two
    drugs (either way round) is reported. */
module Interactions {
  import opened Strings
  import opened Sequences
  import opened Records

  datatype Option<T> = None | Some(value: T)

  /** `.map(d => d.trim().toLowerCase())` */
  function NormaliseAll(pieces: seq<string>): (r: seq<string>)
    ensures |r| == |pieces|
  {
    if pieces == [] then [] else [Lower(Trim(pieces[0]))] + NormaliseAll(pieces[1..])
  }

  /** `drugQuery.split(',').map(d => d.trim().toLowerCase())` */
  function DrugList(drugQuery: string): seq<string> {
    NormaliseAll(Split(drugQuery, {','}))
  }

  /** The list has one entry per comma-separated piece of the query: the
      piece trimmed, then lower-cased. */
  lemma {:induction false} NormaliseAllSpec(pieces: seq<string>)
    ensures forall i :: 0 <= i < |pieces| ==> NormaliseAll(pieces)[i] == Lower(Trim(pieces[i]))
  {
    if pieces != [] {
      NormaliseAllSpec(pieces[1..]);
      forall i | 1 <= i < |pieces| ensures NormaliseAll(pieces)[i] == Lower(Trim(pieces[i])) {
        assert pieces[1..][i - 1] == pieces[i];
      }
    }
  }

  /** The `find` callback: the row's columns, lower-cased but not trimmed,
      are the two drugs in either order. */
  predicate Joins(row: InteractionRow, drugA: string, drugB: string) {
    var drug1 := Lower(row.drug1);
    var drug2 := Lower(row.drug2);
    (drug1 == drugA && drug2 == drugB) || (drug1 == drugB && drug2 == drugA)
  }

  /** `interactions.find(...)` */
  function Find(rows: seq<InteractionRow>, drugA: string, drugB: string): Option<InteractionRow> {
    if rows == [] then None
    else if Joins(rows[0], drugA, drugB) then Some(rows[0])
    else Find(rows[1..], drugA, drugB)
  }

  /** What one pair adds to `foundInteractions`. */
  function Hit(rows: seq<InteractionRow>, drugA: string, drugB: string): seq<Interaction> {
    var found := Find(rows, drugA, drugB);
    if found.Some? then [Interaction([drugA, drugB], found.value.description)] else []
  }

  /** What the inner loop has added for `i` once `j` reaches `upTo`. */
  function RowFinds(rows: seq<InteractionRow>, list: seq<string>, i: nat, upTo: nat): seq<Interaction>
    requires i < |list| && upTo <= |list|
    decreases upTo
  {
    if upTo <= i + 1 then []
    else RowFinds(rows, list, i, upTo - 1) + Hit(rows, list[i], list[upTo - 1])
  }

  /** `foundInteractions` once the outer loop reaches `i`. */
  function AllFinds(rows: seq<InteractionRow>, list: seq<string>, i: nat): seq<Interaction>
    requires i <= |list|
  {
    if i == 0 then []
    else AllFinds(rows, list, i - 1) + RowFinds(rows, list, i - 1, |list|)
  }

  /** What the route answers. */
  function CheckResult(rows: seq<InteractionRow>, drugQuery: string): Response<seq<Interaction>> {
    if drugQuery == [] then BadRequest("No drugs provided.")
    else
      var drugList := DrugList(drugQuery);
      if |drugList| < 2 then BadRequest("Please provide at least two drugs.")
      else Ok(AllFinds(rows, drugList, |drugList|))
  }

  method CheckInteractions(interactions: seq<InteractionRow>, drugQuery: string)
    returns (r: Response<seq<Interaction>>)
    ensures r == CheckResult(interactions, drugQuery)
  {
    if drugQuery == [] {
      return BadRequest("No drugs provided.");
    }
    var drugList := DrugList(drugQuery);
    if |drugList| < 2 {
      return BadRequest("Please provide at least two drugs.");
    }
    var foundInteractions := FindPairs(interactions, drugList);
    return Ok(foundInteractions);
  }

  /** The route's nested loops over the pairs `i < j` of the list. */
  method FindPairs(interactions: seq<InteractionRow>, drugList: seq<string>)
    returns (foundInteractions: seq<Interaction>)
    ensures foundInteractions == AllFinds(interactions, drugList, |drugList|)
  {
    foundInteractions := [];
    for i := 0 to |drugList|
      invariant foundInteractions == AllFinds(interactions, drugList, i)
    {
      for j := i + 1 to |drugList|
        invariant foundInteractions == AllFinds(interactions, drugList, i) + RowFinds(interactions, drugList, i, j)
      {
        var drugA := drugList[i];
        var drugB := drugList[j];
        var match_ := Find(interactions, drugA, drugB);
        if match_.Some? {
          foundInteractions := foundInteractions + [Interaction([drugA, drugB], match_.value.description)];
        }
      }
    }
  }

  // ---------------------------------------------------------------------
  // Properties

  /** `find` returns a row exactly when some row joins the two drugs, and
      then the first such row. */
  lemma {:induction false} FindFirst(rows: seq<InteractionRow>, drugA: string, drugB: string)
    ensures var m := Find(rows, drugA, drugB);
      && (m.Some? <==> exists k :: 0 <= k < |rows| && Joins(rows[k], drugA, drugB))
      && (m.Some? ==> exists k :: 0 <= k < |rows| && rows[k] == m.value && Joins(rows[k], drugA, drugB)
                        && forall l :: 0 <= l < k ==> !Joins(rows[l], drugA, drugB))
  {
    if rows != [] && !Joins(rows[0], drugA, drugB) {
      FindFirst(rows[1..], drugA, drugB);
      if exists k :: 0 <= k < |rows| && Joins(rows[k], drugA, drugB) {
        var k :| 0 <= k < |rows| && Joins(rows[k], drugA, drugB);
        assert rows[1..][k - 1] == rows[k];
      }
      if Find(rows, drugA, drugB).Some? {
        var k :| 0 <= k < |rows[1..]| && rows[1..][k] == Find(rows, drugA, drugB).value
          && Joins(rows[1..][k], drugA, drugB)
          && forall l :: 0 <= l < k ==> !Joins(rows[1..][l], drugA, drugB);
        forall l | 0 <= l < k + 1 ensures !Joins(rows[l], drugA, drugB) {
          if l > 0 { assert rows[l] == rows[1..][l - 1]; }
        }
      }
    }
  }

  /** The order the two drugs are named in does not change the row found. */
  lemma {:induction false} FindSymmetric(rows: seq<InteractionRow>, drugA: string, drugB: string)
    ensures Find(rows, drugA, drugB) == Find(rows, drugB, drugA)
  {
    if rows != [] {
      FindSymmetric(rows[1..], drugA, drugB);
    }
  }

  /** `e` is what the pair of list positions `i < j` reports. */
  ghost predicate Reported(rows: seq<InteractionRow>, list: seq<string>, i: int, j: int, e: Interaction) {
    && 0 <= i < j < |list|
    && Find(rows, list[i], list[j]).Some?
    && e == Interaction([list[i], list[j]], Find(rows, list[i], list[j]).value.description)
  }

  lemma {:induction false} RowFindsMembers(rows: seq<InteractionRow>, list: seq<string>, i: nat, upTo: nat)
    requires i < |list| && upTo <= |list|
    ensures forall e :: e in RowFinds(rows, list, i, upTo) <==>
      exists j :: j < upTo && Reported(rows, list, i, j, e)
    ensures 0 <= |RowFinds(rows, list, i, upTo)| <= if upTo <= i + 1 then 0 else upTo - i - 1
    decreases upTo
  {
    if upTo > i + 1 {
      RowFindsMembers(rows, list, i, upTo - 1);
      forall e ensures e in RowFinds(rows, list, i, upTo) <==>
        exists j :: j < upTo && Reported(rows, list, i, j, e)
      {
        if e in Hit(rows, list[i], list[upTo - 1]) {
          assert Reported(rows, list, i, upTo - 1, e);
        }
        if exists j :: j < upTo && Reported(rows, list, i, j, e) {
          var j :| j < upTo && Reported(rows, list, i, j, e);
          if j == upTo - 1 {
            assert e in Hit(rows, list[i], list[upTo - 1]);
          }
        }
      }
    }
  }

  lemma {:induction false} AllFindsMembers(rows: seq<InteractionRow>, list: seq<string>, i: nat)
    requires i <= |list|
    ensures forall e :: e in AllFinds(rows, list, i) <==>
      exists a, b :: a < i && Reported(rows, list, a, b, e)
  {
    if i > 0 {
      var last := i - 1;
      AllFindsMembers(rows, list, last);
      RowFindsMembers(rows, list, last, |list|);
      forall e ensures e in AllFinds(rows, list, i) <==>
        exists a, b :: a < i && Reported(rows, list, a, b, e)
      {
        if e in RowFinds(rows, list, last, |list|) {
          var j :| j < |list| && Reported(rows, list, last, j, e);
        }
        if exists a, b :: a < i && Reported(rows, list, a, b, e) {
          var a, b :| a < i && Reported(rows, list, a, b, e);
          if a == last {
            assert exists j :: j < |list| && Reported(rows, list, last, j, e);
          } else {
            assert exists a, b :: a < last && Reported(rows, list, a, b, e);
          }
        }
      }
    }
  }

  /** The number of pairs `a < b < n` with `a < i`. */
  function PairCount(n: nat, i: nat): nat
    requires i <= n
  {
    if i == 0 then 0 else PairCount(n, i - 1) + (n - i)
  }

  /** The pair triangle's first `i` rows hold `i*(2n-i-1)/2` pairs, so all
      `n` rows hold `n(n-1)/2`. */
  lemma {:induction false} PairCountClosed(n: nat, i: nat)
    requires i <= n
    ensures 2 * PairCount(n, i) == i * (2 * n - i - 1)
  {
    if i > 0 {
      PairCountClosed(n, i - 1);
      var m := 2 * n - i;
      assert (i - 1) * m == i * m - m;
      assert i * (m - 1) == i * m - i;
    }
  }

  /** Each pair reports at most one interaction. */
  lemma {:induction false} AllFindsCount(rows: seq<InteractionRow>, list: seq<string>, i: nat)
    requires i <= |list|
    ensures |AllFinds(rows, list, i)| <= PairCount(|list|, i)
  {
    if i > 0 {
      AllFindsCount(rows, list, i - 1);
      RowFindsMembers(rows, list, i - 1, |list|);
    }
  }

  // ---------------------------------------------------------------------
  // The pairs the loops visit

  /** Lexicographic order on pairs of list positions. */
  predicate PairBefore(p: (nat, nat), q: (nat, nat)) {
    p.0 < q.0 || (p.0 == q.0 && p.1 < q.1)
  }

  /** The pairs `(a, b)` with `a < b < upTo`, by ascending `b`. */
  function RowPairs(a: nat, upTo: nat): seq<(nat, nat)>
    decreases upTo
  {
    if upTo <= a + 1 then [] else RowPairs(a, upTo - 1) + [(a, upTo - 1)]
  }

  /** The pairs `(a, b)` with `a < b < n` and `a < i`. */
  function Pairs(n: nat, i: nat): seq<(nat, nat)>
    requires i <= n
  {
    if i == 0 then [] else Pairs(n, i - 1) + RowPairs(i - 1, n)
  }

  lemma {:induction false} RowPairsSpec(a: nat, upTo: nat)
    ensures var r := RowPairs(a, upTo);
      && |r| == (if upTo <= a + 1 then 0 else upTo - a - 1)
      && forall k :: 0 <= k < |r| ==> r[k] == (a, a + 1 + k)
    decreases upTo
  {
    if upTo > a + 1 {
      RowPairsSpec(a, upTo - 1);
    }
  }

  /** The enumeration holds every pair `a < b < n` with `a < i` once, in
      lexicographic order, and there are `PairCount(n, i)` of them. */
  lemma PairsSpec(n: nat, i: nat)
    requires i <= n
    ensures var ps := Pairs(n, i);
      && |ps| == PairCount(n, i)
      && (forall p: (nat, nat) :: p in ps <==> p.0 < i && p.0 < p.1 < n)
      && forall k, l :: 0 <= k < l < |ps| ==> PairBefore(ps[k], ps[l])
  {
    PairsLength(n, i);
    PairsMembers(n, i);
    PairsOrdered(n, i);
  }

  lemma {:induction false} PairsLength(n: nat, i: nat)
    requires i <= n
    ensures |Pairs(n, i)| == PairCount(n, i)
  {
    if i > 0 {
      PairsLength(n, i - 1);
      RowPairsSpec(i - 1, n);
    }
  }

  lemma {:induction false} PairsMembers(n: nat, i: nat)
    requires i <= n
    ensures forall p: (nat, nat) :: p in Pairs(n, i) <==> p.0 < i && p.0 < p.1 < n
  {
    if i > 0 {
      PairsMembers(n, i - 1);
      RowPairsSpec(i - 1, n);
      var row := RowPairs(i - 1, n);
      forall p: (nat, nat) ensures p in Pairs(n, i) <==> p.0 < i && p.0 < p.1 < n {
        if p.0 == i - 1 && p.0 < p.1 < n {
          assert row[p.1 - i] == p;
        }
      }
    }
  }

  lemma {:induction false} PairsOrdered(n: nat, i: nat)
    requires i <= n
    ensures forall k, l :: 0 <= k < l < |Pairs(n, i)| ==> PairBefore(Pairs(n, i)[k], Pairs(n, i)[l])
  {
    if i > 0 {
      PairsOrdered(n, i - 1);
      PairsMembers(n, i - 1);
      RowPairsSpec(i - 1, n);
      var front := Pairs(n, i - 1);
      var ps := Pairs(n, i);
      assert ps == front + RowPairs(i - 1, n);
      forall k, l | 0 <= k < l < |ps| ensures PairBefore(ps[k], ps[l]) {
        if l < |front| {
          assert ps[k] == front[k] && ps[l] == front[l];
        } else if k < |front| {
          assert ps[k] == front[k] && front[k] in front;
          assert ps[l] == RowPairs(i - 1, n)[l - |front|];
        } else {
          assert ps[k] == RowPairs(i - 1, n)[k - |front|] && ps[l] == RowPairs(i - 1, n)[l - |front|];
        }
      }
    }
  }

  /** The row lookup for the names at the pair's two positions succeeds. */
  predicate JoinedPair(rows: seq<InteractionRow>, list: seq<string>, p: (nat, nat)) {
    p.0 < |list| && p.1 < |list| && Find(rows, list[p.0], list[p.1]).Some?
  }

  function JoinedIn(rows: seq<InteractionRow>, list: seq<string>): ((nat, nat)) -> bool {
    (p: (nat, nat)) => JoinedPair(rows, list, p)
  }

  /** The entry a matched pair pushes: the two names in list order and the
      found row's description. */
  function Entry(rows: seq<InteractionRow>, list: seq<string>, p: (nat, nat)): Interaction
    requires JoinedPair(rows, list, p)
  {
    Interaction([list[p.0], list[p.1]], Find(rows, list[p.0], list[p.1]).value.description)
  }

  /** `found` holds, position by position, the entries of the pairs `ms`. */
  predicate EntriesOf(rows: seq<InteractionRow>, list: seq<string>, found: seq<Interaction>, ms: seq<(nat, nat)>) {
    && |found| == |ms|
    && forall k :: 0 <= k < |ms| ==> JoinedPair(rows, list, ms[k]) && found[k] == Entry(rows, list, ms[k])
  }

  lemma EntriesAppend(rows: seq<InteractionRow>, list: seq<string>,
                      f1: seq<Interaction>, m1: seq<(nat, nat)>, f2: seq<Interaction>, m2: seq<(nat, nat)>)
    requires EntriesOf(rows, list, f1, m1) && EntriesOf(rows, list, f2, m2)
    ensures EntriesOf(rows, list, f1 + f2, m1 + m2)
  {
    forall k | |m1| <= k < |m1| + |m2|
      ensures JoinedPair(rows, list, (m1 + m2)[k]) && (f1 + f2)[k] == Entry(rows, list, (m1 + m2)[k])
    {
      assert (m1 + m2)[k] == m2[k - |m1|] && (f1 + f2)[k] == f2[k - |m1|];
    }
  }

  /** The inner loop for `a` pushes one entry per matched pair `(a, b)`, by
      ascending `b`. */
  lemma {:induction false} RowFindsInOrder(rows: seq<InteractionRow>, list: seq<string>, a: nat, upTo: nat)
    requires a < |list| && upTo <= |list|
    ensures EntriesOf(rows, list, RowFinds(rows, list, a, upTo), Filter(RowPairs(a, upTo), JoinedIn(rows, list)))
    decreases upTo
  {
    if upTo > a + 1 {
      RowFindsInOrder(rows, list, a, upTo - 1);
      var last: seq<(nat, nat)> := [(a, upTo - 1)];
      FilterAppend(RowPairs(a, upTo - 1), last, JoinedIn(rows, list));
      assert last[1..] == [];
      EntriesAppend(rows, list, RowFinds(rows, list, a, upTo - 1), Filter(RowPairs(a, upTo - 1), JoinedIn(rows, list)),
                    Hit(rows, list[a], list[upTo - 1]), Filter(last, JoinedIn(rows, list)));
    }
  }

  /** The outer loop, once at `i`, has pushed one entry per matched pair of
      `Pairs(|list|, i)`, in that order. */
  lemma {:induction false} AllFindsInOrder(rows: seq<InteractionRow>, list: seq<string>, i: nat)
    requires i <= |list|
    ensures EntriesOf(rows, list, AllFinds(rows, list, i), Filter(Pairs(|list|, i), JoinedIn(rows, list)))
  {
    if i > 0 {
      AllFindsInOrder(rows, list, i - 1);
      RowFindsInOrder(rows, list, i - 1, |list|);
      FilterAppend(Pairs(|list|, i - 1), RowPairs(i - 1, |list|), JoinedIn(rows, list));
      EntriesAppend(rows, list, AllFinds(rows, list, i - 1), Filter(Pairs(|list|, i - 1), JoinedIn(rows, list)),
                    RowFinds(rows, list, i - 1, |list|), Filter(RowPairs(i - 1, |list|), JoinedIn(rows, list)));
    }
  }

  /** The route's three outcomes. No query string: "No drugs provided.". A
      query without a comma: "Please provide at least two drugs.". A query
      with a comma: exactly one entry per pair of list positions `i < j`
      whose two trimmed lower-cased names some row joins (either way round),
      in the lexicographic order of the pairs (`PairsSpec`), each carrying
      the names in list order and the description of the first such row;
      nothing else, and at most n(n-1)/2 entries for n listed names. */
  lemma CheckInteractionsSpec(rows: seq<InteractionRow>, drugQuery: string)
    ensures var r := CheckResult(rows, drugQuery);
      var list := DrugList(drugQuery);
      && (drugQuery == [] ==> r == BadRequest("No drugs provided."))
      && (drugQuery != [] && ',' !in drugQuery ==> r == BadRequest("Please provide at least two drugs."))
      && (',' in drugQuery ==>
            && r.Ok?
            && |list| >= 2
            && EntriesOf(rows, list, r.body, Filter(Pairs(|list|, |list|), JoinedIn(rows, list)))
            && 2 * |r.body| <= |list| * (|list| - 1)
            && forall e :: e in r.body <==> exists i, j :: Reported(rows, list, i, j, e))
  {
    var list := DrugList(drugQuery);
    SplitCount(drugQuery, {','});
    if ',' in drugQuery {
      AllFindsInOrder(rows, list, |list|);
      AllFindsMembers(rows, list, |list|);
      AllFindsCount(rows, list, |list|);
      PairCountClosed(|list|, |list|);
    }
  }

  /** A reported pair carries the description of the first row that names
      both drugs, in whichever order the row lists them. */
  lemma ReportedIsFirstJoin(rows: seq<InteractionRow>, list: seq<string>, i: nat, j: nat, e: Interaction)
    requires Reported(rows, list, i, j, e)
    ensures exists k ::
      && 0 <= k < |rows|
      && Joins(rows[k], list[i], list[j])
      && e.description == rows[k].description
      && forall l :: 0 <= l < k ==> !Joins(rows[l], list[i], list[j])
  {
    FindFirst(rows, list[i], list[j]);
  }

  /** A pair of positions some row joins is always reported; swapping the two
      names in the query reports the same description. */
  lemma JoinedPairReported(rows: seq<InteractionRow>, list: seq<string>, i: nat, j: nat, k: nat)
    requires i < j < |list| && k < |rows| && Joins(rows[k], list[i], list[j])
    ensures exists e :: Reported(rows, list, i, j, e)
    ensures Find(rows, list[i], list[j]) == Find(rows, list[j], list[i])
  {
    FindFirst(rows, list[i], list[j]);
    FindSymmetric(rows, list[i], list[j]);
    var m := Find(rows, list[i], list[j]);
    assert Reported(rows, list, i, j, Interaction([list[i], list[j]], m.value.description));
  }
}
