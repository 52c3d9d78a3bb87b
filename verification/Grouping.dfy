/** Stable grouping of positions by key: the order both symbol reorderings produce. */
module Grouping {

  /** The positions below n that have key k, in increasing order. */
  function Indices(keys: seq<nat>, k: nat, n: nat): (r: seq<nat>)
    requires n <= |keys|
  {
    if n == 0 then []
    else if keys[n - 1] == k then Indices(keys, k, n - 1) + [n - 1]
    else Indices(keys, k, n - 1)
  }

  /** All positions with a key below `groups`, group by group. */
  function Grouped(keys: seq<nat>, groups: nat): (r: seq<nat>) {
    if groups == 0 then [] else Grouped(keys, groups - 1) + Indices(keys, groups - 1, |keys|)
  }

  ghost predicate Increasing(s: seq<nat>) {
    forall i, j :: 0 <= i < j < |s| ==> s[i] < s[j]
  }

  lemma {:induction false} IndicesAreThose(keys: seq<nat>, k: nat, n: nat)
    requires n <= |keys|
    ensures Increasing(Indices(keys, k, n))
    ensures forall i :: i in Indices(keys, k, n) <==> 0 <= i < n && keys[i] == k
  {
    if n != 0 {
      IndicesAreThose(keys, k, n - 1);
      var r := Indices(keys, k, n - 1);
      forall j | 0 <= j < |r|
        ensures r[j] < n - 1
      {
        assert r[j] in r;
      }
    }
  }

  lemma {:induction false} IndicesExtend(keys: seq<nat>, k: nat, n: nat, m: nat)
    requires n <= m <= |keys|
    ensures Indices(keys, k, n) <= Indices(keys, k, m)
    decreases m
  {
    if n < m {
      IndicesExtend(keys, k, n, m - 1);
    }
  }

  /** How many of the first n keys are below g. */
  function CountBelow(keys: seq<nat>, g: nat, n: nat): (c: nat)
    requires n <= |keys|
  {
    if n == 0 then 0 else CountBelow(keys, g, n - 1) + if keys[n - 1] < g then 1 else 0
  }

  lemma {:induction false} CountOneMore(keys: seq<nat>, g: nat, n: nat)
    requires n <= |keys|
    ensures CountBelow(keys, g + 1, n) == CountBelow(keys, g, n) + |Indices(keys, g, n)|
    ensures CountBelow(keys, 0, n) == 0
  {
    if n != 0 {
      CountOneMore(keys, g, n - 1);
    }
  }

  lemma {:induction false} CountAll(keys: seq<nat>, g: nat, n: nat)
    requires n <= |keys| && forall i :: 0 <= i < n ==> keys[i] < g
    ensures CountBelow(keys, g, n) == n
  {
    if n != 0 {
      CountAll(keys, g, n - 1);
    }
  }

  lemma {:induction false} GroupedLength(keys: seq<nat>, groups: nat)
    ensures |Grouped(keys, groups)| == CountBelow(keys, groups, |keys|)
  {
    if groups == 0 {
      CountOneMore(keys, 0, |keys|);
    } else {
      GroupedLength(keys, groups - 1);
      CountOneMore(keys, groups - 1, |keys|);
    }
  }

  lemma {:induction false} GroupedHolds(keys: seq<nat>, groups: nat)
    ensures forall i :: i in Grouped(keys, groups) <==> 0 <= i < |keys| && keys[i] < groups
  {
    if groups != 0 {
      GroupedHolds(keys, groups - 1);
      IndicesAreThose(keys, groups - 1, |keys|);
    }
  }

  /** a comes before b: a smaller key, or the same key and an earlier position. */
  predicate Before(keys: seq<nat>, a: nat, b: nat)
    requires a < |keys| && b < |keys|
  {
    keys[a] < keys[b] || (keys[a] == keys[b] && a < b)
  }

  /** order lists every position below |keys| once, by key, keeping the old order within a key. */
  ghost predicate IsStableOrder(keys: seq<nat>, order: seq<nat>) {
    && |order| == |keys|
    && (forall j :: 0 <= j < |order| ==> order[j] < |keys|)
    && (forall i :: 0 <= i < |keys| ==> i in order)
    && (forall i, j :: 0 <= i < j < |order| ==> Before(keys, order[i], order[j]))
  }

  lemma {:induction false} GroupedSorted(keys: seq<nat>, groups: nat)
    ensures forall j :: 0 <= j < |Grouped(keys, groups)| ==> Grouped(keys, groups)[j] < |keys|
    ensures forall i, j :: 0 <= i < j < |Grouped(keys, groups)| ==>
              Before(keys, Grouped(keys, groups)[i], Grouped(keys, groups)[j])
  {
    if groups != 0 {
      var a, b := Grouped(keys, groups - 1), Indices(keys, groups - 1, |keys|);
      GroupedSorted(keys, groups - 1);
      GroupedHolds(keys, groups - 1);
      IndicesAreThose(keys, groups - 1, |keys|);
      forall j | 0 <= j < |a|
        ensures keys[a[j]] < groups - 1
      {
        assert a[j] in a;
      }
      forall j | 0 <= j < |b|
        ensures b[j] < |keys| && keys[b[j]] == groups - 1
      {
        assert b[j] in b;
      }
    }
  }

  lemma GroupedIsStableOrder(keys: seq<nat>, groups: nat)
    requires forall i :: 0 <= i < |keys| ==> keys[i] < groups
    ensures IsStableOrder(keys, Grouped(keys, groups))
  {
    GroupedLength(keys, groups);
    CountAll(keys, groups, |keys|);
    GroupedHolds(keys, groups);
    GroupedSorted(keys, groups);
  }

  /** newIndex sends the position at place j of the order to j. */
  ghost predicate Inverts(newIndex: seq<nat>, order: seq<nat>) {
    && |newIndex| == |order|
    && forall j :: 0 <= j < |order| ==> order[j] < |newIndex| && newIndex[order[j]] == j
  }

  function Gather<T>(xs: seq<T>, order: seq<nat>): (r: seq<T>)
    requires forall j :: 0 <= j < |order| ==> order[j] < |xs|
    ensures |r| == |order|
  {
    seq(|order|, j requires 0 <= j < |order| => xs[order[j]])
  }

  /** The new index is a bijection, and the gathered sequence has every element at its new index. */
  lemma OrderIsBijection<T>(keys: seq<nat>, order: seq<nat>, newIndex: seq<nat>, xs: seq<T>)
    requires IsStableOrder(keys, order) && Inverts(newIndex, order) && |xs| == |keys|
    ensures forall i :: 0 <= i < |xs| ==> newIndex[i] < |xs| && order[newIndex[i]] == i
    ensures forall i, j :: 0 <= i < j < |xs| ==> newIndex[i] != newIndex[j]
    ensures forall i :: 0 <= i < |xs| ==> Gather(xs, order)[newIndex[i]] == xs[i]
  {
    forall i | 0 <= i < |xs|
      ensures newIndex[i] < |xs| && order[newIndex[i]] == i
    {
      assert i in order;
      var j :| 0 <= j < |order| && order[j] == i;
      assert newIndex[order[j]] == j;
    }
  }

  /** xs with its elements grouped by key. */
  function Arranged<T>(xs: seq<T>, keys: seq<nat>, groups: nat): (r: seq<T>)
    requires |keys| == |xs| && forall i :: 0 <= i < |keys| ==> keys[i] < groups
    ensures |r| == |xs|
  {
    GroupedIsStableOrder(keys, groups);
    Gather(xs, Grouped(keys, groups))
  }

  /** A partial new index: it inverts the part of the order collected so far. */
  ghost predicate InvertsSoFar(newIndex: seq<nat>, order: seq<nat>) {
    forall j :: 0 <= j < |order| ==> order[j] < |newIndex| && newIndex[order[j]] == j
  }

  /** What is being collected: the groups below g, and the members of group g among the first n. */
  function SoFar(keys: seq<nat>, g: nat, n: nat): (order: seq<nat>)
    requires n <= |keys|
  {
    Grouped(keys, g) + Indices(keys, g, n)
  }

  lemma SoFarHolds(keys: seq<nat>, g: nat, n: nat)
    requires n <= |keys|
    ensures forall j :: 0 <= j < |SoFar(keys, g, n)| ==>
              SoFar(keys, g, n)[j] < |keys| &&
              (keys[SoFar(keys, g, n)[j]] < g || (keys[SoFar(keys, g, n)[j]] == g && SoFar(keys, g, n)[j] < n))
  {
    GroupedHolds(keys, g);
    IndicesAreThose(keys, g, n);
    forall j | 0 <= j < |SoFar(keys, g, n)|
      ensures SoFar(keys, g, n)[j] in Grouped(keys, g) || SoFar(keys, g, n)[j] in Indices(keys, g, n)
    {
    }
  }

  /** Collecting position i at the end of the order so far, and recording its place. */
  lemma CollectNext(keys: seq<nat>, g: nat, i: nat, newIndex: seq<nat>)
    requires i < |keys| == |newIndex| && keys[i] == g
    requires InvertsSoFar(newIndex, SoFar(keys, g, i))
    ensures SoFar(keys, g, i + 1) == SoFar(keys, g, i) + [i]
    ensures InvertsSoFar(newIndex[i := |SoFar(keys, g, i)|], SoFar(keys, g, i + 1))
  {
    SoFarHolds(keys, g, i);
  }
}
