/**
 Sorting pairs of numbers as tools/gen-unicode.cpp does before it packs them. The order is total, so that a sorted list is
 what it is whatever sorts it.
 */
module Pairs {
  datatype Pair = Pair(first: nat, second: nat)

  predicate Ordered(t: seq<Pair>) { forall i, j :: 0 <= i < j < |t| ==> t[i].first <= t[j].first }

  /** Sorting, as pairs are ordered. */
  predicate InOrder(a: Pair, b: Pair) { a.first < b.first || (a.first == b.first && a.second <= b.second) }

  function Insert(t: seq<Pair>, r: Pair): (u: seq<Pair>)
    ensures |u| == |t| + 1
    decreases |t|
  {
    if t == [] || InOrder(r, t[0]) then [r] + t else [t[0]] + Insert(t[1..], r)
  }

  function Sort(t: seq<Pair>): seq<Pair>
    decreases |t|
  {
    if t == [] then [] else Insert(Sort(t[1..]), t[0])
  }

  lemma {:induction false} InsertIs(t: seq<Pair>, r: Pair)
    ensures multiset(Insert(t, r)) == multiset(t) + multiset{r}
    decreases |t|
  {
    hide InOrder;
    if t == [] || InOrder(r, t[0]) {
      assert multiset([r] + t) == multiset{r} + multiset(t);
    } else {
      InsertIs(t[1..], r);
      assert t == [t[0]] + t[1..];
    }
  }

  lemma {:induction false} InsertOrdered(t: seq<Pair>, r: Pair, low: nat)
    requires Ordered(t) && low <= r.first && (t != [] ==> low <= t[0].first)
    ensures Ordered(Insert(t, r)) && low <= Insert(t, r)[0].first
    decreases |t|
  {
    if t != [] && !InOrder(r, t[0]) {
      InsertOrdered(t[1..], r, t[0].first);
      hide Insert, InOrder;
      var u := Insert(t[1..], r);
      assert forall i :: 0 <= i < |u| ==> u[0].first <= u[i].first;
    }
  }

  lemma {:induction false} SortIs(t: seq<Pair>)
    ensures multiset(Sort(t)) == multiset(t) && Ordered(Sort(t))
    decreases |t|
  {
    if t != [] {
      SortIs(t[1..]);
      InsertIs(Sort(t[1..]), t[0]);
      InsertOrdered(Sort(t[1..]), t[0], 0);
      assert t == [t[0]] + t[1..];
    }
  }
}
