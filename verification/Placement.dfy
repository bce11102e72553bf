/**
 The order interfaces are defined in (tools/gen-bindings.cpp, `generate`): parents first, and a cycle found exactly when
 there is one.
 */
module Placement {
  import opened Wrappers

  /** An interface; an empty parent is none. */
  datatype Interface = Interface(name: string, parent: string, existing: bool)

  /** The interfaces to define in their order, or the first that is wrong. */
  datatype Outcome = DefinedTwice(at: nat) | NotDeclared(at: nat) | Cycle(at: nat) | Order(order: seq<nat>)

  function Index(all: seq<Interface>, name: string): (r: Option<nat>)
    ensures r.Some? ==> r.value < |all| && all[r.value].name == name
    ensures r.None? ==> forall i :: 0 <= i < |all| ==> all[i].name != name
    decreases |all|
  {
    if all == [] then None
    else
      var n := |all| - 1;
      if all[n].name == name then Some(n) else
        var r := Index(all[..n], name);
        if r.None? then (assert forall i :: 0 <= i < n ==> all[..n][i] == all[i]; None) else r
  }

  ghost predicate Once(all: seq<Interface>) { forall i, j :: 0 <= i < j < |all| ==> all[i].name != all[j].name }

  predicate ParentKnown(all: seq<Interface>, i: nat)
    requires i < |all|
  {
    all[i].parent == "" || Index(all, all[i].parent).Some?
  }

  ghost predicate Declared(all: seq<Interface>) { Once(all) && forall i :: 0 <= i < |all| ==> ParentKnown(all, i) }

  /** Where the search up the parents of i goes next: nowhere from one that exists or has no parent. */
  function Up(all: seq<Interface>, i: nat): Option<nat> {
    if i >= |all| || all[i].existing || all[i].parent == "" then None else Index(all, all[i].parent)
  }

  /** The k-th on the way up from i. */
  function Ancestor(all: seq<Interface>, i: nat, k: nat): Option<nat>
    decreases k
  {
    if k == 0 then Some(i)
    else
      var a := Ancestor(all, i, k - 1);
      if a.None? then None else Up(all, a.value)
  }

  /** The way up from i ends: at an interface that exists already or that has no parent. */
  ghost predicate Ends(all: seq<Interface>, i: nat) { exists k: nat :: Ancestor(all, i, k) == None }

  /** The way up from i comes back to where it was: a cycle no existing interface cuts. */
  ghost predicate EntersCycle(all: seq<Interface>, i: nat) {
    exists j: nat, k: nat :: j < k && Ancestor(all, i, j).Some? && Ancestor(all, i, j) == Ancestor(all, i, k)
  }

  ghost predicate Distinct(s: seq<nat>) { forall i, j :: 0 <= i < j < |s| ==> s[i] != s[j] }

  /** Distinct numbers below n are no more than n. */
  lemma {:induction false} DistinctFit(s: seq<nat>, n: nat)
    requires Distinct(s) && forall i :: 0 <= i < |s| ==> s[i] < n
    ensures |s| <= n
    decreases n
  {
    if s == [] {
    } else if k :| 0 <= k < |s| && s[k] == n - 1 {
      var t := s[..k] + s[k + 1..];
      DistinctFit(t, n - 1);
    } else {
      assert s[0] < n;
      DistinctFit(s, n - 1);
    }
  }

  lemma UpFits(all: seq<Interface>, i: nat)
    ensures Up(all, i).Some? ==> i < |all| && Up(all, i).value < |all|
  {
  }

  lemma {:induction false} AncestorFits(all: seq<Interface>, i: nat, k: nat)
    requires i < |all|
    ensures Ancestor(all, i, k).Some? ==> Ancestor(all, i, k).value < |all|
    decreases k
  {
    if k > 0 && Ancestor(all, i, k - 1).Some? {
      UpFits(all, Ancestor(all, i, k - 1).value);
    }
  }

  lemma {:induction false} AncestorEarlier(all: seq<Interface>, i: nat, j: nat, k: nat)
    requires j <= k && Ancestor(all, i, k).Some?
    ensures Ancestor(all, i, j).Some?
    decreases k - j
  {
    hide Up;
    if j < k {
      AncestorEarlier(all, i, j + 1, k);
    }
  }

  lemma {:induction false} AncestorShift(all: seq<Interface>, i: nat, j: nat, k: nat, m: nat)
    requires Ancestor(all, i, j) == Ancestor(all, i, k)
    ensures Ancestor(all, i, j + m) == Ancestor(all, i, k + m)
    decreases m
  {
    hide Up;
    if m > 0 {
      AncestorShift(all, i, j, k, m - 1);
    }
  }

  lemma {:induction false} CycleGoesOn(all: seq<Interface>, i: nat, j: nat, k: nat, n: nat)
    requires j < k && Ancestor(all, i, j).Some? && Ancestor(all, i, j) == Ancestor(all, i, k)
    ensures Ancestor(all, i, n).Some?
    decreases n
  {
    if n <= k {
      AncestorEarlier(all, i, n, k);
    } else {
      AncestorShift(all, i, j, k, n - k);
      CycleGoesOn(all, i, j, k, j + (n - k));
    }
  }

  /** The way up either ends or comes round: there is no third. */
  lemma EndsIff(all: seq<Interface>, i: nat)
    requires i < |all|
    ensures Ends(all, i) <==> !EntersCycle(all, i)
  {
    hide Ancestor;
    if EntersCycle(all, i) {
      var j: nat, k: nat :| j < k && Ancestor(all, i, j).Some? && Ancestor(all, i, j) == Ancestor(all, i, k);
      forall n: nat
        ensures Ancestor(all, i, n) != None
      {
        CycleGoesOn(all, i, j, k, n);
      }
    }
    if !Ends(all, i) {
      var n := |all| + 1;
      assert forall k: nat :: Ancestor(all, i, k) != None;
      var s := seq(n, k requires k >= 0 => Ancestor(all, i, k).value);
      forall k | 0 <= k < n
        ensures s[k] < |all|
      {
        AncestorFits(all, i, k);
      }
      if Distinct(s) {
        DistinctFit(s, |all|);
      }
      var j, k :| 0 <= j < k < n && s[j] == s[k];
      assert Ancestor(all, i, j) == Ancestor(all, i, k);
    }
  }

  // Placing.

  /** An interface whose parent is placed may be placed. */
  predicate Ready(all: seq<Interface>, placed: set<string>, i: nat)
    requires i < |all|
  {
    all[i].parent == "" || all[i].parent in placed
  }

  /** Each of the order is to be defined, once, and its parent exists or comes before it. */
  ghost predicate ParentsFirst(all: seq<Interface>, order: seq<nat>) {
    && Distinct(order)
    && (forall p :: 0 <= p < |order| ==> order[p] < |all| && !all[order[p]].existing)
    && (forall p :: 0 <= p < |order| ==> ParentBefore(all, order, p))
  }

  ghost predicate ParentBefore(all: seq<Interface>, order: seq<nat>, p: nat)
    requires p < |order| && order[p] < |all|
  {
    all[order[p]].parent == ""
    || exists i :: 0 <= i < |all| && all[i].name == all[order[p]].parent && (all[i].existing || i in order[..p])
  }

  /** What is marked as placed is what exists and what is in the order. */
  ghost predicate Marked(all: seq<Interface>, placed: set<string>, order: seq<nat>) {
    forall i :: 0 <= i < |all| ==> (all[i].name in placed <==> all[i].existing || i in order)
  }

  ghost predicate OnlyNames(all: seq<Interface>, placed: set<string>) {
    forall n :: n in placed ==> exists i :: 0 <= i < |all| && all[i].name == n
  }

  ghost predicate PlacedEnd(all: seq<Interface>, placed: set<string>) {
    forall i :: 0 <= i < |all| && all[i].name in placed ==> Ends(all, i)
  }

  ghost predicate Good(all: seq<Interface>, placed: set<string>, order: seq<nat>) {
    ParentsFirst(all, order) && Marked(all, placed, order) && OnlyNames(all, placed) && PlacedEnd(all, placed)
  }

  lemma {:induction false} AncestorUp(all: seq<Interface>, i: nat, k: nat)
    ensures Up(all, i).Some? ==> Ancestor(all, i, k + 1) == Ancestor(all, Up(all, i).value, k)
    decreases k
  {
    hide Up;
    if k > 0 {
      AncestorUp(all, i, k - 1);
    } else {
      assert Ancestor(all, i, 0) == Some(i);
    }
  }

  lemma EndsStep(all: seq<Interface>, i: nat)
    ensures Ends(all, i) <==> Up(all, i) == None || Ends(all, Up(all, i).value)
  {
    hide Up;
    if Up(all, i) == None {
      assert Ancestor(all, i, 0) == Some(i);
      assert Ancestor(all, i, 1) == None;
    } else {
      if Ends(all, i) {
        var k: nat :| Ancestor(all, i, k) == None;
        assert Ancestor(all, i, 0) == Some(i);
        AncestorUp(all, i, k - 1);
        assert Ancestor(all, Up(all, i).value, k - 1) == None;
      }
      if Ends(all, Up(all, i).value) {
        var k: nat :| Ancestor(all, Up(all, i).value, k) == None;
        AncestorUp(all, i, k);
        assert Ancestor(all, i, k + 1) == None;
      }
    }
  }

  lemma UpIs(all: seq<Interface>, i: nat)
    requires Declared(all) && i < |all| && !all[i].existing && all[i].parent != ""
    ensures Up(all, i).Some? && Up(all, i).value < |all| && all[Up(all, i).value].name == all[i].parent
  {
    assert ParentKnown(all, i);
  }

  lemma PlaceOne(all: seq<Interface>, placed: set<string>, order: seq<nat>, i: nat)
    requires Declared(all) && Good(all, placed, order) && i < |all| && all[i].name !in placed && Ready(all, placed, i)
    ensures Good(all, placed + {all[i].name}, order + [i])
  {
    var q, o := placed + {all[i].name}, order + [i];
    assert !all[i].existing && i !in order;
    PlaceOrder(all, placed, order, i);
    hide ParentsFirst;
    forall j | 0 <= j < |all|
      ensures all[j].name in q <==> all[j].existing || j in o
    {
      assert j != i ==> all[j].name != all[i].name;
    }
    forall j | 0 <= j < |all| && all[j].name in q
      ensures Ends(all, j)
    {
      if all[j].name == all[i].name {
        assert j == i;
        EndsStep(all, i);
        if all[i].parent != "" {
          UpIs(all, i);
        }
      }
    }
  }

  lemma PlaceOrder(all: seq<Interface>, placed: set<string>, order: seq<nat>, i: nat)
    requires ParentsFirst(all, order) && Marked(all, placed, order) && OnlyNames(all, placed)
    requires i < |all| && all[i].name !in placed && Ready(all, placed, i)
    ensures ParentsFirst(all, order + [i])
  {
    var o := order + [i];
    assert !all[i].existing && i !in order;
    assert forall p :: 0 <= p < |order| ==> order[p] in order;
    forall p | 0 <= p < |o|
      ensures o[p] < |all| && !all[o[p]].existing && ParentBefore(all, o, p)
    {
      if p < |order| {
        assert ParentBefore(all, order, p) && o[..p] == order[..p];
      } else {
        assert o[..p] == order;
        if all[i].parent != "" {
          var j :| 0 <= j < |all| && all[j].name == all[i].parent;
          assert all[j].name in placed;
        }
      }
    }
  }

  /** When a pass places nothing, what is left has no end above it. */
  lemma {:induction false} NothingEnds(all: seq<Interface>, placed: set<string>, i: nat, k: nat)
    requires Declared(all) && i < |all| && Ancestor(all, i, k) == None
    requires forall j :: 0 <= j < |all| ==> all[j].name in placed || !Ready(all, placed, j)
    requires forall j :: 0 <= j < |all| && all[j].existing ==> all[j].name in placed
    ensures all[i].name in placed
    decreases k
  {
    if all[i].name !in placed {
      assert Ancestor(all, i, 0) == Some(i);
      UpIs(all, i);
      AncestorUp(all, i, k - 1);
      NothingEnds(all, placed, Up(all, i).value, k - 1);
    }
  }

  /**
   The placement loop of `generate`, its checks before it included. It ends; the first interface defined a second time, or
   whose parent is not declared, is named; else it fails exactly if some interface's way up comes round, and names the first
   such; and else every interface that is not marked as existing is in the order once, after its parent.
   */
  method Place(all: seq<Interface>) returns (r: Outcome)
    ensures r.DefinedTwice? <==> !Once(all)
    ensures r.DefinedTwice? ==> r.at < |all| && (exists i :: 0 <= i < r.at && all[i].name == all[r.at].name) && Once(all[..r.at])
    ensures r.NotDeclared? <==> Once(all) && !Declared(all)
    ensures r.NotDeclared? ==> r.at < |all| && !ParentKnown(all, r.at) && forall i :: 0 <= i < r.at ==> ParentKnown(all, i)
    ensures r.Cycle? <==> Declared(all) && exists i: nat :: i < |all| && EntersCycle(all, i)
    ensures r.Cycle? ==> r.at < |all| && EntersCycle(all, r.at) && forall i: nat :: i < r.at ==> !EntersCycle(all, i)
    ensures r.Order? ==> ParentsFirst(all, r.order) && forall i: nat :: i < |all| ==> (i in r.order <==> !all[i].existing)
  {
    hide EntersCycle, Ends, ParentKnown, ParentsFirst;
    for i := 0 to |all|
      invariant Once(all[..i])
    {
      var seen := Index(all[..i], all[i].name);
      if seen.Some? {
        assert all[seen.value].name == all[i].name;
        return DefinedTwice(i);
      }
      OnceMore(all, i);
    }
    assert all[..|all|] == all;
    for i := 0 to |all|
      invariant forall j :: 0 <= j < i ==> ParentKnown(all, j)
    {
      if !ParentKnown(all, i) {
        return NotDeclared(i);
      }
    }
    var placed, order := PlaceAll(all);
    for i := 0 to |all|
      invariant forall j :: 0 <= j < i ==> all[j].name in placed
      invariant forall j: nat :: j < i ==> !EntersCycle(all, j)
    {
      EndsIff(all, i);
      if all[i].name !in placed {
        return Cycle(i);
      }
    }
    OrderExact(all, placed, order);
    r := Order(order);
  }

  lemma OrderExact(all: seq<Interface>, placed: set<string>, order: seq<nat>)
    requires Good(all, placed, order) && forall i :: 0 <= i < |all| ==> all[i].name in placed
    ensures forall i: nat :: i < |all| ==> (i in order <==> !all[i].existing)
  {
    hide ParentBefore, Distinct, OnlyNames, PlacedEnd;
  }

  lemma OnceMore(all: seq<Interface>, i: nat)
    requires i < |all| && Once(all[..i]) && forall j :: 0 <= j < i ==> all[..i][j].name != all[i].name
    ensures Once(all[..i + 1])
  {
    assert forall j :: 0 <= j < i ==> all[..i + 1][j] == all[..i][j];
  }

  method PlaceAll(all: seq<Interface>) returns (placed: set<string>, order: seq<nat>)
    requires Declared(all)
    ensures Good(all, placed, order)
    ensures forall i :: 0 <= i < |all| ==> (all[i].name in placed <==> Ends(all, i))
  {
    hide Good, Declared, Ends, Ancestor;
    order := [];
    placed := MarkExisting(all);
    var progress := true;
    while progress
      invariant Good(all, placed, order) && |order| <= |all|
      invariant progress || forall i :: 0 <= i < |all| ==> all[i].name in placed || !Ready(all, placed, i)
      decreases |all| - |order| + if progress then 1 else 0
    {
      progress := false;
      ghost var before := |order|;
      for i := 0 to |all|
        invariant Good(all, placed, order) && before <= |order| <= |all| && (progress ==> before < |order|)
        invariant progress || forall j :: 0 <= j < i ==> all[j].name in placed || !Ready(all, placed, j)
      {
        if all[i].name in placed {
          continue;
        }
        if Ready(all, placed, i) {
          PlaceOne(all, placed, order, i);
          order := order + [i];
          placed := placed + {all[i].name};
          progress := true;
          OrderFits(all, placed, order);
        }
      }
    }
    forall i | 0 <= i < |all|
      ensures all[i].name in placed <==> Ends(all, i)
    {
      PlacedIff(all, placed, order, i);
    }
  }

  lemma OrderFits(all: seq<Interface>, placed: set<string>, order: seq<nat>)
    requires Good(all, placed, order)
    ensures |order| <= |all|
  {
    DistinctFit(order, |all|);
  }

  lemma PlacedIff(all: seq<Interface>, placed: set<string>, order: seq<nat>, i: nat)
    requires Declared(all) && Good(all, placed, order) && i < |all|
    requires forall j :: 0 <= j < |all| ==> all[j].name in placed || !Ready(all, placed, j)
    ensures all[i].name in placed <==> Ends(all, i)
  {
    hide Declared, ParentsFirst, Ancestor, Ready;
    if Ends(all, i) {
      var k: nat :| Ancestor(all, i, k) == None;
      NothingEnds(all, placed, i, k);
    }
  }

  method MarkExisting(all: seq<Interface>) returns (placed: set<string>)
    requires Declared(all)
    ensures Good(all, placed, [])
  {
    placed := {};
    for i := 0 to |all|
      invariant forall n :: n in placed <==> exists j :: 0 <= j < i && all[j].existing && all[j].name == n
    {
      if all[i].existing {
        placed := placed + {all[i].name};
      }
    }
    forall i | 0 <= i < |all|
      ensures (all[i].name in placed <==> all[i].existing) && (all[i].existing ==> Ends(all, i))
    {
      EndsStep(all, i);
    }
  }
}
