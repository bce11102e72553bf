/**
 The walk itself (tools/gen-aac-tables.py): over the table of nodes, filling a dictionary, asserting as it goes. It
 computes what Codewords says of the tree the table means.
 */
module CodewordWalk {
  import opened Wrappers
  import opened Codewords

  type Table = seq<seq<nat>>

  /** Every node has four entries, and the ones that are no leaves lead to nodes of lower rank: the table is a finite tree. */
  ghost predicate Grounded(nodes: Table, rank: seq<nat>) {
    && |rank| == |nodes|
    && forall n :: 0 <= n < |nodes| ==> NodeOk(nodes, rank, n)
  }

  predicate NodeOk(nodes: Table, rank: seq<nat>, n: nat)
    requires |rank| == |nodes| && n < |nodes|
  {
    && |nodes[n]| == 4
    && forall k :: 0 <= k < 4 && nodes[n][k] % 2 == 0 ==> nodes[n][k] / 4 < |nodes| && rank[nodes[n][k] / 4] < rank[n]
  }

  ghost function TreeOf(nodes: Table, rank: seq<nat>, n: nat): (t: Tree)
    requires Grounded(nodes, rank) && n < |nodes|
    ensures t.Node?
    decreases rank[n], 0
  {
    Node(SlotTree(nodes, rank, n, 0), SlotTree(nodes, rank, n, 1), SlotTree(nodes, rank, n, 2), SlotTree(nodes, rank, n, 3))
  }

  ghost function SlotTree(nodes: Table, rank: seq<nat>, n: nat, k: nat): Tree
    requires Grounded(nodes, rank) && n < |nodes| && k < 4
    decreases rank[n], 0, 0
  {
    assert NodeOk(nodes, rank, n);
    var entry := nodes[n][k];
    if entry % 2 == 1 then Leaf(entry / 4, entry / 2 % 2 == 1) else TreeOf(nodes, rank, entry / 4)
  }

  /** The leaves from a slot of a node on. */
  function From(t: Tree, code: nat, length: nat, k: nat): seq<Entry>
    requires t.Node? && k <= 4
    decreases 4 - k
  {
    if k == 4 then [] else Of(Kid(t, k), 4 * code + k, length) + From(t, code, length, k + 1)
  }

  lemma FromFirst(t: Tree, code: nat, length: nat)
    requires t.Node?
    ensures From(t, code, length, 0) == Slots(t, code, length)
  {
    hide Of, Kid;
    var a, b := Of(Kid(t, 0), 4 * code, length), Of(Kid(t, 1), 4 * code + 1, length);
    var c, d := Of(Kid(t, 2), 4 * code + 2, length), Of(Kid(t, 3), 4 * code + 3, length);
    assert From(t, code, length, 4) == [] && From(t, code, length, 3) == d + [] && From(t, code, length, 2) == c + (d + []);
    assert a + (b + (c + (d + []))) == (a + b) + (c + d);
  }

  lemma CollectFrom(found: seq<Entry>, t: Tree, code: nat, length: nat, k: nat)
    requires t.Node? && k < 4
    ensures var s := Of(Kid(t, k), 4 * code + k, length);
            var f := Collect(found, s);
            Collect(found, From(t, code, length, k))
            == if f.None? then None else Collect(f.value, From(t, code, length, k + 1))
  {
    hide Of, Kid, Collect;
    CollectConcat(found, Of(Kid(t, k), 4 * code + k, length), From(t, code, length, k + 1));
  }

  /** What an entry of the table means: odd, a leaf of a value, half or whole; even, the node it leads to. */
  lemma SlotMeans(nodes: Table, rank: seq<nat>, n: nat, k: nat, value: nat, half: bool)
    requires Grounded(nodes, rank) && n < |nodes| && k < 4
    requires |nodes[n]| == 4 ==> nodes[n][k] == 4 * value || nodes[n][k] == 4 * value + (if half then 3 else 1)
    ensures |nodes[n]| == 4
    ensures nodes[n][k] == 4 * value ==> value < |nodes| && Kid(TreeOf(nodes, rank, n), k) == TreeOf(nodes, rank, value)
    ensures nodes[n][k] != 4 * value ==> Kid(TreeOf(nodes, rank, n), k) == Leaf(value, half)
  {
    assert NodeOk(nodes, rank, n);
    SlotKid(nodes, rank, n, k);
    EntryParts(value, half);
    hide Kid, TreeOf, Grounded;
  }

  lemma EntryParts(value: nat, half: bool)
    ensures 4 * value % 2 == 0 && 4 * value / 4 == value
    ensures var e := 4 * value + (if half then 3 else 1); e % 2 == 1 && e / 4 == value && (e / 2 % 2 == 1 <==> half)
  {
    var e := 4 * value + (if half then 3 else 1);
    var h := if half then 1 else 0;
    assert e == 2 * (2 * value + h) + 1;
    assert e / 2 == 2 * value + h;
  }

  lemma SlotKid(nodes: Table, rank: seq<nat>, n: nat, k: nat)
    requires Grounded(nodes, rank) && n < |nodes| && k < 4
    ensures Kid(TreeOf(nodes, rank, n), k) == SlotTree(nodes, rank, n, k)
  {
  }

  class Book {
    /** The dictionary, in the order of insertion. */
    var found: seq<Entry>

    constructor ()
      ensures found == []
    {
      found := [];
    }

    /** A leaf taken in: the assertion holds unless its value is known with another codeword. */
    method Take(e: Entry) returns (ok: bool)
      modifies this
      ensures ok == Add(old(found), e).Some? && (ok ==> found == Add(old(found), e).value)
    {
      var known := Get(found, e.value);
      if known.Some? {
        ok := known.value == e;
      } else {
        found, ok := found + [e], true;
      }
    }

    /** `walk`, from a node: every leaf under it taken in, or an assertion failed. */
    method Walk(nodes: Table, node: nat, code: nat, length: nat, ghost rank: seq<nat>) returns (ok: bool)
      requires Grounded(nodes, rank) && node < |nodes|
      modifies this
      ensures var c := Collect(old(found), Slots(TreeOf(nodes, rank, node), code, length));
              ok == c.Some? && (ok ==> found == c.value)
      decreases rank[node]
    {
      hide TreeOf, Slots, From, Collect, Add;
      ghost var t := TreeOf(nodes, rank, node);
      ghost var whole := Collect(found, Slots(t, code, length));
      FromFirst(t, code, length);
      for two := 0 to 4
        invariant whole == Collect(found, From(t, code, length, two))
      {
        assert NodeOk(nodes, rank, node);
        var entry := nodes[node][two];
        var c := 4 * code + two;
        CollectFrom(found, t, code, length, two);
        SlotKid(nodes, rank, node, two);
        SlotOne(Kid(t, two), c, length, found);
        if entry % 2 == 1 {
          var e := if entry / 2 % 2 == 1 then Entry(entry / 4, length + 1, c / 2) else Entry(entry / 4, length + 2, c);
          ok := Take(e);
        } else {
          ok := Walk(nodes, entry / 4, c, length + 2, rank);
        }
        if !ok {
          return;
        }
      }
      FromLast(t, code, length, found);
      ok := true;
    }

    /** `codewords`: the dictionary when the walk is over and the Kraft sum is one, or a failed assertion. */
    method Codewords(nodes: Table, ghost rank: seq<nat>) returns (r: Option<seq<Entry>>)
      requires Grounded(nodes, rank) && |nodes| > 0 && found == []
      modifies this
      ensures r.Some? == CodesOf(TreeOf(nodes, rank, 0)).Some?
      ensures r.Some? ==> ByValue(r.value) && forall e :: e in r.value <==> e in CodesOf(TreeOf(nodes, rank, 0)).value
    {
      hide Collect, Slots, TreeOf, Kraft, Sorted;
      var ok := Walk(nodes, 0, 0, 0, rank);
      if !ok {
        return None;
      }
      var kraft := 0.0;
      var k := |found|;
      assert found[k..] == [];
      KraftNone();
      while k > 0
        invariant 0 <= k <= |found| && kraft == Kraft(found[k..])
        invariant found == Collect([], Slots(TreeOf(nodes, rank, 0), 0, 0)).value
      {
        k := k - 1;
        KraftStep(found, k);
        kraft := kraft + Share(found[k].len);
      }
      assert found[0..] == found;
      r := if kraft == 1.0 then Some(Sorted(found)) else None;
      DictionaryDistinct(Slots(TreeOf(nodes, rank, 0), 0, 0));
      SortedIs(found);
    }
  }

  // The dictionary by value.

  ghost predicate ByValue(s: seq<Entry>) { forall i, j :: 0 <= i < j < |s| ==> s[i].value < s[j].value }

  ghost predicate Distinct(s: seq<Entry>) { forall i, j :: 0 <= i < j < |s| ==> s[i].value != s[j].value }

  function Insert(s: seq<Entry>, e: Entry): seq<Entry>
    decreases |s|
  {
    if s == [] || e.value <= s[0].value then [e] + s else [s[0]] + Insert(s[1..], e)
  }

  function Sorted(s: seq<Entry>): seq<Entry>
    decreases |s|
  {
    if s == [] then [] else Insert(Sorted(s[1..]), s[0])
  }

  lemma {:induction false} InsertIs(s: seq<Entry>, e: Entry)
    requires ByValue(s) && forall x :: x in s ==> x.value != e.value
    ensures ByValue(Insert(s, e)) && forall x :: x in Insert(s, e) <==> x in s || x == e
    decreases |s|
  {
    if s != [] {
      var t := s[1..];
      assert s == [s[0]] + t;
      if e.value > s[0].value {
        InsertIs(t, e);
        hide Insert;
        forall x | x in t
          ensures s[0].value < x.value
        {
          var i :| 0 <= i < |t| && t[i] == x;
          assert s[i + 1] == x;
        }
        assert forall i :: 0 <= i < |Insert(t, e)| ==> Insert(t, e)[i] in Insert(t, e);
      }
    }
  }

  lemma {:induction false} SortedIs(s: seq<Entry>)
    requires Distinct(s)
    ensures ByValue(Sorted(s)) && forall e :: e in Sorted(s) <==> e in s
    decreases |s|
  {
    if s != [] {
      var t := s[1..];
      SortedIs(t);
      assert s == [s[0]] + t;
      forall x | x in Sorted(t)
        ensures x.value != s[0].value
      {
        var i :| 0 <= i < |t| && t[i] == x;
        assert s[i + 1] == x;
      }
      hide Insert;
      InsertIs(Sorted(t), s[0]);
    }
  }

  lemma {:induction false} CollectDistinct(found: seq<Entry>, s: seq<Entry>)
    requires Distinct(found) && Collect(found, s).Some?
    ensures Distinct(Collect(found, s).value)
    decreases |s|
  {
    if s != [] {
      GetIs(found, s[0].value);
      CollectDistinct(Add(found, s[0]).value, s[1..]);
    }
  }

  lemma DictionaryDistinct(s: seq<Entry>)
    requires Collect([], s).Some?
    ensures Distinct(Collect([], s).value)
  {
    CollectDistinct([], s);
  }

  lemma SlotOne(t: Tree, code: nat, length: nat, found: seq<Entry>)
    ensures t.Leaf? ==> Collect(found, Of(t, code, length)) == Add(found, LeafEntry(t, code, length))
    ensures t.Node? ==> Of(t, code, length) == Slots(t, code, length + 2)
  {
    if t.Leaf? {
      CollectOne(found, LeafEntry(t, code, length));
    }
  }

  lemma FromLast(t: Tree, code: nat, length: nat, found: seq<Entry>)
    requires t.Node?
    ensures Collect(found, From(t, code, length, 4)) == Some(found)
  {
  }

  lemma KraftNone()
    ensures Kraft([]) == 0.0
  {
  }

  lemma KraftStep(s: seq<Entry>, k: nat)
    requires k < |s|
    ensures Kraft(s[k..]) == Share(s[k].len) + Kraft(s[k + 1..])
  {
    hide Share;
    assert s[k..][1..] == s[k + 1..];
  }
}
