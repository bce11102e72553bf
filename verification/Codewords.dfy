/**
 The codewords of a two-bits-at-a-time decoding tree (tools/gen-aac-tables.py): when the walk's assertions pass, and that
 the code read off is then the tree's own.
 */
module Codewords {
  import opened ByteTypes
  import opened Powers
  import opened Wrappers

  /** A tree as the table means it: four entries a node, one for each pair of bits; a half leaf's code is one bit shorter. */
  datatype Tree = Leaf(value: nat, half: bool) | Node(k0: Tree, k1: Tree, k2: Tree, k3: Tree)

  /** A value with its codeword's length and bits. */
  datatype Entry = Entry(value: nat, len: nat, word: nat)

  function LeafEntry(t: Tree, code: nat, length: nat): Entry
    requires t.Leaf?
  {
    if t.half then Entry(t.value, length + 1, code / 2) else Entry(t.value, length + 2, code)
  }

  /** The leaves under one slot, `code` being the bits up to it and its own two, `length` the bits before those. */
  function Of(t: Tree, code: nat, length: nat): seq<Entry>
    decreases t, 2
  {
    if t.Leaf? then [LeafEntry(t, code, length)] else Slots(t, code, length + 2)
  }

  /** Every leaf of a node, in the order of the walk. */
  function Slots(t: Tree, code: nat, length: nat): seq<Entry>
    requires t.Node?
    decreases t, 1
  {
    Both(t, 0, code, length) + Both(t, 2, code, length)
  }

  /** The leaves of a pair of slots. */
  function Both(t: Tree, i: nat, code: nat, length: nat): seq<Entry>
    requires t.Node? && (i == 0 || i == 2)
    decreases t, 0
  {
    Of(Kid(t, i), 4 * code + i, length) + Of(Kid(t, i + 1), 4 * code + i + 1, length)
  }

  function Kid(t: Tree, two: nat): Tree
    requires t.Node? && two < 4
  {
    if two == 0 then t.k0 else if two == 1 then t.k1 else if two == 2 then t.k2 else t.k3
  }

  /** The dictionary's entry for a value; a dictionary is a list in the order of insertion. */
  function Get(found: seq<Entry>, value: nat): Option<Entry>
    decreases |found|
  {
    if found == [] then None else if found[0].value == value then Some(found[0]) else Get(found[1..], value)
  }

  /** One leaf taken in: new, or the same codeword again, or the assertion fails. */
  function Add(found: seq<Entry>, e: Entry): Option<seq<Entry>> {
    var g := Get(found, e.value);
    if g.None? then Some(found + [e]) else if g.value == e then Some(found) else None
  }

  function Collect(found: seq<Entry>, s: seq<Entry>): Option<seq<Entry>>
    decreases |s|
  {
    if s == [] then Some(found)
    else
      var f := Add(found, s[0]);
      if f.None? then None else Collect(f.value, s[1..])
  }

  /** The share of all bit strings that begin with a codeword of so many bits. */
  function Share(n: nat): (r: real)
    ensures r > 0.0
  {
    if n == 0 then 1.0 else Share(n - 1) / 2.0
  }

  function Kraft(s: seq<Entry>): real
    decreases |s|
  {
    if s == [] then 0.0 else Share(s[0].len) + Kraft(s[1..])
  }

  /** `codewords`: its entries, or None where an assertion fails. */
  function CodesOf(t: Tree): Option<seq<Entry>>
    requires t.Node?
  {
    var f := Collect([], Slots(t, 0, 0));
    if f.Some? && Kraft(f.value) == 1.0 then f else None
  }

  ghost predicate Within(a: seq<Entry>, b: seq<Entry>) { forall e :: e in a ==> e in b }

  ghost predicate Disjoint(a: seq<Entry>, b: seq<Entry>) { forall e :: e in a ==> e !in b }

  // When the assertions pass.

  /** No value stands for two codewords. */
  ghost predicate Consistent(s: seq<Entry>) {
    forall i, j :: 0 <= i < |s| && 0 <= j < |s| && s[i].value == s[j].value ==> s[i] == s[j]
  }

  /** Two slots that share a half leaf. */
  predicate Twins(a: Tree, b: Tree) { a.Leaf? && a.half && a == b }

  predicate PairShared(a: Tree, b: Tree) {
    (a.Leaf? && a.half) || (b.Leaf? && b.half) ==> Twins(a, b)
  }

  predicate SharedUnder(t: Tree)
    decreases t, 1
  {
    t.Node? ==> Shared(t)
  }

  /** Every half leaf is in the slot beside its own too. */
  predicate Shared(t: Tree)
    requires t.Node?
    decreases t, 0
  {
    && PairShared(t.k0, t.k1) && PairShared(t.k2, t.k3)
    && SharedUnder(t.k0) && SharedUnder(t.k1) && SharedUnder(t.k2) && SharedUnder(t.k3)
  }

  // The leaves with each shared half leaf once.

  function OnceUnder(t: Tree, code: nat, length: nat): seq<Entry>
    decreases t, 2
  {
    if t.Leaf? then [LeafEntry(t, code, length)] else Once(t, code, length + 2)
  }

  function Once(t: Tree, code: nat, length: nat): seq<Entry>
    requires t.Node?
    decreases t, 1
  {
    BothOnce(t, 0, code, length) + BothOnce(t, 2, code, length)
  }

  function BothOnce(t: Tree, i: nat, code: nat, length: nat): seq<Entry>
    requires t.Node? && (i == 0 || i == 2)
    decreases t, 0
  {
    OnceUnder(Kid(t, i), 4 * code + i, length)
    + if Twins(Kid(t, i), Kid(t, i + 1)) then [] else OnceUnder(Kid(t, i + 1), 4 * code + i + 1, length)
  }

  lemma {:induction false} KraftConcat(a: seq<Entry>, b: seq<Entry>)
    ensures Kraft(a + b) == Kraft(a) + Kraft(b)
    decreases |a|
  {
    hide Share;
    if a == [] {
      assert a + b == b;
    } else {
      assert (a + b)[1..] == a[1..] + b;
      KraftConcat(a[1..], b);
    }
  }

  lemma KraftOne(e: Entry)
    ensures Kraft([e]) == Share(e.len) && Kraft([]) == 0.0
  {
    assert [e][1..] == [];
  }

  lemma ShareTwice(n: nat)
    ensures Share(n) == Share(n + 1) + Share(n + 1)
  {
  }

  /** What is under a slot: a quarter of the node's share or more, just that exactly if it is a full leaf or all shared. */
  lemma {:induction false} KraftUnder(t: Tree, code: nat, length: nat)
    ensures Kraft(OnceUnder(t, code, length)) >= Share(length + 2)
    ensures Kraft(OnceUnder(t, code, length)) == Share(length + 2) <==> !(t.Leaf? && t.half) && SharedUnder(t)
    ensures t.Leaf? && t.half ==> Kraft(OnceUnder(t, code, length)) == Share(length + 2) + Share(length + 2)
    decreases t, 1
  {
    hide Kraft, Share;
    if t.Leaf? {
      KraftOne(LeafEntry(t, code, length));
      ShareTwice(length + 1);
      PositiveShare(length + 2);
    } else {
      KraftNode(t, code, length + 2);
    }
  }

  lemma PositiveShare(n: nat)
    ensures Share(n) > 0.0
  {
  }

  /** The sum over a node: its share or more, just that exactly if every half leaf is shared. */
  lemma {:induction false} KraftNode(t: Tree, code: nat, length: nat)
    requires t.Node?
    ensures Kraft(Once(t, code, length)) >= Share(length)
    ensures Kraft(Once(t, code, length)) == Share(length) <==> Shared(t)
    decreases t, 0
  {
    hide Kraft, Share, OnceUnder, SharedUnder;
    var a, b := OnceUnder(t.k0, 4 * code, length), OnceUnder(t.k1, 4 * code + 1, length);
    var c, d := OnceUnder(t.k2, 4 * code + 2, length), OnceUnder(t.k3, 4 * code + 3, length);
    KraftUnder(t.k0, 4 * code, length);
    KraftUnder(t.k1, 4 * code + 1, length);
    KraftUnder(t.k2, 4 * code + 2, length);
    KraftUnder(t.k3, 4 * code + 3, length);
    var b1, d1 := if Twins(t.k0, t.k1) then [] else b, if Twins(t.k2, t.k3) then [] else d;
    assert Once(t, code, length) == (a + b1) + (c + d1);
    KraftConcat(a + b1, c + d1);
    KraftConcat(a, b1);
    KraftConcat(c, d1);
    KraftOne(Entry(0, 0, 0));
    ShareTwice(length);
    ShareTwice(length + 1);
    PositiveShare(length + 2);
    LeafShared(t.k0);
    LeafShared(t.k1);
    LeafShared(t.k2);
    LeafShared(t.k3);
  }

  lemma LeafShared(t: Tree)
    ensures t.Leaf? ==> SharedUnder(t)
  {
  }

  // Leaves in different places are different entries.

  /** A number less its last n bits. */
  function Cut(w: nat, n: nat): nat { if n == 0 then w else Cut(w / 2, n - 1) }

  lemma {:induction false} CutMore(w: nat, m: nat, n: nat)
    ensures Cut(w, m + n) == Cut(Cut(w, m), n)
    decreases m
  {
    if m > 0 {
      CutMore(w / 2, m - 1, n);
    }
  }

  /** An entry whose first `length` bits are `code`. */
  predicate Under(e: Entry, code: nat, length: nat) { e.len >= length && Cut(e.word, e.len - length) == code }

  lemma UnderParent(e: Entry, code: nat, two: nat, length: nat)
    requires two < 4 && Under(e, 4 * code + two, length + 2)
    ensures Under(e, code, length) && e.len >= length + 2
  {
    CutMore(e.word, e.len - length - 2, 2);
    assert Cut(4 * code + two, 2) == Cut((4 * code + two) / 2 / 2, 0);
  }

  /** A leaf under a slot has the slot's bits, or is the slot's own half leaf, one bit shorter. */
  predicate InSlot(e: Entry, t: Tree, code: nat, length: nat) {
    if t.Leaf? && t.half then e == LeafEntry(t, code, length) else Under(e, code, length + 2)
  }

  lemma {:induction false} OfUnder(t: Tree, code: nat, length: nat)
    ensures forall i :: 0 <= i < |Of(t, code, length)| ==> InSlot(Of(t, code, length)[i], t, code, length)
    decreases t, 1
  {
    if t.Node? {
      SlotsUnder(t, code, length + 2);
    }
  }

  lemma SlotDeeper(e: Entry, t: Tree, code: nat, two: nat, length: nat)
    requires two < 4 && InSlot(e, t, 4 * code + two, length)
    ensures Under(e, code, length)
  {
    if t.Leaf? && t.half {
      assert e.word == (4 * code + two) / 2;
      assert Cut(e.word, 1) == Cut(e.word / 2, 0) == code;
    } else {
      UnderParent(e, code, two, length);
    }
  }

  lemma {:induction false} SlotsUnder(t: Tree, code: nat, length: nat)
    requires t.Node?
    ensures forall i :: 0 <= i < |Slots(t, code, length)| ==> Under(Slots(t, code, length)[i], code, length)
    decreases t, 0
  {
    hide Of, Under, InSlot;
    OfUnder(t.k0, 4 * code, length);
    OfUnder(t.k1, 4 * code + 1, length);
    OfUnder(t.k2, 4 * code + 2, length);
    OfUnder(t.k3, 4 * code + 3, length);
    forall i | 0 <= i < |Slots(t, code, length)|
      ensures Under(Slots(t, code, length)[i], code, length)
    {
      var two := SlotOf(t, code, length, i);
      SlotDeeper(Slots(t, code, length)[i], Kid(t, two), code, two, length);
    }
  }

  /** Which slot a leaf of a node is under. */
  lemma SlotOf(t: Tree, code: nat, length: nat, i: nat) returns (two: nat)
    requires t.Node? && i < |Slots(t, code, length)|
    ensures two < 4 && Slots(t, code, length)[i] in Of(Kid(t, two), 4 * code + two, length)
  {
    hide Of;
    var a, b := Of(t.k0, 4 * code, length), Of(t.k1, 4 * code + 1, length);
    var c, d := Of(t.k2, 4 * code + 2, length), Of(t.k3, 4 * code + 3, length);
    assert Slots(t, code, length) == (a + b) + (c + d);
    two := if i < |a| then 0 else if i < |a| + |b| then 1 else if i < |a| + |b| + |c| then 2 else 3;
  }

  /** Only twins give the same entry from two slots of a node. */
  lemma Different(t: Tree, code: nat, length: nat, i: nat, j: nat, e: Entry)
    requires t.Node? && i < j < 4
    requires e in Of(Kid(t, i), 4 * code + i, length) && e in Of(Kid(t, j), 4 * code + j, length)
    ensures i / 2 == j / 2 && Twins(Kid(t, i), Kid(t, j))
  {
    var a, b := Kid(t, i), Kid(t, j);
    OfUnder(a, 4 * code + i, length);
    OfUnder(b, 4 * code + j, length);
    hide *;
    assert InSlot(e, a, 4 * code + i, length) && InSlot(e, b, 4 * code + j, length);
    SlotBits(e, a, code, i, length);
    SlotBits(e, b, code, j, length);
    if !(a.Leaf? && a.half && b.Leaf? && b.half) {
      OneSlot(e, a, b, code, i, j, length);
    } else {
      SameHalf(e, a, b, code, i, j, length);
    }
  }

  /** The bits of the pair of slots an entry is in; its own too, if it is no half leaf. */
  lemma SlotBits(e: Entry, t: Tree, code: nat, two: nat, length: nat)
    requires two < 4 && InSlot(e, t, 4 * code + two, length)
    ensures if t.Leaf? && t.half then e.len == length + 1 && e.word == 2 * code + two / 2 && e.value == t.value
            else e.len >= length + 2 && Cut(e.word, e.len - length - 2) == 4 * code + two
  {
    if t.Leaf? && t.half {
      DivModUnique(4 * code + two, 2 * code + two / 2, two % 2, 2);
    }
  }

  lemma OneSlot(e: Entry, a: Tree, b: Tree, code: nat, i: nat, j: nat, length: nat)
    requires i < 4 && j < 4 && InSlot(e, a, 4 * code + i, length) && InSlot(e, b, 4 * code + j, length)
    requires !(a.Leaf? && a.half && b.Leaf? && b.half)
    ensures i == j
  {
    hide InSlot, Cut;
    SlotBits(e, a, code, i, length);
    SlotBits(e, b, code, j, length);
  }

  lemma SameHalf(e: Entry, a: Tree, b: Tree, code: nat, i: nat, j: nat, length: nat)
    requires i < 4 && j < 4 && InSlot(e, a, 4 * code + i, length) && InSlot(e, b, 4 * code + j, length)
    requires a.Leaf? && a.half && b.Leaf? && b.half
    ensures i / 2 == j / 2 && Twins(a, b)
  {
    hide InSlot, Cut;
    SlotBits(e, a, code, i, length);
    SlotBits(e, b, code, j, length);
  }

  lemma {:induction false} GetIs(found: seq<Entry>, value: nat)
    ensures match Get(found, value)
            case None => forall i :: 0 <= i < |found| ==> found[i].value != value
            case Some(e) => e in found && e.value == value
    decreases |found|
  {
    if found != [] {
      GetIs(found[1..], value);
    }
  }

  lemma {:induction false} CollectConcat(found: seq<Entry>, a: seq<Entry>, b: seq<Entry>)
    ensures Collect(found, a + b)
         == if Collect(found, a).None? then None else Collect(Collect(found, a).value, b)
    decreases |a|
  {
    hide Add;
    if a == [] {
      assert a + b == b;
    } else {
      assert (a + b)[1..] == a[1..] + b;
      if Add(found, a[0]).Some? {
        CollectConcat(Add(found, a[0]).value, a[1..], b);
      }
    }
  }

  lemma CollectOne(found: seq<Entry>, e: Entry)
    ensures Collect(found, [e]) == Add(found, e)
  {
    assert [e][1..] == [];
  }

  /** If the duplicate assertion passes throughout, no value stands for two codewords; and the dictionary holds just the leaves. */
  lemma {:induction false} CollectConsistent(found: seq<Entry>, s: seq<Entry>)
    requires Consistent(found) && Collect(found, s).Some?
    ensures Consistent(found + s) && Consistent(Collect(found, s).value)
    ensures forall e :: e in Collect(found, s).value <==> e in found || e in s
    decreases |s|
  {
    if s == [] {
      assert found + s == found;
    } else {
      var f := Add(found, s[0]).value;
      GetIs(found, s[0].value);
      AddIs(found, s[0]);
      CollectConsistent(f, s[1..]);
      assert s == [s[0]] + s[1..];
      SameLeaves(f + s[1..], found + s);
    }
  }

  lemma AddIs(found: seq<Entry>, e: Entry)
    requires Consistent(found) && Add(found, e).Some?
    ensures var f := Add(found, e).value; Consistent(f) && forall x :: x in f <==> x in found || x == e
  {
    GetIs(found, e.value);
  }

  lemma SameLeaves(a: seq<Entry>, b: seq<Entry>)
    requires Consistent(a) && Within(b, a)
    ensures Consistent(b)
  {
    forall i, j | 0 <= i < |b| && 0 <= j < |b| && b[i].value == b[j].value
      ensures b[i] == b[j]
    {
      assert b[i] in a && b[j] in a;
      var k :| 0 <= k < |a| && a[k] == b[i];
      var l :| 0 <= l < |a| && a[l] == b[j];
    }
  }

  /** New leaves whose values are not yet known as other codewords are put in, each shared half leaf once. */
  lemma {:induction false} CollectUnder(found: seq<Entry>, t: Tree, code: nat, length: nat)
    requires Consistent(found + Of(t, code, length))
    requires Disjoint(found, Of(t, code, length))
    ensures Collect(found, Of(t, code, length)) == Some(found + OnceUnder(t, code, length))
    ensures Within(OnceUnder(t, code, length), Of(t, code, length))
    decreases t, 3
  {
    if t.Leaf? {
      var e := LeafEntry(t, code, length);
      CollectOne(found, e);
      NotKnown(found, [e]);
    } else {
      CollectNode(found, t, code, length + 2);
    }
  }

  /** An entry that is not in a dictionary it is consistent with has a value that is not. */
  lemma NotKnown(found: seq<Entry>, s: seq<Entry>)
    requires Consistent(found + s) && Disjoint(found, s)
    ensures forall e :: e in s ==> Get(found, e.value) == None
  {
    forall e | e in s
      ensures Get(found, e.value) == None
    {
      GetIs(found, e.value);
      var j :| 0 <= j < |s| && s[j] == e;
      assert (found + s)[|found| + j] == e;
      forall i | 0 <= i < |found|
        ensures found[i].value != e.value
      {
        assert (found + s)[i] == found[i] && found[i] in found;
      }
    }
  }

  /** A second slot of the same pair. */
  lemma {:induction false} CollectSecond(found: seq<Entry>, a: Tree, b: Tree, code: nat, length: nat)
    requires code % 2 == 0 && Consistent(found + Of(b, code + 1, length))
    requires if Twins(a, b) then LeafEntry(a, code, length) in found
             else Disjoint(found, Of(b, code + 1, length))
    ensures var more := if Twins(a, b) then [] else OnceUnder(b, code + 1, length);
            Collect(found, Of(b, code + 1, length)) == Some(found + more)
    ensures Within(OnceUnder(b, code + 1, length), Of(b, code + 1, length))
    decreases b, 4
  {
    if Twins(a, b) {
      var e := LeafEntry(a, code, length);
      assert e == LeafEntry(b, code + 1, length);
      CollectOne(found, e);
      GetIs(found, e.value);
      var i :| 0 <= i < |found| && found[i] == e;
      KnownSame(found, [e], e);
      assert found + [] == found;
    } else {
      CollectUnder(found, b, code + 1, length);
    }
  }

  lemma KnownSame(found: seq<Entry>, s: seq<Entry>, e: Entry)
    requires Consistent(found + s) && e in found
    ensures Get(found, e.value) == Some(e)
  {
    GetIs(found, e.value);
    var i :| 0 <= i < |found| && found[i] == e;
    assert (found + s)[i] == e;
    if Get(found, e.value).Some? {
      var g := Get(found, e.value).value;
      var j :| 0 <= j < |found| && found[j] == g;
      assert (found + s)[j] == g;
    }
  }

  lemma PartsOf(found: seq<Entry>, a: seq<Entry>, b: seq<Entry>)
    ensures var all := found + (a + b); Within(found + a, all) && Within(found, all) && Within(a, all) && Within(b, all)
    ensures Disjoint(found, a + b) ==> Disjoint(found, a) && Disjoint(found, b)
  {
  }

  /** A dictionary that has taken in a part of a is still within the whole, with all of b too; and apart from b, if a is. */
  lemma TakenIn(f: seq<Entry>, a1: seq<Entry>, a: seq<Entry>, b: seq<Entry>, all: seq<Entry>)
    requires Within(f, all) && Within(a1, a) && Within(a, all) && Within(b, all)
    ensures Within((f + a1) + b, all) && Within(f + a1, all)
    ensures Disjoint(f, b) && Disjoint(a, b) ==> Disjoint(f + a1, b)
  {
  }

  lemma BothWithin(a1: seq<Entry>, b1: seq<Entry>, a: seq<Entry>, b: seq<Entry>)
    requires Within(a1, a) && (b1 == [] || Within(b1, b))
    ensures Within(a1 + b1, a + b)
  {
  }

  /** A pair of slots. */
  lemma {:induction false} CollectTwo(found: seq<Entry>, t: Tree, k: Tree, l: Tree, c: nat, length: nat)
    requires k < t && l < t && c % 2 == 0
    requires var s := Of(k, c, length) + Of(l, c + 1, length); Consistent(found + s) && Disjoint(found, s)
    requires !Twins(k, l) ==> Disjoint(Of(k, c, length), Of(l, c + 1, length))
    ensures var s := Of(k, c, length) + Of(l, c + 1, length);
            var s1 := OnceUnder(k, c, length) + if Twins(k, l) then [] else OnceUnder(l, c + 1, length);
            Collect(found, s) == Some(found + s1) && Within(s1, s)
    decreases t, 0
  {
    hide *;
    var a, b := Of(k, c, length), Of(l, c + 1, length);
    var all := found + (a + b);
    PartsOf(found, a, b);
    CollectConcat(found, a, b);
    SameLeaves(all, found + a);
    CollectUnder(found, k, c, length);
    var a1 := OnceUnder(k, c, length);
    TakenIn(found, a1, a, b, all);
    SameLeaves(all, (found + a1) + b);
    FirstKnown(k, c, length);
    TwinsLeaf(k, l);
    CollectSecond(found + a1, k, l, c, length);
    var b1 := if Twins(k, l) then [] else OnceUnder(l, c + 1, length);
    assert (found + a1) + b1 == found + (a1 + b1);
    BothWithin(a1, b1, a, b);
  }

  lemma TwinsLeaf(k: Tree, l: Tree)
    ensures Twins(k, l) ==> k.Leaf?
  {
  }

  lemma EvenSlot(code: nat, i: nat)
    requires i == 0 || i == 2
    ensures (4 * code + i) % 2 == 0
  {
    DivModUnique(4 * code + i, if i == 0 then 2 * code else 2 * code + 1, 0, 2);
  }

  lemma KidLess(t: Tree, i: nat)
    requires t.Node? && i < 4
    ensures Kid(t, i) < t
  {
  }

  lemma PairIs(t: Tree, i: nat, code: nat, length: nat)
    requires t.Node? && (i == 0 || i == 2)
    ensures var k, l, c := Kid(t, i), Kid(t, i + 1), 4 * code + i;
            && Both(t, i, code, length) == Of(k, c, length) + Of(l, c + 1, length)
            && BothOnce(t, i, code, length) == OnceUnder(k, c, length) + if Twins(k, l) then [] else OnceUnder(l, c + 1, length)
  {
    hide Of, OnceUnder, Twins, Kid;
  }

  lemma {:induction false} CollectPair(found: seq<Entry>, t: Tree, i: nat, code: nat, length: nat)
    requires t.Node? && (i == 0 || i == 2)
    requires Consistent(found + Both(t, i, code, length)) && Disjoint(found, Both(t, i, code, length))
    ensures Collect(found, Both(t, i, code, length)) == Some(found + BothOnce(t, i, code, length))
    ensures Within(BothOnce(t, i, code, length), Both(t, i, code, length))
    decreases t, 1
  {
    hide *;
    PairIs(t, i, code, length);
    EvenSlot(code, i);
    KidLess(t, i);
    KidLess(t, i + 1);
    Apart(t, code, length, i, i + 1);
    CollectTwo(found, t, Kid(t, i), Kid(t, i + 1), 4 * code + i, length);
  }

  lemma {:induction false} CollectNode(found: seq<Entry>, t: Tree, code: nat, length: nat)
    requires t.Node? && Consistent(found + Slots(t, code, length))
    requires Disjoint(found, Slots(t, code, length))
    ensures Collect(found, Slots(t, code, length)) == Some(found + Once(t, code, length))
    ensures Within(Once(t, code, length), Slots(t, code, length))
    decreases t, 2
  {
    hide Both, BothOnce, Collect, Consistent, Disjoint, Within, Of;
    var a, b := Both(t, 0, code, length), Both(t, 2, code, length);
    var all := found + (a + b);
    PartsOf(found, a, b);
    CollectConcat(found, a, b);
    SameLeaves(all, found + a);
    CollectPair(found, t, 0, code, length);
    var a1 := BothOnce(t, 0, code, length);
    HalvesApart(t, code, length);
    TakenIn(found, a1, a, b, all);
    SameLeaves(all, (found + a1) + b);
    CollectPair(found + a1, t, 2, code, length);
    var b1 := BothOnce(t, 2, code, length);
    assert (found + a1) + b1 == found + (a1 + b1);
    BothWithin(a1, b1, a, b);
  }

  /** The first two slots of a node share nothing with the last two. */
  lemma HalvesApart(t: Tree, code: nat, length: nat)
    requires t.Node?
    ensures Disjoint(Both(t, 0, code, length), Both(t, 2, code, length))
  {
    hide Of;
    Apart(t, code, length, 0, 2);
    Apart(t, code, length, 1, 2);
    Apart(t, code, length, 0, 3);
    Apart(t, code, length, 1, 3);
  }

  lemma FirstKnown(t: Tree, code: nat, length: nat)
    ensures t.Leaf? ==> LeafEntry(t, code, length) in OnceUnder(t, code, length)
  {
  }

  /** No entry of one slot is in another, twins aside. */
  lemma Apart(t: Tree, code: nat, length: nat, i: nat, j: nat)
    requires t.Node? && i < j < 4
    ensures !(i / 2 == j / 2 && Twins(Kid(t, i), Kid(t, j))) ==> Disjoint(Of(Kid(t, i), 4 * code + i, length), Of(Kid(t, j), 4 * code + j, length))
  {
    var x, y := Of(Kid(t, i), 4 * code + i, length), Of(Kid(t, j), 4 * code + j, length);
    forall e | e in x && e in y
      ensures i / 2 == j / 2 && Twins(Kid(t, i), Kid(t, j))
    {
      Different(t, code, length, i, j, e);
    }
  }

  /**
   When the assertions pass: exactly when no value is reused for a different codeword and every half leaf is in the slot
   beside its own as well.
   */
  lemma PassesIff(t: Tree)
    requires t.Node?
    ensures CodesOf(t).Some? <==> Consistent(Slots(t, 0, 0)) && Shared(t)
  {
    hide Slots, Once, Kraft, Consistent, Shared, Collect;
    var s := Slots(t, 0, 0);
    assert [] + s == s && [] + Once(t, 0, 0) == Once(t, 0, 0);
    NoneConsistent();
    if Collect([], s).Some? {
      CollectConsistent([], s);
    }
    if Consistent(s) {
      CollectNode([], t, 0, 0);
      KraftNode(t, 0, 0);
      assert Share(0) == 1.0;
    }
  }

  lemma NoneConsistent()
    ensures Consistent([])
  {
  }

  // Decoding.

  /** The number the first n bits are. */
  function Number(bits: seq<Bit>, n: nat): nat
    requires n <= |bits|
  {
    if n == 0 then 0 else 2 * Number(bits, n - 1) + bits[n - 1]
  }

  /** Whether the bits begin with an entry's codeword. */
  predicate Begins(e: Entry, bits: seq<Bit>) { e.len <= |bits| && Number(bits, e.len) == e.word }

  function Depth(t: Tree): nat {
    if t.Leaf? then 0 else 2 + Deepest(Deepest(Depth(t.k0), Depth(t.k1)), Deepest(Depth(t.k2), Depth(t.k3)))
  }

  function Deepest(a: nat, b: nat): nat { if a >= b then a else b }

  /** The two bits at a place. */
  function Two(bits: seq<Bit>, at: nat): (r: nat)
    requires at + 2 <= |bits|
    ensures r < 4
  {
    var high: nat := bits[at];
    2 * high + bits[at + 1]
  }

  /** The decoder's walk: two bits at a time to a leaf; a half leaf gives the second bit back. */
  function Walk(t: Tree, bits: seq<Bit>, at: nat): (r: Entry)
    requires t.Node? && at + Depth(t) <= |bits|
    decreases t
  {
    var two := Two(bits, at);
    var kid := Kid(t, two);
    if kid.Leaf? then LeafEntry(kid, 4 * Number(bits, at) + two, at) else Walk(kid, bits, at + 2)
  }

  lemma {:induction false} CutNumber(bits: seq<Bit>, m: nat, n: nat)
    requires m <= n <= |bits|
    ensures Cut(Number(bits, n), n - m) == Number(bits, m)
    decreases n
  {
    if m < n {
      assert Number(bits, n) / 2 == Number(bits, n - 1);
      CutNumber(bits, m, n - 1);
    }
  }

  /** Bits that begin with an entry under a code begin with that code. */
  lemma BeginsUnder(e: Entry, bits: seq<Bit>, code: nat, length: nat)
    requires Begins(e, bits) && Under(e, code, length)
    ensures length <= |bits| && Number(bits, length) == code
  {
    CutNumber(bits, length, e.len);
  }

  /** Of a node whose half leaves are shared, the bits begin with the walk's own entry and no other. */
  lemma {:induction false} WalkOnly(t: Tree, bits: seq<Bit>, at: nat, e: Entry)
    requires t.Node? && Shared(t) && at + Depth(t) <= |bits|
    requires e in Slots(t, Number(bits, at), at)
    ensures Begins(e, bits) <==> e == Walk(t, bits, at)
    decreases t
  {
    hide Of, Slots, Under, Begins;
    var code := Number(bits, at);
    var two := Two(bits, at);
    var i :| 0 <= i < |Slots(t, code, at)| && Slots(t, code, at)[i] == e;
    var k := SlotOf(t, code, at, i);
    assert e in Of(Kid(t, k), 4 * code + k, at);
    OfUnder(Kid(t, k), 4 * code + k, at);
    assert InSlot(e, Kid(t, k), 4 * code + k, at);
    assert Number(bits, at + 2) == 4 * code + two by { TwoMore(bits, at); }
    if k == two && Kid(t, k).Node? {
      OfNode(Kid(t, k), 4 * code + k, at);
      WalkOnly(Kid(t, k), bits, at + 2, e);
    } else if Kid(t, k).Leaf? && Kid(t, k).half {
      HalfOnly(t, bits, at, k, e);
    } else {
      FullOnly(t, bits, at, k, e);
    }
  }

  lemma OfNode(t: Tree, code: nat, length: nat)
    requires t.Node?
    ensures Of(t, code, length) == Slots(t, code, length + 2)
  {
  }

  lemma TwoMore(bits: seq<Bit>, at: nat)
    requires at + 2 <= |bits|
    ensures Number(bits, at + 2) == 4 * Number(bits, at) + Two(bits, at)
    ensures Number(bits, at + 1) == 2 * Number(bits, at) + bits[at]
  {
  }

  lemma HalfOnly(t: Tree, bits: seq<Bit>, at: nat, k: nat, e: Entry)
    requires t.Node? && Shared(t) && at + Depth(t) <= |bits| && k < 4 && Kid(t, k).Leaf? && Kid(t, k).half
    requires e == LeafEntry(Kid(t, k), 4 * Number(bits, at) + k, at)
    ensures Begins(e, bits) <==> e == Walk(t, bits, at)
  {
    TwoMore(bits, at);
    var code := Number(bits, at);
    var two := Two(bits, at);
    assert e.word == 2 * code + k / 2 && e.len == at + 1;
    assert Begins(e, bits) <==> k / 2 == two / 2;
    hide Number, Begins;
    if k / 2 == two / 2 {
      assert Kid(t, two) == Kid(t, k);
    } else {
      WalkUnder(t, bits, at);
    }
  }

  lemma FullOnly(t: Tree, bits: seq<Bit>, at: nat, k: nat, e: Entry)
    requires t.Node? && at + Depth(t) <= |bits| && k < 4 && !(Kid(t, k).Leaf? && Kid(t, k).half)
    requires e in Of(Kid(t, k), 4 * Number(bits, at) + k, at) && Under(e, 4 * Number(bits, at) + k, at + 2)
    requires Kid(t, k).Node? ==> k != Two(bits, at)
    ensures Begins(e, bits) <==> e == Walk(t, bits, at)
  {
    TwoMore(bits, at);
    var two := Two(bits, at);
    if k != two {
      hide *;
      WalkUnder(t, bits, at);
      OtherSlot(e, Walk(t, bits, at), Kid(t, two), 4 * Number(bits, at) + k, 4 * Number(bits, at) + two, at);
      if Begins(e, bits) {
        BeginsUnder(e, bits, 4 * Number(bits, at) + k, at + 2);
      }
    }
  }

  lemma OtherSlot(e: Entry, x: Entry, kid: Tree, code: nat, other: nat, at: nat)
    requires Under(e, code, at + 2) && InSlot(x, kid, other, at) && code != other
    ensures e != x
  {
  }

  /** The walk's entry is in the slot the bits choose. */
  lemma {:induction false} WalkUnder(t: Tree, bits: seq<Bit>, at: nat)
    requires t.Node? && at + Depth(t) <= |bits|
    ensures var two := Two(bits, at); InSlot(Walk(t, bits, at), Kid(t, two), 4 * Number(bits, at) + two, at)
    ensures Walk(t, bits, at) in Slots(t, Number(bits, at), at)
    decreases t
  {
    var two := Two(bits, at);
    var kid := Kid(t, two);
    var code := 4 * Number(bits, at) + two;
    TwoMore(bits, at);
    OfUnder(kid, code, at);
    assert kid.Leaf? ==> Of(kid, code, at) == [LeafEntry(kid, code, at)];
    assert kid.Leaf? ==> Walk(t, bits, at) == LeafEntry(kid, code, at);
    assert kid.Node? ==> kid < t && at + 2 + Depth(kid) <= |bits| && Walk(t, bits, at) == Walk(kid, bits, at + 2);
    hide Of, Walk, Depth, Slots, InSlot, LeafEntry;
    if kid.Node? {
      WalkUnder(kid, bits, at + 2);
      OfNode(kid, code, at);
    }
    var e := Walk(t, bits, at);
    assert e in Of(kid, code, at);
    var i :| 0 <= i < |Of(kid, code, at)| && Of(kid, code, at)[i] == e;
    SlotHas(t, Number(bits, at), at, two, e);
  }

  lemma SlotHas(t: Tree, code: nat, length: nat, k: nat, e: Entry)
    requires t.Node? && k < 4 && e in Of(Kid(t, k), 4 * code + k, length)
    ensures e in Slots(t, code, length)
  {
    hide Of;
  }

  lemma {:induction false} NumberMore(bits: seq<Bit>, more: seq<Bit>, n: nat)
    requires n <= |bits|
    ensures Number(bits + more, n) == Number(bits, n)
  {
    if n > 0 {
      NumberMore(bits, more, n - 1);
    }
  }

  /**
   The code read off is the tree's: of any bits, and whatever more follow that are enough for the deepest leaf, the codeword
   at their start, if it is all there, is the one whose value and length walking the tree two bits at a time comes to. So no
   codeword begins another, and none is missing.
   */
  lemma DecodesAsTree(t: Tree, bits: seq<Bit>, more: seq<Bit>, e: Entry)
    requires t.Node? && CodesOf(t).Some? && Depth(t) <= |bits + more|
    ensures Walk(t, bits + more, 0) in CodesOf(t).value
    ensures e in CodesOf(t).value ==> (Begins(e, bits) <==> e.len <= |bits| && e == Walk(t, bits + more, 0))
  {
    hide *;
    LongEnough(t, bits + more, e);
    BeginsMore(e, bits, more);
  }

  lemma BeginsMore(e: Entry, bits: seq<Bit>, more: seq<Bit>)
    ensures Begins(e, bits) <==> e.len <= |bits| && Begins(e, bits + more)
  {
    if e.len <= |bits| {
      NumberMore(bits, more, e.len);
    }
  }

  lemma LongEnough(t: Tree, bits: seq<Bit>, e: Entry)
    requires t.Node? && CodesOf(t).Some? && Depth(t) <= |bits|
    ensures Walk(t, bits, 0) in CodesOf(t).value
    ensures e in CodesOf(t).value ==> (Begins(e, bits) <==> e == Walk(t, bits, 0))
  {
    hide Slots, Walk, Begins, Depth, Kraft, Consistent, Shared, Collect;
    PassesIff(t);
    NoneConsistent();
    CollectConsistent([], Slots(t, 0, 0));
    assert Number(bits, 0) == 0;
    WalkUnder(t, bits, 0);
    if e in CodesOf(t).value {
      WalkOnly(t, bits, 0, e);
    }
  }
}
