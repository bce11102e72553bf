/**
 Code lengths from counts (tools/pdf-make-jbig2-tests.py, `huffman_lengths`): the lengths of a Huffman tree, built by
 joining the two smallest trees again and again. The lengths always make a complete code, and how long the
 longest can be is bounded by the Fibonacci numbers.
 */
module HuffmanLengths {
  import opened Powers
  import opened CanonicalCodes

  /** A tree on the heap: its weight, the least symbol in it, its symbols. */
  datatype Tree = Tree(weight: nat, least: nat, members: seq<nat>)

  /** The order the heap keeps; the least symbols differ, so the lists are never compared. */
  predicate AtMost(x: Tree, y: Tree) {
    x.weight < y.weight || (x.weight == y.weight && x.least <= y.least)
  }

  function Sum(counts: seq<nat>): nat {
    if counts == [] then 0 else Sum(counts[..|counts| - 1]) + counts[|counts| - 1]
  }

  function Fib(n: nat): nat {
    if n < 2 then n else Fib(n - 1) + Fib(n - 2)
  }

  function Max(a: nat, b: nat): nat {
    if a < b then b else a
  }

  // ---- Depths of a tree's symbols -------------------------------------------------------------

  predicate Within(members: seq<nat>, n: nat) {
    forall p :: 0 <= p < |members| ==> members[p] < n
  }

  predicate Distinct(members: seq<nat>) {
    forall p, q :: 0 <= p < q < |members| ==> members[p] != members[q]
  }

  predicate Apart(x: seq<nat>, y: seq<nat>) {
    forall p, q :: 0 <= p < |x| && 0 <= q < |y| ==> x[p] != y[q]
  }

  predicate Shallow(depth: seq<nat>, limit: nat) {
    forall i :: 0 <= i < |depth| ==> depth[i] <= limit
  }

  /** The Kraft sum of some symbols, in units of 2^-m. */
  function Share(depth: seq<nat>, members: seq<nat>, m: nat): nat
    requires Within(members, |depth|) && Shallow(depth, m)
  {
    if members == [] then 0
    else Share(depth, members[..|members| - 1], m) + Pow2(m - depth[members[|members| - 1]])
  }

  function DepthOf(depth: seq<nat>, i: nat): nat {
    if i < |depth| then depth[i] else 0
  }

  function Height(depth: seq<nat>, members: seq<nat>): nat {
    if members == [] then 0
    else Max(Height(depth, members[..|members| - 1]), DepthOf(depth, members[|members| - 1]))
  }

  /** The depths with one more for each of the first `k` members. */
  function Deepened(depth: seq<nat>, members: seq<nat>): (r: seq<nat>)
    requires Within(members, |depth|)
    ensures |r| == |depth|
    decreases |members|
  {
    if members == [] then depth
    else
      var k := |members| - 1;
      var before := Deepened(depth, members[..k]);
      before[members[k] := before[members[k]] + 1]
  }

  lemma {:induction false} DeepenedAt(depth: seq<nat>, members: seq<nat>, i: nat)
    requires Within(members, |depth|) && Distinct(members) && i < |depth|
    ensures i !in members ==> Deepened(depth, members)[i] == depth[i]
    ensures i in members ==> Deepened(depth, members)[i] == depth[i] + 1
    decreases |members|
  {
    if members != [] {
      var k := |members| - 1;
      DeepenedAt(depth, members[..k], i);
      assert members == members[..k] + [members[k]];
    }
  }

  /** Symbols elsewhere keep their depths. */
  lemma {:induction false} ShareElsewhere(depth: seq<nat>, depth': seq<nat>, members: seq<nat>, m: nat)
    requires |depth'| == |depth| && Within(members, |depth|) && Shallow(depth, m) && Shallow(depth', m)
    requires forall p :: 0 <= p < |members| ==> depth'[members[p]] == depth[members[p]]
    ensures Share(depth', members, m) == Share(depth, members, m) && Height(depth', members) == Height(depth, members)
    decreases |members|
  {
    if members != [] {
      ShareElsewhere(depth, depth', members[..|members| - 1], m);
    }
  }

  /** One level deeper, symbols have half the share and one more height. */
  lemma {:induction false} ShareDeeper(depth: seq<nat>, depth': seq<nat>, members: seq<nat>, m: nat)
    requires |depth'| == |depth| && Within(members, |depth|) && Shallow(depth, m) && Shallow(depth', m)
    requires forall p :: 0 <= p < |members| ==> depth'[members[p]] == depth[members[p]] + 1
    ensures 2 * Share(depth', members, m) == Share(depth, members, m)
    ensures members != [] ==> Height(depth', members) == Height(depth, members) + 1
    decreases |members|
  {
    if members != [] {
      var k := |members| - 1;
      ShareDeeper(depth, depth', members[..k], m);
      var d := depth'[members[k]];
      assert Pow2(m - depth[members[k]]) == 2 * Pow2(m - d);
    }
  }

  lemma {:induction false} ShareConcat(depth: seq<nat>, x: seq<nat>, y: seq<nat>, m: nat)
    requires Within(x, |depth|) && Within(y, |depth|) && Shallow(depth, m)
    ensures Within(x + y, |depth|)
    ensures Share(depth, x + y, m) == Share(depth, x, m) + Share(depth, y, m)
    ensures Height(depth, x + y) == Max(Height(depth, x), Height(depth, y))
    decreases |y|
  {
    if y == [] {
      assert x + y == x;
    } else {
      var k := |y| - 1;
      assert (x + y)[..|x + y| - 1] == x + y[..k];
      ShareConcat(depth, x, y[..k], m);
    }
  }

  lemma {:induction false} HeightBounds(depth: seq<nat>, members: seq<nat>, i: nat)
    requires Within(members, |depth|) && i in members
    ensures depth[i] <= Height(depth, members)
    decreases |members|
  {
    var k := |members| - 1;
    assert members == members[..k] + [members[k]];
    if i != members[k] {
      HeightBounds(depth, members[..k], i);
    }
  }

  // ---- The Kraft sum of all symbols -----------------------------------------------------------

  function Total(depth: seq<nat>, m: nat): nat
    requires Shallow(depth, m)
  {
    if depth == [] then 0 else Total(depth[..|depth| - 1], m) + Pow2(m - depth[|depth| - 1])
  }

  lemma {:induction false} TotalUpdate(depth: seq<nat>, m: nat, i: nat)
    requires Shallow(depth, m) && i < |depth| && depth[i] < m
    ensures var depth' := depth[i := depth[i] + 1];
            Shallow(depth', m) && Total(depth', m) + Pow2(m - depth[i] - 1) == Total(depth, m)
    decreases |depth|
  {
    var k := |depth| - 1;
    var depth' := depth[i := depth[i] + 1];
    if i < k {
      TotalUpdate(depth[..k], m, i);
      assert depth'[..k] == depth[..k][i := depth[i] + 1];
    } else {
      assert depth'[..k] == depth[..k];
    }
  }

  /** Deepening symbols takes half their share from the total. */
  lemma {:induction false} TotalDeepened(depth: seq<nat>, members: seq<nat>, m: nat)
    requires Within(members, |depth|) && Distinct(members) && m > 0 && Shallow(depth, m - 1)
    ensures var depth' := Deepened(depth, members);
            Shallow(depth', m) && 2 * Total(depth', m) + Share(depth, members, m) == 2 * Total(depth, m)
    decreases |members|
  {
    hide Total;
    if members != [] {
      var k := |members| - 1;
      var before, d := Deepened(depth, members[..k]), depth[members[k]];
      TotalDeepened(depth, members[..k], m);
      assert members[k] !in members[..k];
      DeepenedAt(depth, members[..k], members[k]);
      TotalUpdate(before, m, members[k]);
      assert Pow2(m - d) == 2 * Pow2(m - d - 1);
    }
  }

  // ---- Trees that share out the symbols -------------------------------------------------------

  /** A tree whose symbols' codes fill the code space. */
  predicate Full(t: Tree, depth: seq<nat>, m: nat) {
    && t.members != [] && Within(t.members, |depth|) && Distinct(t.members) && Shallow(depth, m)
    && Share(depth, t.members, m) == Pow2(m)
  }

  predicate Forest(heap: seq<Tree>, depth: seq<nat>, m: nat) {
    && (forall a :: 0 <= a < |heap| ==> Full(heap[a], depth, m))
    && (forall a, b :: 0 <= a < |heap| && 0 <= b < |heap| && a != b ==> Apart(heap[a].members, heap[b].members))
  }

  function Without(heap: seq<Tree>, k: nat): seq<Tree>
    requires k < |heap|
  {
    heap[..k] + heap[k + 1..]
  }

  function Join(x: Tree, y: Tree): Tree {
    Tree(x.weight + y.weight, if x.least < y.least then x.least else y.least, x.members + y.members)
  }

  /** What is left when the tree `k` is taken away is a forest apart from it. */
  lemma ForestWithout(heap: seq<Tree>, k: nat, depth: seq<nat>, m: nat)
    requires Forest(heap, depth, m) && k < |heap|
    ensures Forest(Without(heap, k), depth, m) && Full(heap[k], depth, m)
    ensures forall a :: 0 <= a < |heap| - 1 ==> Apart(Without(heap, k)[a].members, heap[k].members)
  {
    hide Full, Apart;
    var rest := Without(heap, k);
    assert forall a :: 0 <= a < |rest| ==> rest[a] == heap[if a < k then a else a + 1];
  }

  lemma JoinedMembers(x: Tree, y: Tree, depth: seq<nat>, m: nat)
    requires Full(x, depth, m) && Full(y, depth, m) && Apart(x.members, y.members) && m > 0 && Shallow(depth, m - 1)
    ensures var z := Join(x, y);
            var depth' := Deepened(depth, z.members);
            && Within(z.members, |depth|) && Distinct(z.members) && Shallow(depth', m)
            && 2 * Total(depth', m) + 2 * Pow2(m) == 2 * Total(depth, m)
            && Full(z, depth', m)
            && Height(depth', z.members) == Max(Height(depth, x.members), Height(depth, y.members)) + 1
  {
    hide Total, Pow2, Deepened;
    var members := x.members + y.members;
    ShareConcat(depth, x.members, y.members, m);
    TotalDeepened(depth, members, m);
    var depth' := Deepened(depth, members);
    forall p | 0 <= p < |members|
      ensures depth'[members[p]] == depth[members[p]] + 1
    {
      DeepenedAt(depth, members, members[p]);
    }
    ShareDeeper(depth, depth', members, m);
  }

  lemma OthersKeep(r: Tree, members: seq<nat>, depth: seq<nat>, m: nat)
    requires Full(r, depth, m) && Within(members, |depth|) && Distinct(members) && Apart(r.members, members)
    requires Shallow(Deepened(depth, members), m)
    ensures Full(r, Deepened(depth, members), m)
    ensures Height(Deepened(depth, members), r.members) == Height(depth, r.members)
  {
    hide Pow2, Deepened;
    var depth' := Deepened(depth, members);
    forall p | 0 <= p < |r.members|
      ensures depth'[r.members[p]] == depth[r.members[p]]
    {
      assert r.members[p] !in members;
      DeepenedAt(depth, members, r.members[p]);
    }
    ShareElsewhere(depth, depth', r.members, m);
  }

  /** Joining two trees, one level deeper, leaves a forest. */
  lemma ForestJoin(rest: seq<Tree>, x: Tree, y: Tree, depth: seq<nat>, m: nat)
    requires Forest(rest, depth, m) && Full(x, depth, m) && Full(y, depth, m) && Apart(x.members, y.members)
    requires forall a :: 0 <= a < |rest| ==> Apart(rest[a].members, x.members) && Apart(rest[a].members, y.members)
    requires m > 0 && Shallow(depth, m - 1)
    ensures var z := Join(x, y);
            Within(z.members, |depth|) && Forest(rest + [z], Deepened(depth, z.members), m)
  {
    hide Full, Deepened, Total, Height, Max, Distinct, Share, Pow2;
    var z := Join(x, y);
    JoinedMembers(x, y, depth, m);
    var depth' := Deepened(depth, z.members);
    hide Apart, Forest, Within, Shallow;
    forall a | 0 <= a < |rest|
      ensures Full(rest[a], depth', m) && Apart(rest[a].members, z.members) && Apart(z.members, rest[a].members)
    {
      FullIn(rest, depth, m, a);
      ApartFromJoin(rest[a].members, x, y);
      ApartSymmetric(rest[a].members, z.members);
      OthersKeep(rest[a], z.members, depth, m);
    }
    ForestApart(rest, depth, m);
    ForestMore(rest, z, depth', m);
  }

  lemma ForestApart(rest: seq<Tree>, depth: seq<nat>, m: nat)
    requires Forest(rest, depth, m)
    ensures forall a, b :: 0 <= a < |rest| && 0 <= b < |rest| && a != b ==> Apart(rest[a].members, rest[b].members)
  {
    hide Full, Apart;
  }

  lemma ForestMore(rest: seq<Tree>, z: Tree, depth: seq<nat>, m: nat)
    requires Full(z, depth, m)
    requires forall a :: 0 <= a < |rest| ==>
               Full(rest[a], depth, m) && Apart(rest[a].members, z.members) && Apart(z.members, rest[a].members)
    requires forall a, b :: 0 <= a < |rest| && 0 <= b < |rest| && a != b ==> Apart(rest[a].members, rest[b].members)
    ensures Forest(rest + [z], depth, m)
  {
    hide Full, Apart;
    assert forall a :: 0 <= a < |rest| ==> (rest + [z])[a] == rest[a];
  }

  predicate Reaches(heap: seq<Tree>, i: nat) {
    exists a :: 0 <= a < |heap| && i in heap[a].members
  }

  lemma ReachesWithout(heap: seq<Tree>, k: nat, i: nat)
    requires k < |heap| && Reaches(heap, i)
    ensures Reaches(Without(heap, k), i) || i in heap[k].members
  {
    var a :| 0 <= a < |heap| && i in heap[a].members;
    if a != k {
      var b := if a < k then a else a - 1;
      assert i in Without(heap, k)[b].members;
    }
  }

  lemma ReachesJoin(rest: seq<Tree>, x: Tree, y: Tree, i: nat)
    requires Reaches(rest, i) || i in x.members || i in y.members
    ensures Reaches(rest + [Join(x, y)], i)
  {
    var heap := rest + [Join(x, y)];
    if Reaches(rest, i) {
      var a :| 0 <= a < |rest| && i in rest[a].members;
      assert i in heap[a].members;
    } else {
      assert i in heap[|rest|].members;
    }
  }

  // ---- Weights --------------------------------------------------------------------------------

  function HeapWeight(heap: seq<Tree>): nat {
    if heap == [] then 0 else HeapWeight(heap[..|heap| - 1]) + heap[|heap| - 1].weight
  }

  lemma {:induction false} WeightConcat(a: seq<Tree>, b: seq<Tree>)
    ensures HeapWeight(a + b) == HeapWeight(a) + HeapWeight(b)
    decreases |b|
  {
    if b == [] {
      assert a + b == a;
    } else {
      assert (a + b)[..|a + b| - 1] == a + b[..|b| - 1];
      WeightConcat(a, b[..|b| - 1]);
    }
  }

  lemma WeightOne(t: Tree)
    ensures HeapWeight([t]) == t.weight
  {
    assert [t][..0] == [];
  }

  lemma WeightWithout(heap: seq<Tree>, k: nat)
    requires k < |heap|
    ensures HeapWeight(heap) == HeapWeight(Without(heap, k)) + heap[k].weight
  {
    hide HeapWeight;
    var one := [heap[k]];
    assert heap == heap[..k] + (one + heap[k + 1..]);
    WeightConcat(heap[..k], one + heap[k + 1..]);
    WeightConcat(one, heap[k + 1..]);
    WeightConcat(heap[..k], heap[k + 1..]);
    WeightOne(heap[k]);
  }

  /** A tree of height h weighs at least Fib(h + 2), and every other tree at least Fib(h + 1). */
  predicate Heavy(heap: seq<Tree>, depth: seq<nat>) {
    && (forall a :: 0 <= a < |heap| ==> heap[a].weight >= Fib(Height(depth, heap[a].members) + 2))
    && (forall a, b :: 0 <= a < |heap| && 0 <= b < |heap| && a != b ==>
          heap[b].weight >= Fib(Height(depth, heap[a].members) + 1))
  }

  /** The two lightest trees joined keep the bounds: nothing left is lighter than the taller of them allows. */
  lemma HeavyJoin(rest: seq<Tree>, x: Tree, y: Tree, depth: seq<nat>, m: nat, hx: nat, hy: nat)
    requires Forest(rest, depth, m) && Full(x, depth, m) && Full(y, depth, m) && Apart(x.members, y.members)
    requires forall a :: 0 <= a < |rest| ==> Apart(rest[a].members, x.members) && Apart(rest[a].members, y.members)
    requires m > 0 && Shallow(depth, m - 1)
    requires hx == Height(depth, x.members) && hy == Height(depth, y.members)
    requires Heavy(rest, depth)
    requires x.weight >= Fib(hx + 2) && y.weight >= Fib(hy + 2) && x.weight >= Fib(hy + 1) && y.weight >= Fib(hx + 1)
    requires x.weight <= y.weight && forall a :: 0 <= a < |rest| ==> y.weight <= rest[a].weight
    requires forall a :: 0 <= a < |rest| ==> x.weight >= Fib(Height(depth, rest[a].members) + 1)
    ensures Within(Join(x, y).members, |depth|)
    ensures var z := Join(x, y);
            var heap := rest + [z];
            var depth' := Deepened(depth, z.members);
            Forest(heap, depth', m) && Heavy(heap, depth')
  {
    hide Full, Deepened, Total, Height, Distinct, Share, Pow2, Apart, Shallow, Fib, Forest, Within;
    var z := Join(x, y);
    ForestJoin(rest, x, y, depth, m);
    JoinedMembers(x, y, depth, m);
    var heap, depth' := rest + [z], Deepened(depth, z.members);
    var h := Max(hx, hy);
    FibNext(h + 1);
    forall a | 0 <= a < |rest|
      ensures heap[a] == rest[a] && Height(depth', rest[a].members) == Height(depth, rest[a].members)
      ensures rest[a].weight >= Fib(h + 2) && z.weight >= Fib(Height(depth, rest[a].members) + 1)
    {
      ApartFromJoin(rest[a].members, x, y);
      FullIn(rest, depth, m, a);
      OthersKeep(rest[a], z.members, depth, m);
    }
  }

  lemma FibNext(n: nat)
    ensures Fib(n + 2) == Fib(n + 1) + Fib(n)
  {
  }

  lemma FullIn(heap: seq<Tree>, depth: seq<nat>, m: nat, a: nat)
    requires Forest(heap, depth, m) && a < |heap|
    ensures Full(heap[a], depth, m)
  {
  }

  lemma ApartFromJoin(r: seq<nat>, x: Tree, y: Tree)
    requires Apart(r, x.members) && Apart(r, y.members)
    ensures Apart(r, Join(x, y).members)
  {
  }

  lemma {:induction false} FibMonotone(a: nat, b: nat)
    requires 1 <= a <= b
    ensures Fib(a) <= Fib(b)
    decreases b
  {
    if a < b {
      FibMonotone(a, b - 1);
    }
  }

  // ---- What the joining keeps -----------------------------------------------------------------

  predicate Positive(counts: seq<nat>) {
    forall i :: 0 <= i < |counts| ==> counts[i] >= 1
  }

  ghost predicate Inv(counts: seq<nat>, heap: seq<Tree>, depth: seq<nat>) {
    var n := |counts|;
    && |depth| == n && 1 <= |heap| <= n && Shallow(depth, n - |heap|)
    && Forest(heap, depth, n) && Total(depth, n) == |heap| * Pow2(n)
    && HeapWeight(heap) == Sum(counts)
    && (forall i: nat :: i < n ==> Reaches(heap, i))
    && (Positive(counts) ==> Heavy(heap, depth))
  }

  function Leaves(counts: seq<nat>): (heap: seq<Tree>)
    ensures |heap| == |counts|
  {
    seq(|counts|, i requires 0 <= i < |counts| => Tree(counts[i], i, [i]))
  }

  lemma {:induction false} LeavesWeigh(counts: seq<nat>)
    ensures HeapWeight(Leaves(counts)) == Sum(counts)
  {
    if counts != [] {
      var k := |counts| - 1;
      LeavesWeigh(counts[..k]);
      assert Leaves(counts)[..k] == Leaves(counts[..k]);
    }
  }

  lemma {:induction false} TotalAtTop(n: nat, m: nat)
    ensures Total(seq(n, _ => 0), m) == n * Pow2(m)
  {
    if n > 0 {
      assert seq(n, _ => 0)[..n - 1] == seq(n - 1, _ => 0);
      TotalAtTop(n - 1, m);
      MulDistribute(n - 1, 1, Pow2(m));
    }
  }

  lemma AtTheTop(i: nat, depth: seq<nat>, m: nat)
    requires i < |depth| && Shallow(depth, 0)
    ensures Share(depth, [i], m) == Pow2(m) && Height(depth, [i]) == 0
  {
    assert [i][..0] == [];
  }

  lemma InvStart(counts: seq<nat>)
    requires counts != []
    ensures Inv(counts, Leaves(counts), seq(|counts|, _ => 0))
  {
    hide Pow2, Share, Height, Total, HeapWeight, Sum, Heavy, Forest, Reaches;
    var n, heap, depth := |counts|, Leaves(counts), seq(|counts|, _ => 0);
    LeavesWeigh(counts);
    TotalAtTop(n, n);
    StartForest(counts);
    StartHeavy(counts);
  }

  lemma StartForest(counts: seq<nat>)
    ensures var n, heap, depth := |counts|, Leaves(counts), seq(|counts|, _ => 0);
            Forest(heap, depth, n) && forall i: nat :: i < n ==> Reaches(heap, i)
  {
    hide Pow2, Share;
    var n, heap, depth := |counts|, Leaves(counts), seq(|counts|, _ => 0);
    forall i: nat | i < n
      ensures Full(heap[i], depth, n) && Reaches(heap, i)
    {
      AtTheTop(i, depth, n);
      assert i in heap[i].members;
    }
    hide Full, Reaches;
  }

  lemma StartHeavy(counts: seq<nat>)
    ensures Positive(counts) ==> Heavy(Leaves(counts), seq(|counts|, _ => 0))
  {
    hide Height;
    var n, heap, depth := |counts|, Leaves(counts), seq(|counts|, _ => 0);
    forall i: nat | i < n
      ensures Height(depth, heap[i].members) == 0
    {
      AtTheTop(i, depth, n);
    }
    assert Fib(1) == 1 && Fib(2) == 1;
  }

  /** `k` is the tree the heap gives. */
  predicate Least(heap: seq<Tree>, k: nat) {
    k < |heap| && forall a :: 0 <= a < |heap| ==> AtMost(heap[k], heap[a])
  }

  lemma InvJoin(counts: seq<nat>, heap: seq<Tree>, depth: seq<nat>, j: nat, k: nat)
    requires Inv(counts, heap, depth) && |heap| > 1
    requires Least(heap, j) && Least(Without(heap, j), k)
    ensures var rest := Without(heap, j);
            var z := Join(heap[j], rest[k]);
            Within(z.members, |depth|) && Distinct(z.members)
            && Inv(counts, Without(rest, k) + [z], Deepened(depth, z.members))
  {
    hide Full, Deepened, Total, Height, Distinct, Share, Pow2, Apart, Fib, HeapWeight, Sum, Reaches, Heavy;
    var n, rest := |counts|, Without(heap, j);
    var x, y := heap[j], rest[k];
    var rest' := Without(rest, k);
    var z := Join(x, y);
    ForestWithout(heap, j, depth, n);
    ForestWithout(rest, k, depth, n);
    assert forall a :: 0 <= a < |rest'| ==> rest'[a] == rest[if a < k then a else a + 1];
    assert Apart(x.members, y.members) by {
      ApartSymmetric(y.members, x.members);
    }
    ForestJoin(rest', x, y, depth, n);
    hide Forest, Within;
    JoinedMembers(x, y, depth, n);
    DeepenedShallow(depth, z.members, n - |heap|);
    hide Shallow;
    MulDistribute(|heap| - 1, 1, Pow2(n));
    WeightJoin(heap, j, k);
    forall i: nat | i < n
      ensures Reaches(rest' + [z], i)
    {
      ReachesStill(heap, j, k, i);
    }
    if Positive(counts) {
      HeavyStep(heap, depth, n, j, k);
    }
  }

  lemma WeightJoin(heap: seq<Tree>, j: nat, k: nat)
    requires j < |heap| && k < |heap| - 1
    ensures var rest := Without(heap, j);
            HeapWeight(Without(rest, k) + [Join(heap[j], rest[k])]) == HeapWeight(heap)
  {
    hide HeapWeight;
    var rest := Without(heap, j);
    var z := Join(heap[j], rest[k]);
    WeightWithout(heap, j);
    WeightWithout(rest, k);
    WeightConcat(Without(rest, k), [z]);
    WeightOne(z);
  }

  lemma ReachesStill(heap: seq<Tree>, j: nat, k: nat, i: nat)
    requires j < |heap| && k < |heap| - 1 && Reaches(heap, i)
    ensures var rest := Without(heap, j); Reaches(Without(rest, k) + [Join(heap[j], rest[k])], i)
  {
    hide Reaches;
    var rest := Without(heap, j);
    ReachesWithout(heap, j, i);
    if i !in heap[j].members {
      ReachesWithout(rest, k, i);
    }
    ReachesJoin(Without(rest, k), heap[j], rest[k], i);
  }

  lemma ApartSymmetric(x: seq<nat>, y: seq<nat>)
    requires Apart(x, y)
    ensures Apart(y, x)
  {
  }

  lemma DeepenedShallow(depth: seq<nat>, members: seq<nat>, limit: nat)
    requires Within(members, |depth|) && Distinct(members) && Shallow(depth, limit)
    ensures Shallow(Deepened(depth, members), limit + 1)
  {
    hide Deepened;
    forall i | 0 <= i < |depth|
      ensures Deepened(depth, members)[i] <= limit + 1
    {
      DeepenedAt(depth, members, i);
    }
  }

  lemma HeavyWithout(heap: seq<Tree>, depth: seq<nat>, k: nat)
    requires k < |heap| && Heavy(heap, depth) && Least(heap, k)
    ensures var rest, x := Without(heap, k), heap[k];
            && Heavy(rest, depth) && x.weight >= Fib(Height(depth, x.members) + 2)
            && forall a :: 0 <= a < |rest| ==>
                 && x.weight <= rest[a].weight && x.weight >= Fib(Height(depth, rest[a].members) + 1)
                 && rest[a].weight >= Fib(Height(depth, x.members) + 1)
  {
    hide Height, Fib;
    var rest := Without(heap, k);
    assert forall a :: 0 <= a < |rest| ==> rest[a] == heap[if a < k then a else a + 1];
  }

  lemma HeavyStep(heap: seq<Tree>, depth: seq<nat>, m: nat, j: nat, k: nat)
    requires Forest(heap, depth, m) && Heavy(heap, depth) && m > 0 && Shallow(depth, m - 1) && |heap| > 1
    requires Least(heap, j) && Least(Without(heap, j), k)
    ensures var rest := Without(heap, j);
            var z := Join(heap[j], rest[k]);
            Within(z.members, |depth|) && Heavy(Without(rest, k) + [z], Deepened(depth, z.members))
  {
    hide Full, Deepened, Height, Apart, Fib, Shallow, Heavy;
    var rest := Without(heap, j);
    var x, y := heap[j], rest[k];
    var rest' := Without(rest, k);
    ForestWithout(heap, j, depth, m);
    ForestWithout(rest, k, depth, m);
    hide Forest, Within, Distinct;
    ApartSymmetric(y.members, x.members);
    HeavyWithout(heap, depth, j);
    HeavyWithout(rest, depth, k);
    hide Least;
    forall a | 0 <= a < |rest'|
      ensures rest'[a] == rest[if a < k then a else a + 1]
    {
    }
    HeavyJoin(rest', x, y, depth, m, Height(depth, x.members), Height(depth, y.members));
  }

  // ---- The lengths ----------------------------------------------------------------------------

  /** Of the first trees, the first that is least. */
  function LeastOf(heap: seq<Tree>, n: nat): (k: nat)
    requires 0 < n <= |heap|
    ensures k < n
  {
    if n == 1 then 0
    else
      var k := LeastOf(heap, n - 1);
      if AtMost(heap[k], heap[n - 1]) then k else n - 1
  }

  predicate AllWithin(heap: seq<Tree>, n: nat) {
    forall a :: 0 <= a < |heap| ==> Within(heap[a].members, n)
  }

  /** The two least trees joined. */
  function Next(heap: seq<Tree>): (r: seq<Tree>)
    requires |heap| > 1
    ensures |r| == |heap| - 1
  {
    var j := LeastOf(heap, |heap|);
    var rest := Without(heap, j);
    var k := LeastOf(rest, |rest|);
    Without(rest, k) + [Join(heap[j], rest[k])]
  }

  lemma NextWithin(heap: seq<Tree>, n: nat)
    requires |heap| > 1 && AllWithin(heap, n)
    ensures AllWithin(Next(heap), n) && Within(Next(heap)[|heap| - 2].members, n)
  {
    var j := LeastOf(heap, |heap|);
    var rest := Without(heap, j);
    var k := LeastOf(rest, |rest|);
    hide LeastOf, Within, AllWithin, Without, Join;
    WithinWithout(heap, j, n);
    WithinWithout(rest, k, n);
    WithinJoin(heap[j], rest[k], n);
    WithinMore(Without(rest, k), Join(heap[j], rest[k]), n);
  }

  lemma WithinWithout(heap: seq<Tree>, k: nat, n: nat)
    requires k < |heap| && AllWithin(heap, n)
    ensures AllWithin(Without(heap, k), n) && Within(heap[k].members, n) && |Without(heap, k)| == |heap| - 1
  {
    hide Within;
    forall a | 0 <= a < |heap| - 1
      ensures Within(Without(heap, k)[a].members, n)
    {
      assert Without(heap, k)[a] == heap[if a < k then a else a + 1];
    }
  }

  lemma WithinJoin(x: Tree, y: Tree, n: nat)
    requires Within(x.members, n) && Within(y.members, n)
    ensures Within(Join(x, y).members, n)
  {
  }

  lemma WithinMore(heap: seq<Tree>, z: Tree, n: nat)
    requires AllWithin(heap, n) && Within(z.members, n)
    ensures AllWithin(heap + [z], n)
  {
    hide Within;
  }

  /** The depths, when the trees of a heap have been joined to one. */
  function Depths(heap: seq<Tree>, depth: seq<nat>): (r: seq<nat>)
    requires AllWithin(heap, |depth|)
    ensures |r| == |depth|
    decreases |heap|
  {
    if |heap| <= 1 then depth
    else
      var next := Next(heap);
      NextWithin(heap, |depth|);
      assert Within(next[|next| - 1].members, |depth|);
      Depths(next, Deepened(depth, next[|next| - 1].members))
  }

  /** The lengths of a code for the counts. */
  function LengthsOf(counts: seq<nat>): seq<nat> {
    AtLeastOne(Depths(Leaves(counts), seq(|counts|, _ => 0)))
  }

  /** heappop: the index of the least tree. */
  method PopIndex(heap: seq<Tree>) returns (k: nat)
    requires heap != []
    ensures Least(heap, k) && k == LeastOf(heap, |heap|)
  {
    k := 0;
    for a := 1 to |heap|
      invariant k == LeastOf(heap, a) && forall b :: 0 <= b < a ==> AtMost(heap[k], heap[b])
    {
      if !AtMost(heap[k], heap[a]) {
        k := a;
      }
    }
  }

  method Deepen(depth: seq<nat>, members: seq<nat>) returns (r: seq<nat>)
    requires Within(members, |depth|)
    ensures r == Deepened(depth, members)
  {
    r := depth;
    for p := 0 to |members|
      invariant r == Deepened(depth, members[..p])
    {
      assert members[..p + 1][..p] == members[..p];
      r := r[members[p] := r[members[p]] + 1];
    }
    assert members[..|members|] == members;
  }

  /** Lengths that leave no code space, and how much the counts must sum to for a length. */
  ghost predicate Complete(counts: seq<nat>, lens: seq<nat>) {
    && |lens| == |counts| && Longest(lens, |counts| + 1) && (forall i :: 0 <= i < |lens| ==> lens[i] >= 1)
    && (|counts| == 1 ==> lens == [1])
    && (|counts| >= 2 ==> Kraft(lens, |counts| + 1) == Pow2(|counts| + 1))
    && (|counts| >= 2 && Positive(counts) ==> forall i :: 0 <= i < |lens| ==> Fib(lens[i] + 2) <= Sum(counts))
  }

  /**
   The two least trees are joined until one is left. For two or more counts the lengths' Kraft sum is exactly 1,
   and if every count is at least 1 a length of h takes counts that sum to at least Fib(h + 2).
   */
  method Lengths(counts: seq<nat>) returns (lens: seq<nat>)
    ensures lens == LengthsOf(counts) && Complete(counts, lens)
  {
    hide Full, Deepened, Total, Height, Distinct, Share, Pow2, Apart, Fib, HeapWeight, Sum, Reaches, Heavy, Inv, AtMost, Complete,
         LeastOf, Least, AllWithin, Depths, Within;
    LeavesWithin(counts);
    if counts == [] {
      NoCounts();
      DepthsDone([], []);
      return [];
    }
    var heap := Leaves(counts);
    var depth := seq(|counts|, _ => 0);
    InvStart(counts);
    while |heap| > 1
      invariant Inv(counts, heap, depth)
      invariant AllWithin(heap, |depth|) && Depths(heap, depth) == Depths(Leaves(counts), seq(|counts|, _ => 0))
      decreases |heap|
    {
      DepthsNext(heap, depth);
      var j := PopIndex(heap);
      var rest := Without(heap, j);
      var k := PopIndex(rest);
      InvJoin(counts, heap, depth, j, k);
      var z := Join(heap[j], rest[k]);
      depth := Deepen(depth, z.members);
      heap := Without(rest, k) + [z];
    }
    InvEnd(counts, heap, depth);
    DepthsDone(heap, depth);
    lens := AtLeastOne(depth);
  }

  lemma LeavesWithin(counts: seq<nat>)
    ensures AllWithin(Leaves(counts), |counts|)
  {
  }

  lemma DepthsDone(heap: seq<Tree>, depth: seq<nat>)
    requires AllWithin(heap, |depth|) && |heap| <= 1
    ensures Depths(heap, depth) == depth
  {
  }

  lemma DepthsNext(heap: seq<Tree>, depth: seq<nat>)
    requires AllWithin(heap, |depth|) && |heap| > 1
    ensures var j := LeastOf(heap, |heap|);
            var rest := Without(heap, j);
            var k := LeastOf(rest, |rest|);
            var z := Join(heap[j], rest[k]);
            && Within(z.members, |depth|) && AllWithin(Without(rest, k) + [z], |depth|)
            && Depths(heap, depth) == Depths(Without(rest, k) + [z], Deepened(depth, z.members))
  {
    hide *;
    NextParts(heap);
    DepthsStep(heap, depth);
  }

  lemma NextParts(heap: seq<Tree>)
    requires |heap| > 1
    ensures var j := LeastOf(heap, |heap|);
            var rest := Without(heap, j);
            var k := LeastOf(rest, |rest|);
            Next(heap) == Without(rest, k) + [Join(heap[j], rest[k])]
  {
    hide LeastOf, Join, Without;
  }

  lemma DepthsStep(heap: seq<Tree>, depth: seq<nat>)
    requires |heap| > 1 && AllWithin(heap, |depth|)
    ensures var next := Next(heap);
            var z := next[|next| - 1];
            && AllWithin(next, |depth|) && Within(z.members, |depth|)
            && Depths(heap, depth) == Depths(next, Deepened(depth, z.members))
  {
    NextWithin(heap, |depth|);
    hide Next, Deepened, AllWithin, Within;
  }

  lemma NoCounts()
    ensures Complete([], [])
  {
  }

  function AtLeastOne(depth: seq<nat>): (lens: seq<nat>)
    ensures |lens| == |depth|
  {
    seq(|depth|, i requires 0 <= i < |depth| => Max(depth[i], 1))
  }

  lemma InvEnd(counts: seq<nat>, heap: seq<Tree>, depth: seq<nat>)
    requires Inv(counts, heap, depth) && |heap| <= 1
    ensures Complete(counts, AtLeastOne(depth))
  {
    hide Full, Total, Height, Share, Pow2, Apart, Fib, HeapWeight, Sum;
    var n, lens := |counts|, AtLeastOne(depth);
    if n >= 2 {
      NoneAtTop(depth, n);
      assert lens == depth;
      KraftIsTotal(depth, n, n);
      if Positive(counts) {
        assert heap == [heap[0]];
        WeightOne(heap[0]);
        forall i | 0 <= i < n
          ensures Fib(lens[i] + 2) <= Sum(counts)
        {
          assert Reaches(heap, i);
          assert Full(heap[0], depth, n);
          FullBounds(heap[0], depth, n, i);
          FibMonotone(lens[i] + 2, Height(depth, heap[0].members) + 2);
        }
      }
    }
  }

  lemma FullBounds(t: Tree, depth: seq<nat>, m: nat, i: nat)
    requires Full(t, depth, m) && i in t.members
    ensures i < |depth| && depth[i] <= Height(depth, t.members)
  {
    HeightBounds(depth, t.members, i);
  }

  /** Of two or more symbols none takes the whole code space. */
  lemma NoneAtTop(depth: seq<nat>, m: nat)
    requires |depth| >= 2 && Shallow(depth, m) && Total(depth, m) == Pow2(m)
    ensures forall i :: 0 <= i < |depth| ==> depth[i] >= 1
  {
    forall i | 0 <= i < |depth|
      ensures depth[i] >= 1
    {
      TotalAbove(depth, m, i);
    }
  }

  lemma {:induction false} TotalAbove(depth: seq<nat>, m: nat, i: nat)
    requires i < |depth| && Shallow(depth, m)
    ensures Total(depth, m) >= Pow2(m - depth[i]) + |depth| - 1
    decreases |depth|
  {
    var k := |depth| - 1;
    if i < k {
      TotalAbove(depth[..k], m, i);
    } else {
      TotalAtLeast(depth[..k], m);
    }
  }

  lemma {:induction false} TotalAtLeast(depth: seq<nat>, m: nat)
    requires Shallow(depth, m)
    ensures Total(depth, m) >= |depth|
    decreases |depth|
  {
    if depth != [] {
      TotalAtLeast(depth[..|depth| - 1], m);
    }
  }

  /** The total of the depths is the Kraft sum of the lengths. */
  lemma {:induction false} KraftIsTotal(depth: seq<nat>, m: nat, k: nat)
    requires Shallow(depth, m) && k <= |depth| && forall i :: 0 <= i < |depth| ==> depth[i] >= 1
    ensures Longest(depth, m + 1) && Below(depth, m + 1, m + 2, k) == 2 * Total(depth[..k], m)
    ensures Pow2(m + 1) == 2 * Pow2(m) && depth[..|depth|] == depth
  {
    if k > 0 {
      KraftIsTotal(depth, m, k - 1);
      assert depth[..k][..k - 1] == depth[..k - 1];
      assert Pow2(m + 1 - depth[k - 1]) == 2 * Pow2(m - depth[k - 1]);
    }
  }

  /** Eight numbers on. */
  lemma FibAt34()
    ensures Fib(34) == 5_702_887
  {
    assert Fib(2) == 1 && Fib(3) == 2;
    hide Fib;
    FibLater(2, 1, 2);
    FibLater(10, 55, 89);
    FibLater(18, 2584, 4181);
    FibLater(26, 121393, 196418);
  }

  lemma FibLater(n: nat, a: nat, b: nat)
    requires Fib(n) == a && Fib(n + 1) == b
    ensures Fib(n + 8) == 13 * a + 21 * b && Fib(n + 9) == 21 * a + 34 * b
  {
    assert Fib(n + 2) == a + b && Fib(n + 3) == a + 2 * b;
    assert Fib(n + 4) == 2 * a + 3 * b && Fib(n + 5) == 3 * a + 5 * b;
    assert Fib(n + 6) == 5 * a + 8 * b && Fib(n + 7) == 8 * a + 13 * b;
  }

  /** The lengths of so many instances are ones the table of lengths can tell: at most 31. */
  lemma ShortEnough(counts: seq<nat>, lens: seq<nat>, i: nat)
    requires Complete(counts, lens) && Positive(counts) && i < |lens| && Sum(counts) < 5_702_887
    ensures lens[i] <= 31
  {
    FibAt34();
    hide Fib;
    if lens[i] > 31 {
      FibMonotone(34, lens[i] + 2);
    }
  }
}
