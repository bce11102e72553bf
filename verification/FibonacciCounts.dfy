/**
 The counts for which a symbol's code is longest (tools/pdf-make-jbig2-tests.py, `huffman_lengths`): the Fibonacci numbers,
 which attain the bound of HuffmanLengths for every length.
 */
module FibonacciCounts {
  import opened Wrappers
  import opened ByteTypes
  import opened HuffmanLengths
  import IdTable

  /** 1 and the first Fibonacci numbers: 1, 1, 1, 2, 3, 5, ... */
  function Counts(n: nat): (counts: seq<nat>)
    ensures |counts| == n && forall i :: 0 <= i < n ==> counts[i] == if i == 0 then 1 else Fib(i)
  {
    seq(n, i requires 0 <= i < n => if i == 0 then 1 else Fib(i))
  }

  lemma {:induction false} FibPositive(n: nat)
    requires n > 0
    ensures Fib(n) >= 1 && (n >= 2 ==> Fib(n) < Fib(n + 1))
  {
    if n > 2 {
      FibPositive(n - 1);
      FibPositive(n - 2);
    }
  }

  lemma {:induction false} CountsSum(n: nat)
    requires n > 0
    ensures Sum(Counts(n)) == Fib(n + 1) && Positive(Counts(n))
  {
    assert Counts(n)[..n - 1] == Counts(n - 1);
    if n == 1 {
      assert Sum(Counts(0)) == 0;
    } else {
      CountsSum(n - 1);
      FibPositive(n - 1);
    }
  }

  /** The first of the least trees is the first tree if no other is less. */
  lemma {:induction false} FirstLeast(heap: seq<Tree>, n: nat)
    requires 0 < n <= |heap| && forall b :: 0 < b < n ==> AtMost(heap[0], heap[b])
    ensures LeastOf(heap, n) == 0
  {
    if n > 1 {
      FirstLeast(heap, n - 1);
    }
  }

  lemma LastLeast(heap: seq<Tree>)
    requires heap != [] && forall b :: 0 <= b < |heap| - 1 ==> !AtMost(heap[b], heap[|heap| - 1])
    ensures LeastOf(heap, |heap|) == |heap| - 1
  {
  }

  /** After t joins: the leaves from t + 1 on, and one tree of the rest. */
  ghost predicate Joined(heap: seq<Tree>, n: nat, t: nat) {
    && 1 <= t < n && |heap| == n - t
    && (forall b :: 0 <= b < n - t - 1 ==> heap[b] == Tree(Fib(t + 1 + b), t + 1 + b, [t + 1 + b]))
    && heap[n - t - 1].weight == Fib(t + 2) && heap[n - t - 1].least == 0 && 0 in heap[n - t - 1].members
    && Distinct(heap[n - t - 1].members) && Within(heap[n - t - 1].members, t + 1)
  }

  lemma {:induction false} FibRises(a: nat, b: nat)
    requires 2 <= a < b
    ensures Fib(a) < Fib(b)
    decreases b
  {
    FibPositive(b - 1);
    if a < b - 1 {
      FibRises(a, b - 1);
    }
  }

  lemma NextIs(heap: seq<Tree>, j: nat, k: nat)
    requires |heap| > 1 && j == LeastOf(heap, |heap|) && k == LeastOf(Without(heap, j), |heap| - 1)
    ensures Next(heap) == Without(Without(heap, j), k) + [Join(heap[j], Without(heap, j)[k])]
  {
    hide LeastOf, Join;
  }

  /** The first leaf left is the least tree, */
  lemma LeafLeast(heap: seq<Tree>, n: nat, t: nat)
    requires Joined(heap, n, t) && t + 1 < n
    ensures LeastOf(heap, |heap|) == 0
  {
    hide Fib, LeastOf;
    var last := n - t - 1;
    forall b | 0 < b < |heap|
      ensures AtMost(heap[0], heap[b])
    {
      FibRises(t + 1, if b < last then t + 1 + b else t + 2);
    }
    FirstLeast(heap, |heap|);
  }

  /** and the joined tree the next. */
  lemma JoinedLeast(heap: seq<Tree>, n: nat, t: nat)
    requires Joined(heap, n, t) && t + 1 < n
    ensures LeastOf(heap[1..], |heap| - 1) == |heap| - 2
  {
    hide Fib, LeastOf;
    var rest := heap[1..];
    forall b | 0 <= b < |rest| - 1
      ensures !AtMost(rest[b], rest[|rest| - 1])
    {
      assert rest[b] == heap[b + 1];
      if b > 0 {
        FibRises(t + 2, t + 2 + b);
      }
    }
    LastLeast(rest);
  }

  lemma JoinedOn(heap: seq<Tree>, n: nat, t: nat)
    requires Joined(heap, n, t) && t + 1 < n
    ensures Joined(Next(heap), n, t + 1)
  {
    var last := n - t - 1;
    assert |heap| == last + 1 && last > 0;
    hide *;
    LeafLeast(heap, n, t);
    JoinedLeast(heap, n, t);
    TwoTaken(heap, last);
    JoinedMore(heap, n, t);
  }

  lemma JoinedMore(heap: seq<Tree>, n: nat, t: nat)
    requires Joined(heap, n, t) && t + 1 < n
    ensures Joined(heap[1..n - t - 1] + [Join(heap[0], heap[n - t - 1])], n, t + 1)
  {
    var last := n - t - 1;
    var z := Join(heap[0], heap[last]);
    assert Fib(t + 3) == Fib(t + 2) + Fib(t + 1);
    hide Fib;
    assert z.members == [t + 1] + heap[last].members;
    assert 0 in z.members && Distinct(z.members) && Within(z.members, t + 2);
    hide Distinct, Within;
  }

  lemma TwoTaken(heap: seq<Tree>, last: nat)
    requires |heap| == last + 1 && last > 0 && LeastOf(heap, |heap|) == 0 && LeastOf(heap[1..], |heap| - 1) == last - 1
    ensures Next(heap) == heap[1..last] + [Join(heap[0], heap[last])]
  {
    hide LeastOf, Next, Join;
    assert Without(heap, 0) == heap[1..] && Without(heap[1..], last - 1) == heap[1..last];
    NextIs(heap, 0, last - 1);
  }

  lemma FirstJoin(n: nat)
    requires n >= 2
    ensures Joined(Next(Leaves(Counts(n))), n, 1)
  {
    hide *;
    FirstLeaves(n);
    var heap := Leaves(Counts(n));
    var rest := heap[1..];
    FirstLeast(heap, n);
    FirstLeast(rest, n - 1);
    FirstTaken(heap);
    FirstShape(n);
  }

  /** The first three leaves weigh 1, and none less. */
  lemma FirstLeaves(n: nat)
    requires n >= 2
    ensures var heap := Leaves(Counts(n));
            && |heap| == n && heap[0] == Tree(1, 0, [0]) && heap[1] == Tree(1, 1, [1])
            && (forall b :: 0 < b < n ==> AtMost(heap[0], heap[b]))
            && (forall b :: 0 < b < n - 1 ==> AtMost(heap[1..][0], heap[1..][b]))
  {
    var heap := Leaves(Counts(n));
    assert Fib(1) == 1;
    hide Fib;
    forall b | 0 < b < n
      ensures heap[b].weight >= 1 && heap[b].least == b
    {
      FibPositive(b);
    }
  }

  lemma FirstTaken(heap: seq<Tree>)
    requires |heap| >= 2 && LeastOf(heap, |heap|) == 0 && LeastOf(heap[1..], |heap| - 1) == 0
    ensures Next(heap) == heap[2..] + [Join(heap[0], heap[1])]
  {
    hide LeastOf, Next, Join;
    assert Without(heap, 0) == heap[1..] && Without(heap[1..], 0) == heap[2..];
    NextIs(heap, 0, 0);
  }

  lemma FirstShape(n: nat)
    requires n >= 2
    ensures var heap := Leaves(Counts(n)); Joined(heap[2..] + [Join(heap[0], heap[1])], n, 1)
  {
    var heap := Leaves(Counts(n));
    FirstLeaves(n);
    assert Fib(3) == 2;
    hide Fib;
    assert Join(heap[0], heap[1]) == Tree(2, 0, [0, 1]);
    forall b | 0 <= b < n - 2
      ensures heap[2..][b] == Tree(Fib(b + 2), b + 2, [b + 2])
    {
      assert heap[2..][b] == heap[b + 2];
    }
  }

  /** The first symbol goes down with every join. */
  lemma {:induction false} DepthOfFirst(heap: seq<Tree>, depth: seq<nat>, n: nat, t: nat)
    requires Joined(heap, n, t) && AllWithin(heap, |depth|) && |depth| == n && depth[0] == t
    ensures Depths(heap, depth)[0] == n - 1
    decreases n - t
  {
    hide Deepened, Fib, Next, Depths, AllWithin, Distinct, Within;
    if t + 1 == n {
      DepthsDone(heap, depth);
    } else {
      DepthsStep(heap, depth);
      JoinedOn(heap, n, t);
      var z := Next(heap)[|heap| - 2];
      DeepenedAt(depth, z.members, 0);
      DepthOfFirst(Next(heap), Deepened(depth, z.members), n, t + 1);
    }
  }

  /** The bound is attained: n of these counts sum to just Fibonacci(n + 1), and their longest code has n - 1 bits. */
  lemma Attained(n: nat)
    requires n >= 2
    ensures Sum(Counts(n)) == Fib(n + 1) && Positive(Counts(n)) && LengthsOf(Counts(n))[0] == n - 1
  {
    CountsSum(n);
    var heap, depth := Leaves(Counts(n)), seq(n, _ => 0);
    LeavesWithin(Counts(n));
    FirstJoin(n);
    DepthsStep(heap, depth);
    var z := Next(heap)[n - 2];
    hide Next, Depths, Fib, Deepened;
    DeepenedAt(depth, z.members, 0);
    DepthOfFirst(Next(heap), Deepened(depth, z.members), n, 1);
  }

  /** So 5702887 is the least sum at which a length can be lost: 33 such counts have it, and a length of 32 that no table gives back. */
  lemma LostAtTheBound(rest: seq<Bit>)
    ensures var counts := Counts(33);
            Sum(counts) == 5_702_887 && Positive(counts) && LengthsOf(counts)[0] == 32
            && (IdTable.TableBits(LengthsOf(counts)).Some? ==>
                  IdTable.ReadTable(IdTable.TableBits(LengthsOf(counts)).value + rest, 33) != Some((LengthsOf(counts), rest)))
  {
    hide *;
    Attained(33);
    FibAt34();
    if IdTable.TableBits(LengthsOf(Counts(33))).Some? {
      LengthsCount(Counts(33));
      IdTable.TableRoundTrip(LengthsOf(Counts(33)), rest);
    }
  }

  lemma LengthsCount(counts: seq<nat>)
    ensures |LengthsOf(counts)| == |counts|
  {
  }
}
