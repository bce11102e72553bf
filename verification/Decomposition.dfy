/**
 `fully_decompose` and its pool (tools/gen-unicode.cpp). Decomposing is rewriting; where the direct decompositions have
 no cycle it ends, in a form with nothing left to decompose that every order of rewriting comes to.
 */
module Decomposition {
  type Direct = map<nat, seq<nat>>

  /** No cycle: every code point that decomposes has a rank above those of all that it decomposes to. */
  ghost predicate Ranked(direct: Direct, rank: map<nat, nat>) {
    forall c :: c in direct ==> c in rank && forall d :: d in direct[c] && d in direct ==> d in rank && rank[d] < rank[c]
  }

  /** All that decomposes in s is below n. */
  ghost predicate Under(direct: Direct, rank: map<nat, nat>, s: seq<nat>, n: nat) {
    forall c :: c in s && c in direct ==> c in rank && rank[c] < n
  }

  /** Full decomposition, one code point after another. */
  ghost function Full(direct: Direct, rank: map<nat, nat>, s: seq<nat>, n: nat): seq<nat>
    requires Ranked(direct, rank) && Under(direct, rank, s, n)
    decreases n, |s|
  {
    if s == [] then []
    else
      var c := s[0];
      (if c in direct then Full(direct, rank, direct[c], rank[c]) else [c]) + Full(direct, rank, s[1..], n)
  }

  lemma UnderParts(direct: Direct, rank: map<nat, nat>, a: seq<nat>, b: seq<nat>, n: nat)
    ensures Under(direct, rank, a + b, n) <==> Under(direct, rank, a, n) && Under(direct, rank, b, n)
  {
    assert forall c :: c in a + b <==> c in a || c in b;
  }

  lemma {:induction false} FullConcat(direct: Direct, rank: map<nat, nat>, a: seq<nat>, b: seq<nat>, n: nat)
    requires Ranked(direct, rank) && Under(direct, rank, a + b, n)
    ensures Under(direct, rank, a, n) && Under(direct, rank, b, n)
    ensures Full(direct, rank, a + b, n) == Full(direct, rank, a, n) + Full(direct, rank, b, n)
    decreases |a|
  {
    hide Under, Ranked, Full;
    UnderParts(direct, rank, a, b, n);
    if a == [] {
      assert a + b == b;
      FullNone(direct, rank, n);
    } else {
      assert (a + b)[1..] == a[1..] + b && (a + b)[0..] == a + b && a[0..] == a;
      FullFirst(direct, rank, a + b, 0, n);
      FullFirst(direct, rank, a, 0, n);
      FullConcat(direct, rank, a[1..], b, n);
    }
  }

  /** The bound does not matter. */
  lemma {:induction false} AnyBound(direct: Direct, rank: map<nat, nat>, s: seq<nat>, m: nat, n: nat)
    requires Ranked(direct, rank) && Under(direct, rank, s, m) && Under(direct, rank, s, n)
    ensures Full(direct, rank, s, m) == Full(direct, rank, s, n)
    decreases |s|
  {
    if s != [] {
      AnyBound(direct, rank, s[1..], m, n);
    }
  }

  /** Nothing is left that decomposes. */
  lemma {:induction false} NothingLeft(direct: Direct, rank: map<nat, nat>, s: seq<nat>, n: nat)
    requires Ranked(direct, rank) && Under(direct, rank, s, n)
    ensures forall c :: c in Full(direct, rank, s, n) ==> c !in direct
    decreases n, |s|
  {
    if s != [] {
      if s[0] in direct {
        NothingLeft(direct, rank, direct[s[0]], rank[s[0]]);
      }
      NothingLeft(direct, rank, s[1..], n);
    }
  }

  /** One code point of s replaced by what it decomposes to directly. */
  predicate Rewrites(direct: Direct, s: seq<nat>, i: nat, t: seq<nat>) {
    i < |s| && s[i] in direct && t == s[..i] + direct[s[i]] + s[i + 1..]
  }

  /** However a code point is replaced, the full decomposition is the same. */
  lemma RewriteKeeps(direct: Direct, rank: map<nat, nat>, s: seq<nat>, i: nat, t: seq<nat>, n: nat)
    requires Ranked(direct, rank) && Under(direct, rank, s, n) && Rewrites(direct, s, i, t)
    ensures Under(direct, rank, t, n) && Full(direct, rank, t, n) == Full(direct, rank, s, n)
  {
    var a, c, b := s[..i], s[i], s[i + 1..];
    assert s == a + ([c] + b) && t == a + (direct[c] + b);
    RewriteUnder(direct, rank, s, i, t, n);
    hide Full;
    FullConcat(direct, rank, a, [c] + b, n);
    FullConcat(direct, rank, [c], b, n);
    FullConcat(direct, rank, a, direct[c] + b, n);
    FullConcat(direct, rank, direct[c], b, n);
    FullOne(direct, rank, c, n);
    AnyBound(direct, rank, direct[c], rank[c], n);
  }

  lemma RewriteUnder(direct: Direct, rank: map<nat, nat>, s: seq<nat>, i: nat, t: seq<nat>, n: nat)
    requires Ranked(direct, rank) && Under(direct, rank, s, n) && Rewrites(direct, s, i, t)
    ensures Under(direct, rank, t, n)
  {
    var c := s[i];
    assert c in s;
    forall d | d in t && d in direct
      ensures d in rank && rank[d] < n
    {
      if d in direct[c] {
        assert rank[d] < rank[c] < n;
      } else {
        assert d in s;
      }
    }
  }

  lemma FullOne(direct: Direct, rank: map<nat, nat>, c: nat, n: nat)
    requires Ranked(direct, rank) && Under(direct, rank, [c], n) && c in direct
    ensures c in rank && Full(direct, rank, [c], n) == Full(direct, rank, direct[c], rank[c])
  {
    assert c in [c];
    assert [c][1..] == [];
    assert Full(direct, rank, [], n) == [];
  }

  lemma {:induction false} FullOfFull(direct: Direct, rank: map<nat, nat>, s: seq<nat>, n: nat)
    requires Ranked(direct, rank) && forall c :: c in s ==> c !in direct
    ensures Under(direct, rank, s, n) && Full(direct, rank, s, n) == s
    decreases |s|
  {
    if s != [] {
      assert s[0] in s;
      assert forall c :: c in s[1..] ==> c in s;
      FullOfFull(direct, rank, s[1..], n);
    }
  }

  ghost predicate OneRewrite(direct: Direct, s: seq<nat>, t: seq<nat>) { exists i: nat :: Rewrites(direct, s, i, t) }

  /** A chain of single replacements. */
  ghost predicate Chain(direct: Direct, steps: seq<seq<nat>>)
    decreases |steps|
  {
    steps != [] && (|steps| > 1 ==> OneRewrite(direct, steps[0], steps[1]) && Chain(direct, steps[1..]))
  }

  /** Every order of rewriting that comes to an end comes to the full decomposition. */
  lemma {:induction false} OneNormalForm(direct: Direct, rank: map<nat, nat>, steps: seq<seq<nat>>, n: nat)
    requires Ranked(direct, rank) && Chain(direct, steps) && Under(direct, rank, steps[0], n)
    requires forall c :: c in steps[|steps| - 1] ==> c !in direct
    ensures steps[|steps| - 1] == Full(direct, rank, steps[0], n)
    decreases |steps|
  {
    hide Rewrites, Under, Full, Ranked;
    if |steps| == 1 {
      FullOfFull(direct, rank, steps[0], n);
    } else {
      var i: nat :| Rewrites(direct, steps[0], i, steps[1]);
      RewriteKeeps(direct, rank, steps[0], i, steps[1], n);
      OneNormalForm(direct, rank, steps[1..], n);
    }
  }

  lemma FullFirst(direct: Direct, rank: map<nat, nat>, s: seq<nat>, k: nat, n: nat)
    requires Ranked(direct, rank) && k < |s| && Under(direct, rank, s[k..], n)
    ensures Under(direct, rank, s[k + 1..], n)
    ensures s[k] in direct ==> s[k] in rank && rank[s[k]] < n && Under(direct, rank, direct[s[k]], rank[s[k]])
    ensures Full(direct, rank, s[k..], n)
         == (if s[k] in direct then Full(direct, rank, direct[s[k]], rank[s[k]]) else [s[k]]) + Full(direct, rank, s[k + 1..], n)
  {
    var t := s[k..];
    assert t[0] == s[k] && t[1..] == s[k + 1..] && t[0] in t;
    assert forall c :: c in t[1..] ==> c in t;
  }

  lemma FullNone(direct: Direct, rank: map<nat, nat>, n: nat)
    requires Ranked(direct, rank)
    ensures Under(direct, rank, [], n) && Full(direct, rank, [], n) == []
  {
  }

  /** `fully_decompose`. */
  method FullyDecompose(direct: Direct, sequence: seq<nat>, ghost rank: map<nat, nat>, ghost n: nat) returns (result: seq<nat>)
    requires Ranked(direct, rank) && Under(direct, rank, sequence, n)
    ensures result == Full(direct, rank, sequence, n)
    decreases n
  {
    hide Full, Under, Ranked;
    result := [];
    assert sequence[0..] == sequence;
    for k := 0 to |sequence|
      invariant Under(direct, rank, sequence[k..], n)
      invariant Full(direct, rank, sequence, n) == result + Full(direct, rank, sequence[k..], n)
    {
      FullFirst(direct, rank, sequence, k, n);
      var c := sequence[k];
      if c !in direct {
        result := result + [c];
      } else {
        var expanded := FullyDecompose(direct, direct[c], rank, rank[c]);
        result := result + expanded;
      }
    }
    assert sequence[|sequence|..] == [];
    FullNone(direct, rank, n);
  }

  /** An entry of the emitted table: where in the pool a code point's full decomposition lies. */
  datatype Entry = Entry(codePoint: nat, offset: nat, length: nat)

  ghost predicate Spells(pool: seq<nat>, e: Entry, s: seq<nat>) {
    e.offset + e.length <= |pool| && pool[e.offset..e.offset + e.length] == s
  }

  /** The pool of all the decompositions, for the code points in their order. Each entry's slice gives its decomposition back. */
  method BuildPool(direct: Direct, keys: seq<nat>, ghost rank: map<nat, nat>) returns (entries: seq<Entry>, pool: seq<nat>)
    requires Ranked(direct, rank) && forall i :: 0 <= i < |keys| ==> keys[i] in direct
    ensures |entries| == |keys|
    ensures forall i :: 0 <= i < |keys| ==>
              && entries[i].codePoint == keys[i] && keys[i] in rank
              && Spells(pool, entries[i], Full(direct, rank, direct[keys[i]], rank[keys[i]]))
  {
    hide Full;
    entries, pool := [], [];
    for k := 0 to |keys|
      invariant |entries| == k
      invariant forall i :: 0 <= i < k ==>
                  && entries[i].codePoint == keys[i] && keys[i] in rank
                  && Spells(pool, entries[i], Full(direct, rank, direct[keys[i]], rank[keys[i]]))
    {
      var expanded := FullyDecompose(direct, direct[keys[k]], rank, rank[keys[k]]);
      ghost var was := pool;
      entries := entries + [Entry(keys[k], |pool|, |expanded|)];
      pool := pool + expanded;
      forall i | 0 <= i < k
        ensures Spells(pool, entries[i], Full(direct, rank, direct[keys[i]], rank[keys[i]]))
      {
        SpellsStill(was, expanded, entries[i], Full(direct, rank, direct[keys[i]], rank[keys[i]]));
      }
    }
  }

  lemma SpellsStill(pool: seq<nat>, more: seq<nat>, e: Entry, s: seq<nat>)
    requires Spells(pool, e, s)
    ensures Spells(pool + more, e, s)
  {
    assert (pool + more)[e.offset..e.offset + e.length] == pool[e.offset..e.offset + e.length];
  }
}
