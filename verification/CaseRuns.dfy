/**
 The packed case mappings (tools/gen-unicode.cpp): runs of code points that all move by one distance, a step of one or
 two apart. Packing loses nothing: the runs spell the sorted mappings out again, and looking a code point up in them gives
 its mapping.
 */
module CaseRuns {
  import opened Wrappers
  import opened Pairs

  datatype CaseRun = CaseRun(first: nat, last: nat, stride: nat, delta: int)

  /** A code point moved; no mapping leads below 0. */
  function Moved(c: nat, delta: int): nat { if c + delta >= 0 then c + delta else 0 }

  predicate Sound(r: CaseRun) { r.first <= r.last && (r.stride == 1 || (r.stride == 2 && (r.last - r.first) % 2 == 0)) }

  /** How many code points a run is of. */
  function Count(r: CaseRun): nat
    requires Sound(r)
  {
    if r.stride == 1 then r.last - r.first + 1 else (r.last - r.first) / 2 + 1
  }

  function Step(r: CaseRun, k: nat): nat { if r.stride == 1 then r.first + k else r.first + 2 * k }

  /** The mappings a run stands for. */
  function Expand(r: CaseRun): (s: seq<Pair>)
    requires Sound(r)
    ensures |s| == Count(r) && forall k :: 0 <= k < |s| ==> s[k] == Pair(Step(r, k), Moved(Step(r, k), r.delta))
  {
    seq(Count(r), k requires k >= 0 => Pair(Step(r, k), Moved(Step(r, k), r.delta)))
  }

  ghost predicate AllSound(runs: seq<CaseRun>) { forall i :: 0 <= i < |runs| ==> Sound(runs[i]) }

  function ExpandAll(runs: seq<CaseRun>): seq<Pair>
    requires AllSound(runs)
    decreases |runs|
  {
    if runs == [] then [] else ExpandAll(runs[..|runs| - 1]) + Expand(runs[|runs| - 1])
  }

  function Distance(p: Pair): int { p.second - p.first }

  lemma DistanceMoves(p: Pair, d: int)
    requires Distance(p) == d
    ensures Moved(p.first, d) == p.second
  {
  }

  lemma ExpandMore(runs: seq<CaseRun>, r: CaseRun)
    requires AllSound(runs) && Sound(r)
    ensures AllSound(runs + [r]) && ExpandAll(runs + [r]) == ExpandAll(runs) + Expand(r)
  {
    assert (runs + [r])[..|runs|] == runs;
  }

  /** The mappings from i to j are those of one run. */
  ghost predicate OneRun(m: seq<Pair>, i: nat, j: nat, r: CaseRun) {
    && i < j <= |m| && r.first == m[i].first && (r.stride == 1 || r.stride == 2)
    && forall k :: i <= k < j ==> m[k].first == Step(r, k - i) && Distance(m[k]) == r.delta
  }

  lemma RunSpells(m: seq<Pair>, i: nat, j: nat, r: CaseRun)
    requires OneRun(m, i, j, r) && r.last == m[j - 1].first
    ensures Sound(r) && Expand(r) == m[i..j]
  {
    assert m[j - 1].first == Step(r, j - 1 - i);
    assert Count(r) == j - i;
    forall k | 0 <= k < j - i
      ensures Expand(r)[k] == m[i..j][k]
    {
      assert m[i + k].first == Step(r, k);
      DistanceMoves(m[i + k], r.delta);
    }
  }

  /** `pack_case_runs`: from each entry on, the longest run with the stride of its first two. */
  method PackCaseRuns(given: seq<Pair>) returns (runs: seq<CaseRun>)
    ensures AllSound(runs) && ExpandAll(runs) == Sort(given)
  {
    hide Sort, ExpandAll, AllSound, Sound, OneRun, Expand;
    var m := Sort(given);
    SortIs(given);
    runs := [];
    NoRun();
    var i := 0;
    while i < |m|
      invariant i <= |m| && AllSound(runs) && ExpandAll(runs) == m[..i]
    {
      var delta := Distance(m[i]);
      var j := i + 1;
      var stride := 1;
      OneLong(m, i, delta);
      if j < |m| && Distance(m[j]) == delta {
        assert m[i].first <= m[j].first;
        var step := m[j].first - m[i].first;
        if step == 1 || step == 2 {
          stride := step;
          OneAny(m, i, delta, stride);
          while j < |m| && m[j].first == m[j - 1].first + stride && Distance(m[j]) == delta
            invariant i < j <= |m| && OneRun(m, i, j, CaseRun(m[i].first, 0, stride, delta))
          {
            RunGrows(m, i, j, CaseRun(m[i].first, 0, stride, delta));
            j := j + 1;
          }
        }
      }
      var r := CaseRun(m[i].first, m[j - 1].first, stride, delta);
      RunLast(m, i, j, CaseRun(m[i].first, 0, stride, delta), r.last);
      RunSpells(m, i, j, r);
      ExpandMore(runs, r);
      assert m[..j] == m[..i] + m[i..j];
      runs, i := runs + [r], j;
    }
    assert m[..i] == m;
  }

  lemma NoRun()
    ensures AllSound([]) && ExpandAll([]) == []
  {
  }

  lemma OneLong(m: seq<Pair>, i: nat, delta: int)
    requires i < |m| && Distance(m[i]) == delta
    ensures OneRun(m, i, i + 1, CaseRun(m[i].first, 0, 1, delta))
  {
  }

  lemma OneAny(m: seq<Pair>, i: nat, delta: int, stride: nat)
    requires i < |m| && Distance(m[i]) == delta && (stride == 1 || stride == 2)
    ensures OneRun(m, i, i + 1, CaseRun(m[i].first, 0, stride, delta))
  {
  }

  lemma RunGrows(m: seq<Pair>, i: nat, j: nat, r: CaseRun)
    requires OneRun(m, i, j, r) && j < |m| && m[j].first == m[j - 1].first + r.stride && Distance(m[j]) == r.delta
    ensures OneRun(m, i, j + 1, r)
  {
  }

  lemma RunLast(m: seq<Pair>, i: nat, j: nat, r: CaseRun, last: nat)
    requires OneRun(m, i, j, r)
    ensures OneRun(m, i, j, r.(last := last))
  {
  }

  // Looking up.

  /** The mapping of a code point in a list of pairs. */
  function Find(m: seq<Pair>, c: nat): Option<nat>
    decreases |m|
  {
    if m == [] then None else if m[0].first == c then Some(m[0].second) else Find(m[1..], c)
  }

  /** The table's answer: the first run whose ends hold c says where it moves, or that it does not. */
  function Answer(runs: seq<CaseRun>, c: nat): Option<nat>
    decreases |runs|
  {
    if runs == [] then None
    else if runs[0].first <= c <= runs[0].last then
      if runs[0].stride == 0 || (c - runs[0].first) % runs[0].stride == 0 then Some(Moved(c, runs[0].delta)) else None
    else Answer(runs[1..], c)
  }

  ghost predicate Rising(m: seq<Pair>) { forall i, j :: 0 <= i < j < |m| ==> m[i].first < m[j].first }

  lemma {:induction false} FindConcat(a: seq<Pair>, b: seq<Pair>, c: nat)
    ensures Find(a + b, c) == if Find(a, c).Some? then Find(a, c) else Find(b, c)
    decreases |a|
  {
    if a == [] {
      assert a + b == b;
    } else {
      assert (a + b)[1..] == a[1..] + b;
      FindConcat(a[1..], b, c);
    }
  }

  lemma {:induction false} FindNone(m: seq<Pair>, c: nat)
    requires forall i :: 0 <= i < |m| ==> m[i].first != c
    ensures Find(m, c) == None
    decreases |m|
  {
    if m != [] {
      FindNone(m[1..], c);
    }
  }

  lemma {:induction false} FindAt(m: seq<Pair>, c: nat, i: nat)
    requires Rising(m) && i < |m| && m[i].first == c
    ensures Find(m, c) == Some(m[i].second)
    decreases |m|
  {
    if i > 0 {
      FindAt(m[1..], c, i - 1);
    }
  }

  lemma ExpandRises(r: CaseRun)
    requires Sound(r)
    ensures Rising(Expand(r)) && forall k :: 0 <= k < Count(r) ==> r.first <= Expand(r)[k].first <= r.last
  {
  }

  lemma FindInRun(r: CaseRun, c: nat)
    requires Sound(r)
    ensures Find(Expand(r), c)
         == if r.first <= c <= r.last && (c - r.first) % r.stride == 0 then Some(Moved(c, r.delta)) else None
  {
    ExpandRises(r);
    if r.first <= c <= r.last && (c - r.first) % r.stride == 0 {
      FindAt(Expand(r), c, if r.stride == 1 then c - r.first else (c - r.first) / 2);
    } else {
      forall k | 0 <= k < Count(r)
        ensures Expand(r)[k].first != c
      {
        assert r.stride == 2 ==> (2 * k) % 2 == 0;
      }
      FindNone(Expand(r), c);
    }
  }

  function ExpandFrom(runs: seq<CaseRun>): seq<Pair>
    requires AllSound(runs)
    decreases |runs|
  {
    if runs == [] then [] else Expand(runs[0]) + ExpandFrom(runs[1..])
  }

  lemma {:induction false} ExpandEither(runs: seq<CaseRun>)
    requires AllSound(runs)
    ensures ExpandAll(runs) == ExpandFrom(runs)
    decreases |runs|
  {
    hide Expand;
    if |runs| > 0 {
      var n := |runs| - 1;
      ExpandEither(runs[..n]);
      FromMore(runs[..n], runs[n]);
      assert runs[..n] + [runs[n]] == runs;
    }
  }

  lemma {:induction false} FromMore(runs: seq<CaseRun>, r: CaseRun)
    requires AllSound(runs) && Sound(r)
    ensures AllSound(runs + [r]) && ExpandFrom(runs + [r]) == ExpandFrom(runs) + Expand(r)
    decreases |runs|
  {
    hide Expand;
    if runs == [] {
      assert (runs + [r])[1..] == [];
    } else {
      assert (runs + [r])[1..] == runs[1..] + [r];
      FromMore(runs[1..], r);
    }
  }

  /** Where each code point is mapped once, the runs are disjoint and sorted, and answer as the mappings do. */
  lemma {:induction false} RunsAnswer(runs: seq<CaseRun>, c: nat)
    requires AllSound(runs) && Rising(ExpandFrom(runs))
    ensures Answer(runs, c) == Find(ExpandFrom(runs), c)
    ensures forall i, j :: 0 <= i < j < |runs| ==> runs[i].last < runs[j].first
    decreases |runs|
  {
    if runs != [] {
      var r, rest := runs[0], runs[1..];
      var a, b := Expand(r), ExpandFrom(rest);
      assert Rising(b) by {
        assert forall i :: 0 <= i < |b| ==> b[i] == (a + b)[|a| + i];
      }
      RunsAnswer(rest, c);
      Apart(r, rest);
      hide Expand, Rising;
      FindConcat(a, b, c);
      FindInRun(r, c);
      if c <= r.last {
        FindNone(b, c);
      }
      forall j | 0 < j < |runs|
        ensures r.last < runs[j].first
      {
        assert runs[j] == rest[j - 1];
      }
    }
  }

  /** All of the rest lies beyond the first run. */
  lemma Apart(r: CaseRun, rest: seq<CaseRun>)
    requires Sound(r) && AllSound(rest) && Rising(Expand(r) + ExpandFrom(rest))
    ensures forall i :: 0 <= i < |ExpandFrom(rest)| ==> r.last < ExpandFrom(rest)[i].first
    ensures forall j :: 0 <= j < |rest| ==> r.last < rest[j].first
  {
    var a, b := Expand(r), ExpandFrom(rest);
    var n := Count(r) - 1;
    assert a[n].first == r.last && (a + b)[n] == a[n];
    hide Expand, ExpandFrom, Sound, AllSound;
    forall i | 0 <= i < |b|
      ensures r.last < b[i].first
    {
      assert (a + b)[|a| + i] == b[i];
    }
    forall j | 0 <= j < |rest|
      ensures r.last < rest[j].first
    {
      FirstIn(rest, j);
    }
  }

  lemma {:induction false} FirstIn(runs: seq<CaseRun>, j: nat)
    requires AllSound(runs) && j < |runs|
    ensures exists i :: 0 <= i < |ExpandFrom(runs)| && ExpandFrom(runs)[i].first == runs[j].first
    decreases |runs|
  {
    var a, b := Expand(runs[0]), ExpandFrom(runs[1..]);
    if j == 0 {
      assert (a + b)[0] == a[0] && a[0].first == runs[0].first;
      assert ExpandFrom(runs)[0].first == runs[0].first;
    } else {
      FirstIn(runs[1..], j - 1);
      var i :| 0 <= i < |b| && b[i].first == runs[j].first;
      assert (a + b)[|a| + i] == b[i];
      assert ExpandFrom(runs)[|a| + i].first == runs[j].first;
    }
  }

  /** The packed table: for mappings of each code point at most once, lookup in the runs is lookup in the mappings. */
  lemma PackedMeans(given: seq<Pair>, runs: seq<CaseRun>, c: nat)
    requires AllSound(runs) && ExpandAll(runs) == Sort(given)
    requires forall i, j :: 0 <= i < j < |given| ==> given[i].first != given[j].first
    ensures Answer(runs, c) == Find(given, c)
    ensures forall i, j :: 0 <= i < j < |runs| ==> runs[i].last < runs[j].first
  {
    hide Sort, ExpandAll, AllSound;
    SortIs(given);
    ExpandEither(runs);
    SortRises(given);
    RunsAnswer(runs, c);
    FindSorted(given, c);
  }

  /** Distinct keys stay distinct, and so rise once sorted. */
  lemma SortRises(given: seq<Pair>)
    requires forall i, j :: 0 <= i < j < |given| ==> given[i].first != given[j].first
    ensures Rising(Sort(given))
  {
    var s := Sort(given);
    SortIs(given);
    forall i, j | 0 <= i < j < |s|
      ensures s[i].first < s[j].first
    {
      if s[i].first == s[j].first {
        TwoSame(given, s, i, j);
      }
    }
  }

  lemma TwoSame(given: seq<Pair>, s: seq<Pair>, i: nat, j: nat)
    requires multiset(s) == multiset(given) && i < j < |s|
    requires forall a, b :: 0 <= a < b < |given| ==> given[a].first != given[b].first
    ensures s[i].first != s[j].first
  {
    if s[i] == s[j] {
      assert s == s[..j] + [s[j]] + s[j + 1..] && s[..j][i] == s[i];
      assert multiset(s[..j])[s[i]] >= 1;
      assert multiset(s)[s[i]] >= 2;
      Once(given, s[i]);
    } else {
      assert s[i] in multiset(given) && s[j] in multiset(given);
    }
  }

  lemma {:induction false} Once(given: seq<Pair>, p: Pair)
    requires forall a, b :: 0 <= a < b < |given| ==> given[a].first != given[b].first
    ensures multiset(given)[p] <= 1
    decreases |given|
  {
    if given != [] {
      Once(given[1..], p);
      assert given == [given[0]] + given[1..];
      if given[0] == p {
        assert p !in given[1..];
      }
    }
  }

  lemma FindSorted(given: seq<Pair>, c: nat)
    requires forall i, j :: 0 <= i < j < |given| ==> given[i].first != given[j].first
    requires Rising(Sort(given))
    ensures Find(Sort(given), c) == Find(given, c)
  {
    var s := Sort(given);
    SortIs(given);
    if k :| 0 <= k < |given| && given[k].first == c {
      assert given[k] in multiset(s) && given[k] in s;
      var i :| 0 <= i < |s| && s[i] == given[k];
      FindAt(s, c, i);
      FindDistinct(given, c, k);
    } else {
      FindNone(given, c);
      forall i | 0 <= i < |s|
        ensures s[i].first != c
      {
        assert s[i] in multiset(given) && s[i] in given;
      }
      FindNone(s, c);
    }
  }

  lemma {:induction false} FindDistinct(m: seq<Pair>, c: nat, k: nat)
    requires forall i, j :: 0 <= i < j < |m| ==> m[i].first != m[j].first
    requires k < |m| && m[k].first == c
    ensures Find(m, c) == Some(m[k].second)
    decreases |m|
  {
    if k > 0 {
      FindDistinct(m[1..], c, k - 1);
    }
  }
}
