/**
 Property-indexed keyframes (src/bindings/Animations.cpp): each property's values spread evenly over the iteration, sorted,
 and the keyframes at one offset merged. Offsets are exact numbers here.
 */
module Keyframes {
  import opened Wrappers

  /** A property with its values, as it was read. */
  datatype Property = Property(name: string, values: seq<string>)

  /** One value at its place. */
  datatype Spot = Spot(at: real, name: string, value: string)

  datatype Keyframe = Keyframe(at: real, values: seq<(string, string)>)

  /** Where value i of n stands. */
  function Offset(i: nat, n: nat): real
    requires i < n
  {
    if n == 1 then 1.0 else i as real / (n - 1) as real
  }

  function Spots(p: Property): (s: seq<Spot>)
    ensures |s| == |p.values| && forall i :: 0 <= i < |s| ==> s[i] == Spot(Offset(i, |p.values|), p.name, p.values[i])
  {
    seq(|p.values|, i requires 0 <= i < |p.values| => Spot(Offset(i, |p.values|), p.name, p.values[i]))
  }

  /** All the values, property by property. */
  function AllSpots(ps: seq<Property>): seq<Spot>
    decreases |ps|
  {
    if ps == [] then [] else AllSpots(ps[..|ps| - 1]) + Spots(ps[|ps| - 1])
  }

  /** The values that stand at x, in their order. */
  function AtOffset(s: seq<Spot>, x: real): seq<(string, string)>
    decreases |s|
  {
    if s == [] then []
    else
      var n := |s| - 1;
      AtOffset(s[..n], x) + if s[n].at == x then [(s[n].name, s[n].value)] else []
  }

  lemma AtOffsetMore(s: seq<Spot>, e: Spot, x: real)
    ensures AtOffset(s + [e], x) == AtOffset(s, x) + if e.at == x then [(e.name, e.value)] else []
  {
    assert (s + [e])[..|s|] == s;
  }

  lemma {:induction false} AtOffsetConcat(a: seq<Spot>, b: seq<Spot>, x: real)
    ensures AtOffset(a + b, x) == AtOffset(a, x) + AtOffset(b, x)
    decreases |b|
  {
    if b == [] {
      assert a + b == a;
    } else {
      var n := |b| - 1;
      assert a + b == (a + b[..n]) + [b[n]] && b == b[..n] + [b[n]];
      AtOffsetMore(a + b[..n], b[n], x);
      AtOffsetMore(b[..n], b[n], x);
      AtOffsetConcat(a, b[..n], x);
    }
  }

  ghost predicate Rising(s: seq<Spot>) { forall i, j :: 0 <= i < j < |s| ==> s[i].at <= s[j].at }

  /** Put in after all that stand at or before its place. */
  function Insert(s: seq<Spot>, e: Spot): seq<Spot>
    decreases |s|
  {
    if s == [] || s[|s| - 1].at <= e.at then s + [e] else Insert(s[..|s| - 1], e) + [s[|s| - 1]]
  }

  /** A stable sort: what stands at one place keeps its order. */
  function Sorted(s: seq<Spot>): seq<Spot>
    decreases |s|
  {
    if s == [] then [] else Insert(Sorted(s[..|s| - 1]), s[|s| - 1])
  }

  lemma {:induction false} InsertMembers(s: seq<Spot>, e: Spot)
    ensures forall d :: d in Insert(s, e) <==> d in s || d == e
    decreases |s|
  {
    if s != [] && !(s[|s| - 1].at <= e.at) {
      var n := |s| - 1;
      InsertMembers(s[..n], e);
      assert s[..n] + [s[n]] == s;
    }
  }

  lemma {:induction false} InsertRises(s: seq<Spot>, e: Spot)
    requires Rising(s)
    ensures Rising(Insert(s, e))
    decreases |s|
  {
    if s != [] && !(s[|s| - 1].at <= e.at) {
      var n := |s| - 1;
      InsertRises(s[..n], e);
      InsertMembers(s[..n], e);
      var t := Insert(s[..n], e);
      hide Insert;
      forall i | 0 <= i < |t|
        ensures t[i].at <= s[n].at
      {
        assert t[i] in t;
      }
    }
  }

  lemma {:induction false} InsertAt(s: seq<Spot>, e: Spot, x: real)
    requires Rising(s)
    ensures AtOffset(Insert(s, e), x) == AtOffset(s, x) + if e.at == x then [(e.name, e.value)] else []
    decreases |s|
  {
    hide AtOffset;
    AtOffsetMore(s, e, x);
    if s != [] && !(s[|s| - 1].at <= e.at) {
      var n := |s| - 1;
      InsertAt(s[..n], e, x);
      assert Insert(s, e) == Insert(s[..n], e) + [s[n]] && s[..n] + [s[n]] == s;
      hide Insert, Rising;
      AtOffsetMore(Insert(s[..n], e), s[n], x);
      AtOffsetMore(s[..n], s[n], x);
      var before := AtOffset(s[..n], x);
      assert before + [] == before;
    }
  }

  lemma {:induction false} SortedIs(s: seq<Spot>, x: real)
    ensures Rising(Sorted(s)) && AtOffset(Sorted(s), x) == AtOffset(s, x)
    ensures forall d :: d in Sorted(s) <==> d in s
    decreases |s|
  {
    if s != [] {
      var n := |s| - 1;
      SortedIs(s[..n], x);
      var t := Sorted(s[..n]);
      assert Sorted(s) == Insert(t, s[n]) && s[..n] + [s[n]] == s;
      hide Insert, Rising, AtOffset, Sorted;
      InsertMembers(t, s[n]);
      InsertRises(t, s[n]);
      InsertAt(t, s[n], x);
      AtOffsetMore(s[..n], s[n], x);
    }
  }

  /** The keyframes are those of the values: at rising offsets, each with all that stands at its offset, in order. */
  ghost predicate KeyframesOf(s: seq<Spot>, ks: seq<Keyframe>) {
    && (forall i, j :: 0 <= i < j < |ks| ==> ks[i].at < ks[j].at)
    && (forall i :: 0 <= i < |ks| ==> ks[i].values == AtOffset(s, ks[i].at) && ks[i].values != [])
    && (forall i :: 0 <= i < |s| ==> exists j :: 0 <= j < |ks| && ks[j].at == s[i].at)
  }

  lemma {:induction false} NoneBeyond(s: seq<Spot>, x: real)
    requires forall i :: 0 <= i < |s| ==> s[i].at != x
    ensures AtOffset(s, x) == []
    decreases |s|
  {
    if s != [] {
      NoneBeyond(s[..|s| - 1], x);
    }
  }

  /** One value more, at the last keyframe's offset or beyond it. */
  function Merged(ks: seq<Keyframe>, e: Spot): seq<Keyframe> {
    var n: int := |ks| - 1;
    if ks != [] && ks[n].at == e.at then ks[n := Keyframe(e.at, ks[n].values + [(e.name, e.value)])]
    else ks + [Keyframe(e.at, [(e.name, e.value)])]
  }

  /** The last keyframe stands where the last value does. */
  ghost predicate LastMatches(s: seq<Spot>, ks: seq<Keyframe>) {
    (s == [] <==> ks == []) && (ks != [] ==> ks[|ks| - 1].at == s[|s| - 1].at)
  }

  lemma MergedKeeps(s: seq<Spot>, ks: seq<Keyframe>, e: Spot)
    requires Rising(s + [e]) && KeyframesOf(s, ks) && LastMatches(s, ks)
    ensures KeyframesOf(s + [e], Merged(ks, e)) && LastMatches(s + [e], Merged(ks, e))
  {
    hide AtOffset;
    var t, ms := s + [e], Merged(ks, e);
    assert s != [] ==> t[|s| - 1] == s[|s| - 1] && t[|s|] == e;
    assert ks != [] ==> ks[|ks| - 1].at <= e.at;
    MergedValues(s, ks, e);
    hide Rising;
    forall i, j | 0 <= i < j < |ms|
      ensures ms[i].at < ms[j].at
    {
      assert ks[i].at <= ks[|ks| - 1].at;
    }
    forall i | 0 <= i < |t|
      ensures exists j :: 0 <= j < |ms| && ms[j].at == t[i].at
    {
      var j: int := |ms| - 1;
      if i < |s| {
        assert t[i] == s[i];
        j :| 0 <= j < |ks| && ks[j].at == s[i].at;
      }
      assert ms[j].at == t[i].at;
    }
    assert LastMatches(t, ms);
    assert forall i, j :: 0 <= i < j < |ms| ==> ms[i].at < ms[j].at;
    assert forall i :: 0 <= i < |ms| ==> ms[i].values == AtOffset(t, ms[i].at) && ms[i].values != [];
    assert forall i :: 0 <= i < |t| ==> exists j :: 0 <= j < |ms| && ms[j].at == t[i].at;
  }

  lemma MergedValues(s: seq<Spot>, ks: seq<Keyframe>, e: Spot)
    requires Rising(s + [e]) && KeyframesOf(s, ks) && LastMatches(s, ks)
    ensures forall i :: 0 <= i < |Merged(ks, e)| ==>
              Merged(ks, e)[i].values == AtOffset(s + [e], Merged(ks, e)[i].at) && Merged(ks, e)[i].values != []
  {
    var ms := Merged(ks, e);
    assert s != [] ==> (s + [e])[|s| - 1] == s[|s| - 1] && (s + [e])[|s|] == e;
    assert ks != [] ==> ks[|ks| - 1].at <= e.at;
    hide AtOffset, Rising;
    forall i | 0 <= i < |ms|
      ensures ms[i].values == AtOffset(s + [e], ms[i].at) && ms[i].values != []
    {
      var before := AtOffset(s, ms[i].at);
      AtOffsetMore(s, e, ms[i].at);
      if i == |ks| {
        NotThere(s, ks, e);
        NoneBeyond(s, e.at);
      } else {
        assert ks[i].at <= ks[|ks| - 1].at && ms[i].at == ks[i].at;
        assert before + [] == before;
      }
    }
  }

  lemma NotThere(s: seq<Spot>, ks: seq<Keyframe>, e: Spot)
    requires Rising(s + [e]) && LastMatches(s, ks) && (ks == [] || ks[|ks| - 1].at != e.at)
    ensures forall i :: 0 <= i < |s| ==> s[i].at != e.at
  {
    var t := s + [e];
    if s != [] {
      var n := |s| - 1;
      assert t[n] == s[n] && t[|s|] == e && s[n].at <= e.at;
      assert forall i :: 0 <= i < |s| ==> t[i] == s[i] && s[i].at <= s[n].at;
    }
  }

  /** The property-indexed part of `process_keyframes`. */
  method Spread(ps: seq<Property>) returns (processed: seq<Keyframe>)
    ensures KeyframesOf(AllSpots(ps), processed)
  {
    hide Offset, AtOffset, Sorted;
    var spread: seq<Spot> := [];
    for k := 0 to |ps|
      invariant spread == AllSpots(ps[..k])
    {
      var n := |ps[k].values|;
      ghost var before := spread;
      for i := 0 to n
        invariant spread == before + Spots(ps[k])[..i]
      {
        assert Spots(ps[k])[..i + 1] == Spots(ps[k])[..i] + [Spots(ps[k])[i]];
        spread := spread + [Spot(Offset(i, n), ps[k].name, ps[k].values[i])];
      }
      assert Spots(ps[k])[..n] == Spots(ps[k]) && ps[..k + 1][..k] == ps[..k];
    }
    assert ps[..|ps|] == ps;
    var sorted := Sorted(spread);
    SortedIs(spread, 0.0);
    processed := [];
    for k := 0 to |sorted|
      invariant KeyframesOf(sorted[..k], processed) && LastMatches(sorted[..k], processed)
    {
      assert sorted[..k + 1] == sorted[..k] + [sorted[k]];
      MergedKeeps(sorted[..k], processed, sorted[k]);
      processed := Merged(processed, sorted[k]);
    }
    assert sorted[..|sorted|] == sorted;
    Unsorted(spread, sorted, processed);
  }

  lemma Unsorted(spread: seq<Spot>, sorted: seq<Spot>, ks: seq<Keyframe>)
    requires sorted == Sorted(spread) && KeyframesOf(sorted, ks)
    ensures KeyframesOf(spread, ks)
  {
    hide AtOffset, Sorted;
    forall i | 0 <= i < |ks|
      ensures ks[i].values == AtOffset(spread, ks[i].at) && ks[i].values != []
    {
      SortedIs(spread, ks[i].at);
    }
    forall i | 0 <= i < |spread|
      ensures exists j :: 0 <= j < |ks| && ks[j].at == spread[i].at
    {
      SortedIs(spread, 0.0);
      assert spread[i] in sorted;
      var k :| 0 <= k < |sorted| && sorted[k] == spread[i];
      var j :| 0 <= j < |ks| && ks[j].at == sorted[k].at;
      assert ks[j].at == spread[i].at;
    }
    assert forall i, j :: 0 <= i < j < |ks| ==> ks[i].at < ks[j].at;
    assert (forall i :: 0 <= i < |ks| ==> ks[i].values == AtOffset(spread, ks[i].at) && ks[i].values != []);
    assert (forall i :: 0 <= i < |spread| ==> exists j :: 0 <= j < |ks| && ks[j].at == spread[i].at);
  }

  lemma Products(x: real, y: real, m: real)
    requires x >= y && m > 0.0
    ensures x * m >= y * m
  {
    assert (x - y) * m >= 0.0;
  }

  lemma SelfQuotient(m: real)
    requires m > 0.0
    ensures m / m == 1.0 && 0.0 / m == 0.0
  {
  }

  lemma Quotients(a: real, b: real, m: real)
    requires a < b && m > 0.0
    ensures a / m < b / m
  {
    var x, y := a / m, b / m;
    assert x * m == a && y * m == b;
    if x >= y {
      Products(x, y, m);
    }
  }

  /** Values stand evenly: one alone at the end, and of more each as far on as the first is from the second. */
  lemma OffsetEven(i: nat, n: nat)
    requires i < n
    ensures n == 1 ==> Offset(i, n) == 1.0
    ensures n > 1 ==> Offset(i, n) == i as real / (n - 1) as real && Offset(i, n) * (n - 1) as real == i as real
  {
    if n > 1 {
      Divided(i as real, (n - 1) as real);
    }
  }

  lemma Divided(x: real, m: real)
    requires m > 0.0
    ensures x / m * m == x
  {
  }

  /** Offsets lie in the iteration, and rise from value to value. */
  lemma OffsetRises(i: nat, j: nat, n: nat)
    requires i < j < n
    ensures 0.0 <= Offset(i, n) < Offset(j, n) <= 1.0 && Offset(0, n) == 0.0 && Offset(n - 1, n) == 1.0
  {
    var m := (n - 1) as real;
    Quotients(i as real, j as real, m);
    if i > 0 {
      Quotients(0.0, i as real, m);
    }
    if j < n - 1 {
      Quotients(j as real, m, m);
    }
    SelfQuotient(m);
    assert Offset(i, n) == i as real / m && Offset(j, n) == j as real / m;
    assert j == n - 1 ==> j as real == m;
  }

  /** The values a property has among those of a keyframe. */
  function Named(s: seq<(string, string)>, name: string): seq<string>
    decreases |s|
  {
    if s == [] then [] else Named(s[..|s| - 1], name) + if s[|s| - 1].0 == name then [s[|s| - 1].1] else []
  }

  lemma {:induction false} NamedConcat(a: seq<(string, string)>, b: seq<(string, string)>, name: string)
    ensures Named(a + b, name) == Named(a, name) + Named(b, name)
    decreases |b|
  {
    if b == [] {
      assert a + b == a;
    } else {
      assert (a + b)[..|a + b| - 1] == a + b[..|b| - 1];
      NamedConcat(a, b[..|b| - 1], name);
    }
  }

  ghost predicate OnceNamed(ps: seq<Property>) { forall i, j :: 0 <= i < j < |ps| ==> ps[i].name != ps[j].name }

  /** Of the first k values of a property, those at x. */
  function OwnAt(p: Property, k: nat, x: real): seq<string>
    requires k <= |p.values|
  {
    if k == 0 then []
    else OwnAt(p, k - 1, x) + if Offset(k - 1, |p.values|) == x then [p.values[k - 1]] else []
  }

  lemma {:induction false} OwnSpots(p: Property, k: nat, x: real, name: string)
    requires k <= |p.values|
    ensures Named(AtOffset(Spots(p)[..k], x), name) == if p.name == name then OwnAt(p, k, x) else []
    decreases k
  {
    hide *;
    if k == 0 {
      OwnNone(p, x, name);
    } else {
      OwnSpots(p, k - 1, x, name);
      OwnAtLast(p, k, x);
      var s, e := Spots(p)[..k - 1], Spots(p)[k - 1];
      assert Spots(p)[..k] == s + [e];
      AtOffsetMore(s, e, x);
      NamedMore(AtOffset(s, x), e, name);
    }
  }

  lemma OwnNone(p: Property, x: real, name: string)
    ensures Named(AtOffset(Spots(p)[..0], x), name) == [] == OwnAt(p, 0, x)
  {
  }

  lemma OwnAtLast(p: Property, k: nat, x: real)
    requires 0 < k <= |p.values|
    ensures var e := Spots(p)[k - 1];
            OwnAt(p, k, x) == OwnAt(p, k - 1, x) + (if e.at == x then [e.value] else []) && e.name == p.name
  {
    hide Offset;
  }

  lemma NamedMore(s: seq<(string, string)>, e: Spot, name: string)
    ensures Named(s + [(e.name, e.value)], name) == Named(s, name) + if e.name == name then [e.value] else []
    ensures s + [] == s
  {
    assert (s + [(e.name, e.value)])[..|s|] == s;
  }

  lemma AllSpotsLast(ps: seq<Property>)
    requires ps != []
    ensures var n := |ps| - 1; AllSpots(ps) == AllSpots(ps[..n]) + Spots(ps[n]) && Spots(ps[n])[..|ps[n].values|] == Spots(ps[n])
  {
  }

  /** A property's values at x, among all that stands there. */
  lemma {:induction false} NamedAt(ps: seq<Property>, q: nat, x: real)
    requires OnceNamed(ps) && q < |ps|
    ensures Named(AtOffset(AllSpots(ps), x), ps[q].name) == OwnAt(ps[q], |ps[q].values|, x)
    decreases |ps|
  {
    hide OwnAt, Offset, AtOffset, Named, AllSpots, Spots;
    var n, name := |ps| - 1, ps[q].name;
    AllSpotsLast(ps);
    AtOffsetConcat(AllSpots(ps[..n]), Spots(ps[n]), x);
    NamedConcat(AtOffset(AllSpots(ps[..n]), x), AtOffset(Spots(ps[n]), x), name);
    OwnSpots(ps[n], |ps[n].values|, x, name);
    if q == n {
      NotNamed(ps[..n], name, x);
    } else {
      NamedAt(ps[..n], q, x);
    }
  }

  lemma {:induction false} NotNamed(ps: seq<Property>, name: string, x: real)
    requires forall i :: 0 <= i < |ps| ==> ps[i].name != name
    ensures Named(AtOffset(AllSpots(ps), x), name) == []
    decreases |ps|
  {
    hide OwnAt;
    if ps != [] {
      var n := |ps| - 1;
      NotNamed(ps[..n], name, x);
      AtOffsetConcat(AllSpots(ps[..n]), Spots(ps[n]), x);
      NamedConcat(AtOffset(AllSpots(ps[..n]), x), AtOffset(Spots(ps[n]), x), name);
      assert Spots(ps[n])[..|ps[n].values|] == Spots(ps[n]);
      OwnSpots(ps[n], |ps[n].values|, x, name);
    }
  }

  /** Distinct places: at x a property has its value there, or none. */
  lemma {:induction false} OwnOnce(p: Property, k: nat, x: real)
    requires k <= |p.values|
    ensures forall i :: 0 <= i < k && Offset(i, |p.values|) == x ==> OwnAt(p, k, x) == [p.values[i]]
    ensures (forall i :: 0 <= i < k ==> Offset(i, |p.values|) != x) ==> OwnAt(p, k, x) == []
    decreases k
  {
    hide Offset;
    if k > 0 {
      OwnOnce(p, k - 1, x);
      if Offset(k - 1, |p.values|) == x {
        forall i | 0 <= i < k - 1
          ensures Offset(i, |p.values|) != x
        {
          OffsetRises(i, k - 1, |p.values|);
        }
      }
    }
  }

  /**
   Spreading conserves: in the keyframes, at offsets that strictly rise, value i of n of each property is at i / (n - 1), or
   at 1 if it is alone, and it is the one value its property has there; and a property has no value at any other offset.
   */
  lemma Conserved(ps: seq<Property>, ks: seq<Keyframe>, q: nat, i: nat)
    requires OnceNamed(ps) && KeyframesOf(AllSpots(ps), ks) && q < |ps| && i < |ps[q].values|
    ensures forall a, b :: 0 <= a < b < |ks| ==> ks[a].at < ks[b].at
    ensures var n := |ps[q].values|;
            var at := if n == 1 then 1.0 else i as real / (n - 1) as real;
            && (exists j :: 0 <= j < |ks| && ks[j].at == at)
            && (forall j :: 0 <= j < |ks| && ks[j].at == at ==> Named(ks[j].values, ps[q].name) == [ps[q].values[i]])
    ensures forall j :: 0 <= j < |ks| && (forall k :: 0 <= k < |ps[q].values| ==> Offset(k, |ps[q].values|) != ks[j].at) ==>
              Named(ks[j].values, ps[q].name) == []
  {
    OffsetEven(i, |ps[q].values|);
    hide Offset, AtOffset, Named, AllSpots, OwnAt;
    var p := ps[q];
    forall j | 0 <= j < |ks|
      ensures Named(ks[j].values, p.name) == OwnAt(p, |p.values|, ks[j].at)
    {
      NamedAt(ps, q, ks[j].at);
    }
    forall j | 0 <= j < |ks|
      ensures ks[j].at == Offset(i, |p.values|) ==> OwnAt(p, |p.values|, ks[j].at) == [p.values[i]]
      ensures (forall k :: 0 <= k < |p.values| ==> Offset(k, |p.values|) != ks[j].at) ==> OwnAt(p, |p.values|, ks[j].at) == []
    {
      OwnOnce(p, |p.values|, ks[j].at);
    }
    SpotThere(ps, q, i);
  }

  lemma {:induction false} SpotThere(ps: seq<Property>, q: nat, i: nat)
    requires q < |ps| && i < |ps[q].values|
    ensures exists k :: 0 <= k < |AllSpots(ps)| && AllSpots(ps)[k].at == Offset(i, |ps[q].values|)
    decreases |ps|
  {
    hide Offset;
    var n := |ps| - 1;
    var s := AllSpots(ps[..n]);
    if q == n {
      assert AllSpots(ps)[|s| + i] == Spots(ps[n])[i];
    } else {
      SpotThere(ps[..n], q, i);
      var k :| 0 <= k < |s| && s[k].at == Offset(i, |ps[q].values|);
      assert AllSpots(ps)[k] == s[k];
    }
  }

  // At one offset the properties keep their order.

  ghost predicate IsName(ps: seq<Property>, k: nat, name: string) { k < |ps| && ps[k].name == name }

  /** Each of two is of a property, and the first of an earlier one. */
  ghost predicate Earlier(ps: seq<Property>, a: string, b: string) { exists p: nat, q: nat :: p < q && IsName(ps, p, a) && IsName(ps, q, b) }

  lemma {:induction false} OwnFew(p: Property, k: nat, x: real)
    requires k <= |p.values|
    ensures var s := AtOffset(Spots(p)[..k], x);
            && |s| <= 1 && (s != [] ==> s[0].0 == p.name && exists i :: 0 <= i < k && Offset(i, |p.values|) == x)
    decreases k
  {
    hide Offset;
    if k > 0 {
      OwnFew(p, k - 1, x);
      assert Spots(p)[..k] == Spots(p)[..k - 1] + [Spots(p)[k - 1]];
      AtOffsetMore(Spots(p)[..k - 1], Spots(p)[k - 1], x);
      forall i | 0 <= i < k - 1
        ensures Offset(i, |p.values|) != Offset(k - 1, |p.values|)
      {
        OffsetRises(i, k - 1, |p.values|);
      }
    }
  }

  /** What the last property adds at an offset. */
  lemma LastAt(ps: seq<Property>, x: real)
    requires ps != []
    ensures var n := |ps| - 1;
            var last := AtOffset(Spots(ps[n]), x);
            && AtOffset(AllSpots(ps), x) == AtOffset(AllSpots(ps[..n]), x) + last
            && |last| <= 1 && (last != [] ==> last[0].0 == ps[n].name)
  {
    var n := |ps| - 1;
    AllSpotsLast(ps);
    AtOffsetConcat(AllSpots(ps[..n]), Spots(ps[n]), x);
    OwnFew(ps[n], |ps[n].values|, x);
    hide AtOffset, AllSpots, Spots;
  }

  lemma IsNameMore(ps: seq<Property>, k: nat, name: string)
    requires ps != [] && IsName(ps[..|ps| - 1], k, name)
    ensures IsName(ps, k, name)
  {
  }

  lemma {:induction false} FromProperty(ps: seq<Property>, x: real, i: nat) returns (k: nat)
    requires i < |AtOffset(AllSpots(ps), x)|
    ensures IsName(ps, k, AtOffset(AllSpots(ps), x)[i].0)
    decreases |ps|
  {
    assert ps != [];
    LastAt(ps, x);
    hide AtOffset, AllSpots, Spots;
    k := |ps| - 1;
    var first := AtOffset(AllSpots(ps[..k]), x);
    if i < |first| {
      k := FromProperty(ps[..k], x, i);
      hide IsName;
      IsNameMore(ps, k, first[i].0);
    }
  }

  lemma EarlierMore(ps: seq<Property>, a: string, b: string)
    requires ps != [] && Earlier(ps[..|ps| - 1], a, b)
    ensures Earlier(ps, a, b)
  {
    var p: nat, q: nat :| p < q && IsName(ps[..|ps| - 1], p, a) && IsName(ps[..|ps| - 1], q, b);
    IsNameMore(ps, p, a);
    IsNameMore(ps, q, b);
  }

  lemma EarlierLast(ps: seq<Property>, k: nat, a: string)
    requires ps != [] && IsName(ps[..|ps| - 1], k, a)
    ensures Earlier(ps, a, ps[|ps| - 1].name)
  {
    IsNameMore(ps, k, a);
    assert IsName(ps, |ps| - 1, ps[|ps| - 1].name);
  }

  /** What stands at one offset stands in the order of the properties. */
  lemma {:induction false} InOrderAt(ps: seq<Property>, x: real, i: nat, j: nat)
    requires i < j < |AtOffset(AllSpots(ps), x)|
    ensures var s := AtOffset(AllSpots(ps), x); Earlier(ps, s[i].0, s[j].0)
    decreases |ps|
  {
    assert ps != [];
    LastAt(ps, x);
    hide *;
    var n := |ps| - 1;
    var first := AtOffset(AllSpots(ps[..n]), x);
    if j < |first| {
      InOrderAt(ps[..n], x, i, j);
      EarlierMore(ps, first[i].0, first[j].0);
    } else {
      var k := FromProperty(ps[..n], x, i);
      EarlierLast(ps, k, first[i].0);
    }
  }

  // ---- What goes with the merged keyframes -----------------------------------------------------

  datatype Composite = Replace | Add | Accumulate

  datatype Whole = Whole(frame: Keyframe, offset: Option<real>, easing: string, composite: Option<Composite>)

  /** The keyframes, or the error thrown. */
  datatype Outcome = Frames(frames: seq<Whole>) | OffsetsFall | OffsetOutside | BadEasing(text: string)

  /** Offsets go to the first keyframes. */
  function OffsetOf(offsets: seq<Option<real>>, i: nat): Option<real> { if i < |offsets| then offsets[i] else None }

  function Easings(given: seq<string>): (es: seq<string>)
    ensures es != []
  {
    if given == [] then ["linear"] else given
  }

  /** Easings and composites go round. */
  function Completed(k: Keyframe, i: nat, offsets: seq<Option<real>>, easings: seq<string>, composites: seq<Option<Composite>>): Whole {
    var es := Easings(easings);
    Whole(k, OffsetOf(offsets, i), es[i % |es|], if composites == [] then None else composites[i % |composites|])
  }

  /** Of two offsets given, the later is the smaller. */
  ghost predicate Falls(offsets: seq<Option<real>>, n: nat) {
    exists i: nat, j: nat :: i < j < n && j < |offsets| && offsets[i].Some? && offsets[j].Some? && offsets[j].value < offsets[i].value
  }

  ghost predicate Outside(offsets: seq<Option<real>>, n: nat) {
    exists i: nat :: i < n && i < |offsets| && offsets[i].Some? && !(0.0 <= offsets[i].value <= 1.0)
  }

  /** The first of the easings that is no timing function. */
  ghost predicate FirstBad(es: seq<string>, parses: string -> bool, k: nat) {
    k < |es| && !parses(es[k]) && forall i :: 0 <= i < k ==> parses(es[i])
  }

  /**
   The rest of `process_keyframes`: offsets, easings and composites handed out, and their errors. Every easing given is
   checked, also one no keyframe took, and the one complained of is the first that is wrong.
   */
  method Complete(processed: seq<Keyframe>, offsets: seq<Option<real>>, easings: seq<string>, composites: seq<Option<Composite>>,
                  parses: string -> bool) returns (r: Outcome)
    ensures r.OffsetsFall? <==> Falls(offsets, |processed|)
    ensures r.OffsetOutside? <==> !Falls(offsets, |processed|) && Outside(offsets, |processed|)
    ensures r.BadEasing? ==> exists k: nat :: FirstBad(Easings(easings), parses, k) && r.text == Easings(easings)[k]
    ensures r.Frames? ==> forall i :: 0 <= i < |Easings(easings)| ==> parses(Easings(easings)[i])
    ensures r.Frames? ==> |r.frames| == |processed| && forall i :: 0 <= i < |processed| ==>
                            && r.frames[i].frame == processed[i]
                            && r.frames[i].offset == (if i < |offsets| then offsets[i] else None)
                            && r.frames[i].easing == (if easings == [] then "linear" else easings[i % |easings|])
                            && r.frames[i].composite == (if composites == [] then None else composites[i % |composites|])
  {
    hide Falls, Outside, FirstBad;
    var frames := [];
    for i := 0 to |processed|
      invariant |frames| == i && forall j :: 0 <= j < i ==> frames[j] == Completed(processed[j], j, offsets, easings, composites)
    {
      frames := frames + [Completed(processed[i], i, offsets, easings, composites)];
    }
    var fall, outside := CheckOffsets(offsets, |processed|);
    if fall {
      return OffsetsFall;
    }
    if outside {
      return OffsetOutside;
    }
    var bad := CheckEasings(Easings(easings), |processed|, parses);
    r := if bad.Some? then BadEasing(bad.value) else Frames(frames);
  }

  /** The easings the keyframes took, then those left over. */
  method CheckEasings(es: seq<string>, n: nat, parses: string -> bool) returns (bad: Option<string>)
    requires es != []
    ensures bad.Some? ==> exists k: nat :: FirstBad(es, parses, k) && bad.value == es[k]
    ensures bad == None ==> forall i :: 0 <= i < |es| ==> parses(es[i])
  {
    for i := 0 to n
      invariant forall j :: 0 <= j < i && j < |es| ==> parses(es[j])
    {
      Round(i, |es|);
      var k := i % |es|;
      if !parses(es[k]) {
        assert FirstBad(es, parses, k);
        return Some(es[k]);
      }
    }
    var i := n;
    while i < |es|
      invariant forall j :: 0 <= j < i && j < |es| ==> parses(es[j])
    {
      if !parses(es[i]) {
        assert FirstBad(es, parses, i);
        return Some(es[i]);
      }
      i := i + 1;
    }
    bad := None;
  }

  lemma Round(i: nat, n: nat)
    requires n > 0
    ensures 0 <= i % n < n && (i < n ==> i % n == i)
  {
  }

  /** Each offset against the one given before it, then each against the bounds. */
  method CheckOffsets(offsets: seq<Option<real>>, n: nat) returns (fall: bool, outside: bool)
    ensures fall <==> Falls(offsets, n)
    ensures !fall ==> (outside <==> Outside(offsets, n))
  {
    var previous: Option<real> := None;
    outside := false;
    for i := 0 to n
      invariant !Falls(offsets, i)
      invariant forall j: nat :: j < i && j < |offsets| && offsets[j].Some? ==> previous.Some? && offsets[j].value <= previous.value
      invariant previous.Some? ==> exists j: nat :: j < i && j < |offsets| && offsets[j] == previous
    {
      var offset := OffsetOf(offsets, i);
      if offset.Some? {
        if previous.Some? && offset.value < previous.value {
          return true, false;
        }
        previous := offset;
      }
    }
    fall := false;
    for i := 0 to n
      invariant !Outside(offsets, i)
    {
      var offset := OffsetOf(offsets, i);
      if offset.Some? && (offset.value < 0.0 || offset.value > 1.0) {
        return false, true;
      }
    }
  }
}
