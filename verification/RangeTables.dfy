/**
 The tables of ranges tools/gen-unicode.cpp packs: what a table answers for a code point, and that packing, merging and
 leaving the default out change no answer.
 */
module RangeTables {
  import opened Wrappers
  import opened Pairs

  /** The code points from `first` to `last` with what the table says of them. */
  datatype Range<V> = Range(first: nat, last: nat, value: V)

  predicate Contains<V>(r: Range<V>, c: nat) { r.first <= c <= r.last }

  /** What a table answers: the value of the first entry that holds c. */
  function Lookup<V>(t: seq<Range<V>>, c: nat): Option<V>
    decreases |t|
  {
    if t == [] then None else if Contains(t[0], c) then Some(t[0].value) else Lookup(t[1..], c)
  }

  /** Sorted and disjoint, no entry empty; what a binary search needs. */
  ghost predicate Sorted<V>(t: seq<Range<V>>) {
    && (forall i :: 0 <= i < |t| ==> t[i].first <= t[i].last)
    && (forall i, j :: 0 <= i < j < |t| ==> t[i].last < t[j].first)
  }

  lemma {:induction false} LookupConcat<V>(a: seq<Range<V>>, b: seq<Range<V>>, c: nat)
    ensures Lookup(a + b, c) == if Lookup(a, c).Some? then Lookup(a, c) else Lookup(b, c)
    decreases |a|
  {
    if a == [] {
      assert a + b == b;
    } else {
      assert (a + b)[1..] == a[1..] + b;
      LookupConcat(a[1..], b, c);
    }
  }

  lemma {:induction false} LookupBeyond<V>(t: seq<Range<V>>, c: nat)
    requires forall i :: 0 <= i < |t| ==> t[i].last < c
    ensures Lookup(t, c) == None
    decreases |t|
  {
    if t != [] {
      LookupBeyond(t[1..], c);
    }
  }

  lemma LookupOne<V>(r: Range<V>, c: nat)
    ensures Lookup([r], c) == if Contains(r, c) then Some(r.value) else None
  {
    assert [r][1..] == [];
    assert Lookup<V>([], c) == None;
  }

  /** In a sorted table what holds c is unique: any entry that does gives the answer. */
  lemma {:induction false} LookupIs<V>(t: seq<Range<V>>, c: nat, i: nat)
    requires Sorted(t) && i < |t| && Contains(t[i], c)
    ensures Lookup(t, c) == Some(t[i].value)
    decreases |t|
  {
    if i > 0 {
      LookupIs(t[1..], c, i - 1);
    }
  }

  /** And what is answered is in some entry. */
  lemma {:induction false} LookupFinds<V>(t: seq<Range<V>>, c: nat) returns (i: nat)
    requires Lookup(t, c).Some?
    ensures i < |t| && Contains(t[i], c) && Lookup(t, c) == Some(t[i].value)
    decreases |t|
  {
    if Contains(t[0], c) {
      i := 0;
    } else {
      i := LookupFinds(t[1..], c);
      i := i + 1;
    }
  }

  /** `range_of` and its like in src/core: the last entry that begins at c or before is the only one that can hold c. */
  method Search<V>(t: seq<Range<V>>, c: nat) returns (value: Option<V>)
    requires Sorted(t)
    ensures value == Lookup(t, c)
  {
    hide Lookup;
    var low, high := 0, |t|;
    while low < high
      invariant 0 <= low <= high <= |t|
      invariant forall i :: 0 <= i < low ==> t[i].first <= c
      invariant forall i :: high <= i < |t| ==> c < t[i].first
    {
      var mid := (low + high) / 2;
      if c < t[mid].first {
        high := mid;
      } else {
        low := mid + 1;
      }
    }
    value := if low > 0 && c <= t[low - 1].last then Some(t[low - 1].value) else None;
    if value.Some? {
      LookupIs(t, c, low - 1);
    } else if Lookup(t, c).Some? {
      var i := LookupFinds(t, c);
      assert false;
    }
  }

  // One entry more, joined to the last where they touch and agree.

  predicate Joins<V(==)>(t: seq<Range<V>>, r: Range<V>) {
    t != [] && t[|t| - 1].last + 1 == r.first && t[|t| - 1].value == r.value
  }

  function Joined<V(==)>(t: seq<Range<V>>, r: Range<V>): seq<Range<V>> {
    if Joins(t, r) then t[|t| - 1 := t[|t| - 1].(last := r.last)] else t + [r]
  }

  /** No two entries that touch agree. */
  ghost predicate Tight<V>(t: seq<Range<V>>) {
    forall i :: 0 < i < |t| ==> !(t[i - 1].last + 1 == t[i].first && t[i - 1].value == t[i].value)
  }

  lemma JoinedKeeps<V>(t: seq<Range<V>>, r: Range<V>)
    requires Sorted(t) && Tight(t) && r.first <= r.last && (t != [] ==> t[|t| - 1].last < r.first)
    ensures Sorted(Joined(t, r)) && Tight(Joined(t, r)) && Joined(t, r) != [] && Joined(t, r)[|Joined(t, r)| - 1].last == r.last
  {
    JoinedSorted(t, r);
    JoinedTight(t, r);
    hide Sorted, Tight;
  }

  lemma JoinedSorted<V>(t: seq<Range<V>>, r: Range<V>)
    requires Sorted(t) && r.first <= r.last && (t != [] ==> t[|t| - 1].last < r.first)
    ensures Sorted(Joined(t, r))
  {
    var u, n: int := Joined(t, r), |t| - 1;
    assert t != [] ==> t[n].first <= t[n].last;
    assert forall i :: 0 <= i < n ==> t[i].last < t[n].first;
    assert forall i :: 0 <= i < n ==> u[i] == t[i];
  }

  lemma JoinedTight<V>(t: seq<Range<V>>, r: Range<V>)
    requires Tight(t)
    ensures Tight(Joined(t, r))
  {
  }

  lemma JoinedAnswers<V>(t: seq<Range<V>>, r: Range<V>, c: nat)
    requires Sorted(t) && r.first <= r.last && (t != [] ==> t[|t| - 1].last < r.first)
    ensures Lookup(Joined(t, r), c) == if Contains(r, c) then Some(r.value) else Lookup(t, c)
  {
    assert t != [] ==> t[|t| - 1].first <= t[|t| - 1].last;
    hide Lookup, Sorted;
    if t == [] {
      assert Joined(t, r) == [r];
      LookupOne(r, c);
      LookupConcat(t, [r], c);
      assert t + [r] == [r];
    } else {
      var n := |t| - 1;
      var u := Range(t[n].first, r.last, r.value);
      assert t == t[..n] + [t[n]];
      LookupConcat(t[..n], [t[n]], c);
      LookupOne(t[n], c);
      LookupConcat(t, [r], c);
      LookupOne(r, c);
      LookupConcat(t[..n], [u], c);
      LookupOne(u, c);
      if c >= t[n].first {
        LookupBeyond(t[..n], c) by { Before(t, n, c); }
      }
      if c >= r.first {
        LookupBeyond(t, c) by { BeforeAll(t, r, c); }
      }
      if Joins(t, r) {
        assert Joined(t, r) == t[..n] + [u];
      }
    }
  }

  lemma Before<V>(t: seq<Range<V>>, n: nat, c: nat)
    requires Sorted(t) && n < |t| && c >= t[n].first
    ensures forall i :: 0 <= i < |t[..n]| ==> t[..n][i].last < c
  {
  }

  lemma BeforeAll<V>(t: seq<Range<V>>, r: Range<V>, c: nat)
    requires Sorted(t) && t != [] && t[|t| - 1].last < r.first <= c
    ensures forall i :: 0 <= i < |t| ==> t[i].last < c
  {
  }

  /** Entry i of a tight table begins in entry i or a later one of any table with its answers. */
  lemma {:induction false} NotBefore<V>(t: seq<Range<V>>, u: seq<Range<V>>, i: nat) returns (k: nat)
    requires Sorted(t) && Tight(t) && Sorted(u) && (forall c: nat :: Lookup(t, c) == Lookup(u, c)) && i < |t|
    ensures i <= k < |u| && Contains(u[k], t[i].first)
  {
    hide Lookup;
    LookupIs(t, t[i].first, i);
    k := LookupFinds(u, t[i].first);
    if i > 0 {
      var j := NotBefore(t, u, i - 1);
      if k <= j {
        var c := t[i - 1].last + 1;
        LookupIs(u, c, j);
        LookupIs(t, t[i - 1].first, i - 1);
        LookupIs(u, t[i - 1].first, j);
        var m := LookupFinds(t, c);
        assert false;
      }
    }
  }

  /** No sorted table with the same answers has fewer entries than a tight one. */
  lemma ShortestTable<V>(t: seq<Range<V>>, u: seq<Range<V>>)
    requires Sorted(t) && Tight(t) && Sorted(u) && forall c: nat :: Lookup(t, c) == Lookup(u, c)
    ensures |t| <= |u|
  {
    if t != [] {
      var k := NotBefore(t, u, |t| - 1);
    }
  }

  /** The runs of a value for each code point, the default left out: the tables of line breaks, bidi classes and word breaks. */
  method Runs<V(==)>(values: seq<V>, omitted: V) returns (t: seq<Range<V>>)
    ensures Sorted(t) && Tight(t)
    ensures forall c :: 0 <= c < |values| ==> Lookup(t, c) == if values[c] == omitted then None else Some(values[c])
    ensures forall c :: c >= |values| ==> Lookup(t, c) == None
  {
    hide Lookup, Sorted, Tight, Joined;
    t := [];
    NoEntry<V>();
    for k := 0 to |values|
      invariant Sorted(t) && Tight(t) && (t != [] ==> t[|t| - 1].last < k)
      invariant forall c :: 0 <= c < k ==> Lookup(t, c) == if values[c] == omitted then None else Some(values[c])
      invariant forall c :: c >= k ==> Lookup(t, c) == None
    {
      if values[k] == omitted {
        continue;
      }
      var r := Range(k, k, values[k]);
      forall c: nat
        ensures Lookup(Joined(t, r), c) == if Contains(r, c) then Some(r.value) else Lookup(t, c)
      {
        JoinedAnswers(t, r, c);
      }
      JoinedKeeps(t, r);
      t := Joined(t, r);
    }
  }

  lemma NoEntry<V>()
    ensures Sorted<V>([]) && Tight<V>([]) && forall c :: Lookup<V>([], c) == None
  {
  }

  /** Adjacent entries that agree joined; as for IDNA and the combining classes. No answer changes. */
  method MergeAgreeing<V(==)>(entries: seq<Range<V>>) returns (t: seq<Range<V>>)
    requires Sorted(entries)
    ensures Sorted(t) && Tight(t)
    ensures forall c: nat :: Lookup(t, c) == Lookup(entries, c)
  {
    hide Lookup, Tight, Joined;
    t := [];
    NoEntry<V>();
    assert entries[..0] == [];
    for k := 0 to |entries|
      invariant Sorted(t) && Tight(t) && (k == 0 ==> t == []) && (k > 0 ==> t != [] && t[|t| - 1].last == entries[k - 1].last)
      invariant forall c: nat :: Lookup(t, c) == Lookup(entries[..k], c)
    {
      var r := entries[k];
      forall c: nat
        ensures Lookup(Joined(t, r), c) == Lookup(entries[..k + 1], c)
      {
        JoinedAnswers(t, r, c);
        assert entries[..k + 1] == entries[..k] + [r];
        LookupConcat(entries[..k], [r], c);
        LookupOne(r, c);
        if Contains(r, c) {
          LookupBeyond(entries[..k], c);
        }
      }
      JoinedKeeps(t, r);
      t := Joined(t, r);
    }
    assert entries[..|entries|] == entries;
  }

  // Sets of code points as ranges.

  predicate Within(r: Pair, c: nat) { r.first <= c <= r.second }

  ghost predicate Covered(t: seq<Pair>, c: nat) { exists i :: 0 <= i < |t| && Within(t[i], c) }

  /** The canonical form: sorted, and no two ranges touch. */
  ghost predicate Canonical(t: seq<Pair>) {
    && (forall i :: 0 <= i < |t| ==> t[i].first <= t[i].second)
    && (forall i, j :: 0 <= i < j < |t| ==> t[i].second + 1 < t[j].first)
  }

  lemma SameCover(s: seq<Pair>, t: seq<Pair>, c: nat)
    requires multiset(s) == multiset(t) && Covered(s, c)
    ensures Covered(t, c)
  {
    var i :| 0 <= i < |s| && Within(s[i], c);
    assert s[i] in multiset(s) && s[i] in t;
    var j :| 0 <= j < |t| && t[j] == s[i];
  }

  function Max(a: nat, b: nat): nat { if a >= b then a else b }

  /** One range taken in: it grows the last, where it touches or overlaps it, or is the next. */
  function Taken(out: seq<Pair>, r: Pair): seq<Pair> {
    var n: int := |out| - 1;
    if out != [] && out[n].second + 1 >= r.first then out[n := out[n].(second := Max(out[n].second, r.second))] else out + [r]
  }

  lemma TakenCovers(out: seq<Pair>, r: Pair, c: nat)
    requires out != [] ==> out[|out| - 1].first <= r.first
    ensures Covered(Taken(out, r), c) <==> Covered(out, c) || Within(r, c)
  {
    var n: int := |out| - 1;
    var t := Taken(out, r);
    if out != [] && out[n].second + 1 >= r.first {
      assert forall i :: 0 <= i < n ==> t[i] == out[i];
      if Covered(out, c) {
        var i :| 0 <= i < |out| && Within(out[i], c);
        assert Within(t[i], c);
      }
      if Within(r, c) {
        assert Within(t[n], c);
      }
      if Covered(t, c) {
        var i :| 0 <= i < |t| && Within(t[i], c);
        assert Within(out[i], c) || Within(r, c);
      }
    } else {
      assert t[|out|] == r;
      if Covered(out, c) {
        var i :| 0 <= i < |out| && Within(out[i], c);
        assert Within(t[i], c);
      }
      if Within(r, c) {
        assert Within(t[|out|], c);
      }
    }
  }

  lemma TakenCanonical(out: seq<Pair>, r: Pair)
    requires Canonical(out) && r.first <= r.second && (out != [] ==> out[|out| - 1].first <= r.first)
    ensures Canonical(Taken(out, r)) && Taken(out, r) != [] && Taken(out, r)[|Taken(out, r)| - 1].first <= r.first
  {
  }

  /** `merged`: the same code points, and where no range given is empty, in canonical form. */
  method Merged(ranges: seq<Pair>) returns (out: seq<Pair>)
    ensures forall c: nat :: Covered(out, c) <==> Covered(ranges, c)
    ensures (forall i :: 0 <= i < |ranges| ==> ranges[i].first <= ranges[i].second) ==> Canonical(out)
  {
    hide Covered, Canonical, Taken, Sort, Within;
    var sorted := Sort(ranges);
    SortIs(ranges);
    ghost var full := forall i :: 0 <= i < |ranges| ==> ranges[i].first <= ranges[i].second;
    SortFull(ranges, full);
    out := [];
    NoPair(sorted);
    for k := 0 to |sorted|
      invariant k == 0 ==> out == []
      invariant k > 0 ==> out != [] && out[|out| - 1].first <= sorted[k - 1].first
      invariant forall c: nat :: Covered(out, c) <==> Covered(sorted[..k], c)
      invariant full ==> Canonical(out)
    {
      var r := sorted[k];
      forall c: nat
        ensures Covered(Taken(out, r), c) <==> Covered(sorted[..k + 1], c)
      {
        TakenCovers(out, r, c);
        CoveredMore(sorted, k, c);
      }
      if full {
        TakenCanonical(out, r);
      }
      TakenLast(out, r);
      out := Taken(out, r);
    }
    assert sorted[..|sorted|] == sorted;
    forall c: nat
      ensures Covered(sorted, c) <==> Covered(ranges, c)
    {
      if Covered(sorted, c) {
        SameCover(sorted, ranges, c);
      }
      if Covered(ranges, c) {
        SameCover(ranges, sorted, c);
      }
    }
  }

  lemma SortFull(ranges: seq<Pair>, full: bool)
    requires full ==> forall i :: 0 <= i < |ranges| ==> ranges[i].first <= ranges[i].second
    ensures full ==> forall i :: 0 <= i < |Sort(ranges)| ==> Sort(ranges)[i].first <= Sort(ranges)[i].second
  {
    SortIs(ranges);
    forall i | full && 0 <= i < |Sort(ranges)|
      ensures Sort(ranges)[i].first <= Sort(ranges)[i].second
    {
      assert Sort(ranges)[i] in multiset(ranges);
      assert Sort(ranges)[i] in ranges;
    }
  }

  lemma NoPair(sorted: seq<Pair>)
    ensures sorted[..0] == [] && Canonical([]) && forall c: nat :: !Covered([], c)
  {
  }

  lemma TakenLast(out: seq<Pair>, r: Pair)
    requires out != [] ==> out[|out| - 1].first <= r.first
    ensures Taken(out, r) != [] && Taken(out, r)[|Taken(out, r)| - 1].first <= r.first
  {
  }

  lemma CoveredMore(s: seq<Pair>, k: nat, c: nat)
    requires k < |s|
    ensures Covered(s[..k + 1], c) <==> Covered(s[..k], c) || Within(s[k], c)
  {
    var t := s[..k + 1];
    if Covered(s[..k], c) {
      var i :| 0 <= i < k && Within(s[..k][i], c);
      assert Within(t[i], c);
    }
    if Within(s[k], c) {
      assert Within(t[k], c);
    }
    if Covered(t, c) {
      var i :| 0 <= i < |t| && Within(t[i], c);
      assert i < k ==> Within(s[..k][i], c);
    }
  }

  /** There is one canonical form: two that cover the same code points are the same. */
  lemma {:induction false} CanonicalUnique(s: seq<Pair>, t: seq<Pair>)
    requires Canonical(s) && Canonical(t) && forall c: nat :: Covered(s, c) <==> Covered(t, c)
    ensures s == t
    decreases |s|
  {
    if t != [] {
      FirstIs(t, s);
    }
    if s != [] {
      FirstIs(s, t);
      var a, b := s[0], t[0];
      LastIs(s, t);
      LastIs(t, s);
      assert a == b;
      forall c: nat
        ensures Covered(s[1..], c) <==> Covered(t[1..], c)
      {
        RestCovers(s, c);
        RestCovers(t, c);
      }
      CanonicalUnique(s[1..], t[1..]);
      assert s == [a] + s[1..] && t == [b] + t[1..];
    }
  }

  lemma FirstIs(s: seq<Pair>, t: seq<Pair>)
    requires Canonical(s) && Canonical(t) && s != [] && forall c: nat :: Covered(s, c) <==> Covered(t, c)
    ensures t != [] && t[0].first <= s[0].first
  {
    assert Within(s[0], s[0].first);
    assert Covered(t, s[0].first);
    var i :| 0 <= i < |t| && Within(t[i], s[0].first);
  }

  lemma LastIs(s: seq<Pair>, t: seq<Pair>)
    requires Canonical(s) && Canonical(t) && s != [] && t != [] && s[0].first == t[0].first
    requires forall c: nat :: Covered(s, c) <==> Covered(t, c)
    ensures s[0].second <= t[0].second
  {
    FirstRange(s, t[0].second + 1);
    FirstRange(t, t[0].second + 1);
  }

  lemma FirstRange(s: seq<Pair>, c: nat)
    requires Canonical(s) && s != []
    ensures s[0].first <= c <= s[0].second ==> Covered(s, c)
    ensures c == s[0].second + 1 ==> !Covered(s, c)
  {
    if s[0].first <= c <= s[0].second {
      assert Within(s[0], c);
    }
  }

  /** A point is in the rest if it is covered and past the first range. */
  lemma RestCovers(s: seq<Pair>, c: nat)
    requires Canonical(s) && s != []
    ensures Covered(s[1..], c) <==> Covered(s, c) && c > s[0].second
  {
    if Covered(s[1..], c) {
      var i :| 0 <= i < |s[1..]| && Within(s[1..][i], c);
      assert Within(s[i + 1], c);
    }
    if Covered(s, c) && c > s[0].second {
      var i :| 0 <= i < |s| && Within(s[i], c);
      assert Within(s[1..][i - 1], c);
    }
  }

  /** `in_ranges`: the last range that begins at c or before, found by bisection, is asked. */
  method InRanges(ranges: seq<Pair>, c: nat) returns (found: bool)
    requires Canonical(ranges)
    ensures found <==> Covered(ranges, c)
  {
    var low, high := 0, |ranges|;
    while low < high
      invariant 0 <= low <= high <= |ranges|
      invariant forall i :: 0 <= i < low ==> ranges[i].first <= c
      invariant forall i :: high <= i < |ranges| ==> c < ranges[i].first
    {
      var mid := (low + high) / 2;
      if c < ranges[mid].first {
        high := mid;
      } else {
        low := mid + 1;
      }
    }
    if low == 0 {
      return false;
    }
    found := ranges[low - 1].first <= c <= ranges[low - 1].second;
    assert found ==> Within(ranges[low - 1], c);
  }

  // A property file read over its defaults.

  /** What a list of lines names a code point: the last that holds it; lines that end past the code points are passed over. */
  function Latest<N>(lines: seq<Range<N>>, limit: nat, c: nat): Option<N>
    decreases |lines|
  {
    if lines == [] then None
    else
      var n := |lines| - 1;
      if lines[n].last < limit && Contains(lines[n], c) then Some(lines[n].value) else Latest(lines[..n], limit, c)
  }

  /** It is the name of a line that holds c and ends in time, with no such line after it; there is none only if none does. */
  lemma {:induction false} LatestIs<N>(lines: seq<Range<N>>, limit: nat, c: nat)
    ensures match Latest(lines, limit, c)
            case None => forall i :: 0 <= i < |lines| ==> !(lines[i].first <= c <= lines[i].last < limit)
            case Some(name) =>
              exists i :: 0 <= i < |lines| && lines[i].first <= c <= lines[i].last < limit && lines[i].value == name
                          && forall j :: i < j < |lines| ==> !(lines[j].first <= c <= lines[j].last < limit)
    decreases |lines|
  {
    if lines != [] {
      var n := |lines| - 1;
      LatestIs(lines[..n], limit, c);
      if Latest(lines, limit, c).Some? && !(lines[n].first <= c <= lines[n].last < limit) {
        var i :| 0 <= i < n && lines[..n][i].first <= c <= lines[..n][i].last < limit && lines[..n][i].value == Latest(lines, limit, c).value
                 && forall j :: i < j < n ==> !(lines[..n][j].first <= c <= lines[..n][j].last < limit);
        forall j | i < j < |lines|
          ensures !(lines[j].first <= c <= lines[j].last < limit)
        {
          assert j < n ==> lines[..n][j] == lines[j];
        }
        assert lines[i] == lines[..n][i];
      }
    }
  }

  /** What the name found, if any, is for c. */
  function Resolved<N, V>(name: Option<N>, resolve: (N, nat) -> V, c: nat, otherwise: V): V {
    if name.Some? then resolve(name.value, c) else otherwise
  }

  /** `load_property`: what is listed stands over what is said to be missing, and that over the first value. */
  method LoadProperty<N, V>(missing: seq<Range<N>>, listed: seq<Range<N>>, limit: nat, resolve: (N, nat) -> V, initial: V)
    returns (values: array<V>)
    ensures values.Length == limit
    ensures forall c :: 0 <= c < limit ==>
              match Latest(listed, limit, c)
              case Some(name) => values[c] == resolve(name, c)
              case None =>
                match Latest(missing, limit, c)
                case Some(name) => values[c] == resolve(name, c)
                case None => values[c] == initial
  {
    values := new V[limit](_ => initial);
    LoadLines(missing, resolve, values);
    LoadLines(listed, resolve, values);
  }

  method LoadLines<N, V>(lines: seq<Range<N>>, resolve: (N, nat) -> V, values: array<V>)
    modifies values
    ensures forall c :: 0 <= c < values.Length ==>
              values[c] == Resolved(Latest(lines, values.Length, c), resolve, c, old(values[c]))
  {
    var limit := values.Length;
    for k := 0 to |lines|
      invariant forall c :: 0 <= c < limit ==> values[c] == Resolved(Latest(lines[..k], limit, c), resolve, c, old(values[c]))
    {
      var r := lines[k];
      assert lines[..k + 1][..k] == lines[..k];
      if r.last < limit {
        ghost var was := values[..];
        var c := r.first;
        while c <= r.last
          invariant r.first <= c <= Max(r.first, r.last + 1)
          invariant forall d :: 0 <= d < limit ==> values[d] == if r.first <= d < c then resolve(r.value, d) else was[d]
        {
          values[c] := resolve(r.value, c);
          c := c + 1;
        }
      }
    }
    assert lines[..|lines|] == lines;
  }
}
