/**
 Symbol instances as strips of differences, ITU-T T.88 section 6.4.5 (tools/pdf-make-jbig2-tests.py, `text_strips` and
 the loop of `text_region`), and the decoding procedure that places them again. A region is a list of tokens here:
 which context or table codes each of them is the next module's matter.
 */
module TextStrips {
  import opened Wrappers
  import opened Powers

  datatype Corner = BL | TL | BR | TR

  predicate Bottom(c: Corner) { c == BL || c == BR }

  predicate Right(c: Corner) { c == BR || c == TR }

  /** A symbol's extent. */
  datatype Sym = Sym(w: nat, h: nat)

  /** A symbol placed with its upper left pixel at (x, y). */
  datatype Inst = Inst(id: nat, x: int, y: int)

  datatype Layout = Layout(syms: seq<Sym>, corner: Corner, transposed: bool, strip: nat, dsOffset: int) {
    predicate Valid() { strip > 0 }

    predicate Knows(it: Inst) { it.id < |syms| }

    /** The low end along S. */
    function S0(it: Inst): int { if transposed then it.y else it.x }

    /** The extent along S. */
    function Extent(id: nat): nat
      requires id < |syms|
    {
      if transposed then syms[id].h else syms[id].w
    }

    /** The reference corner's T. */
    function T(it: Inst): int
      requires Knows(it)
    {
      if transposed then it.x + (if Right(corner) then syms[it.id].w - 1 else 0)
      else it.y + (if Bottom(corner) then syms[it.id].h - 1 else 0)
    }

    /** Floor division, also of a negative T. */
    function StripOf(it: Inst): int
      requires Valid() && Knows(it)
    {
      T(it) / strip
    }

    function CurT(it: Inst): nat
      requires Valid() && Knows(it)
    {
      T(it) % strip
    }
  }

  /** T is where the reference corner is: of its four pixels at the corners, a symbol's uppermost for TL and TR, and so on. */
  lemma TExactly(l: Layout, it: Inst)
    requires l.Knows(it)
    ensures !l.transposed && (l.corner == TL || l.corner == TR) ==> l.T(it) == it.y
    ensures !l.transposed && (l.corner == BL || l.corner == BR) ==> l.T(it) == it.y + l.syms[it.id].h - 1
    ensures l.transposed && (l.corner == TL || l.corner == BL) ==> l.T(it) == it.x
    ensures l.transposed && (l.corner == TR || l.corner == BR) ==> l.T(it) == it.x + l.syms[it.id].w - 1
    ensures l.S0(it) == if l.transposed then it.y else it.x
    ensures l.Extent(it.id) == if l.transposed then l.syms[it.id].h else l.syms[it.id].w
  {
  }

  // ---- Strips ---------------------------------------------------------------------------------

  datatype Strip = Strip(k: int, items: seq<Inst>)

  predicate AllKnown(l: Layout, insts: seq<Inst>) {
    forall i :: 0 <= i < |insts| ==> l.Knows(insts[i])
  }

  predicate SortedBy(l: Layout, items: seq<Inst>) {
    forall i, j :: 0 <= i < j < |items| ==> l.S0(items[i]) <= l.S0(items[j])
  }

  /** A strip has instances, all of them in it, in the order of S. */
  predicate StripOk(l: Layout, s: Strip)
    requires l.Valid()
  {
    && s.items != [] && AllKnown(l, s.items) && SortedBy(l, s.items)
    && forall i :: 0 <= i < |s.items| ==> l.StripOf(s.items[i]) == s.k
  }

  predicate StripsOk(l: Layout, strips: seq<Strip>)
    requires l.Valid()
  {
    && (forall a :: 0 <= a < |strips| ==> StripOk(l, strips[a]))
    && (forall a, b :: 0 <= a < b < |strips| ==> strips[a].k < strips[b].k)
  }

  function Flat(strips: seq<Strip>): seq<Inst> {
    if strips == [] then [] else strips[0].items + Flat(strips[1..])
  }

  /** An instance after those whose S is not above its own: a stable sort, one instance at a time. */
  function InsertItem(l: Layout, items: seq<Inst>, it: Inst): seq<Inst> {
    if items == [] || l.S0(items[|items| - 1]) <= l.S0(it) then items + [it]
    else InsertItem(l, items[..|items| - 1], it) + [items[|items| - 1]]
  }

  lemma {:induction false} InsertItemKeeps(l: Layout, items: seq<Inst>, it: Inst)
    ensures var r := InsertItem(l, items, it);
            |r| == |items| + 1 && multiset(r) == multiset(items) + multiset{it}
            && (forall i :: 0 <= i < |r| ==> r[i] in items || r[i] == it)
  {
    if !(items == [] || l.S0(items[|items| - 1]) <= l.S0(it)) {
      InsertItemKeeps(l, items[..|items| - 1], it);
      assert items == items[..|items| - 1] + [items[|items| - 1]];
    }
  }

  lemma {:induction false} InsertItemSorted(l: Layout, items: seq<Inst>, it: Inst)
    requires SortedBy(l, items)
    ensures SortedBy(l, InsertItem(l, items, it))
  {
    hide l.S0;
    if !(items == [] || l.S0(items[|items| - 1]) <= l.S0(it)) {
      InsertItemSorted(l, items[..|items| - 1], it);
      InsertItemKeeps(l, items[..|items| - 1], it);
    }
  }

  lemma InsertedInStrip(l: Layout, s: Strip, it: Inst)
    requires l.Valid() && StripOk(l, s) && l.Knows(it) && l.StripOf(it) == s.k
    ensures StripOk(l, Strip(s.k, InsertItem(l, s.items, it)))
  {
    hide l.S0, l.T, InsertItem;
    InsertItemKeeps(l, s.items, it);
    InsertItemSorted(l, s.items, it);
  }

  /** The instance into its strip, or into a new strip at its place. */
  function Insert(l: Layout, strips: seq<Strip>, it: Inst): seq<Strip>
    requires l.Valid() && l.Knows(it)
    decreases |strips|
  {
    var k := l.StripOf(it);
    if strips == [] || k < strips[0].k then [Strip(k, [it])] + strips
    else if k == strips[0].k then [Strip(k, InsertItem(l, strips[0].items, it))] + strips[1..]
    else [strips[0]] + Insert(l, strips[1..], it)
  }

  lemma {:induction false} InsertKeeps(l: Layout, strips: seq<Strip>, it: Inst)
    requires l.Valid() && l.Knows(it) && StripsOk(l, strips)
    ensures var r := Insert(l, strips, it);
            && StripsOk(l, r) && multiset(Flat(r)) == multiset(Flat(strips)) + multiset{it}
            && r != [] && (r[0].k == l.StripOf(it) || (strips != [] && r[0].k == strips[0].k))
    decreases |strips|
  {
    hide l.S0, l.T, InsertItem, l.StripOf, StripsOk, StripOk, Flat;
    var k := l.StripOf(it);
    if strips == [] || k < strips[0].k {
      NewStrip(l, it);
      ConsStrips(l, Strip(k, [it]), strips);
    } else {
      StripsCons(l, strips);
      if k == strips[0].k {
        InsertItemKeeps(l, strips[0].items, it);
        InsertedInStrip(l, strips[0], it);
        ConsStrips(l, Strip(k, InsertItem(l, strips[0].items, it)), strips[1..]);
      } else {
        InsertKeeps(l, strips[1..], it);
        ConsStrips(l, strips[0], Insert(l, strips[1..], it));
      }
    }
  }

  lemma NewStrip(l: Layout, it: Inst)
    requires l.Valid() && l.Knows(it)
    ensures StripOk(l, Strip(l.StripOf(it), [it]))
  {
  }

  lemma StripsCons(l: Layout, strips: seq<Strip>)
    requires l.Valid() && StripsOk(l, strips) && strips != []
    ensures StripOk(l, strips[0]) && StripsOk(l, strips[1..]) && (|strips| > 1 ==> strips[0].k < strips[1..][0].k)
    ensures Flat(strips) == strips[0].items + Flat(strips[1..])
  {
    hide StripOk;
  }

  lemma ConsStrips(l: Layout, s: Strip, strips: seq<Strip>)
    requires l.Valid() && StripsOk(l, strips) && StripOk(l, s) && (strips != [] ==> s.k < strips[0].k)
    ensures StripsOk(l, [s] + strips) && Flat([s] + strips) == s.items + Flat(strips)
  {
    hide StripOk;
    assert ([s] + strips)[1..] == strips;
  }

  // Which instances of a strip share an S, and in what order.

  predicate Matches(l: Layout, it: Inst, k: int, s: int)
    requires l.Valid()
  {
    l.Knows(it) && l.StripOf(it) == k && l.S0(it) == s
  }

  /** The instances of strip k at s. */
  function At(l: Layout, items: seq<Inst>, k: int, s: int): seq<Inst>
    requires l.Valid()
    decreases |items|
  {
    if items == [] then []
    else
      var n := |items| - 1;
      At(l, items[..n], k, s) + if Matches(l, items[n], k, s) then [items[n]] else []
  }

  lemma AtMore(l: Layout, items: seq<Inst>, it: Inst, k: int, s: int)
    requires l.Valid()
    ensures At(l, items + [it], k, s) == At(l, items, k, s) + if Matches(l, it, k, s) then [it] else []
  {
    assert (items + [it])[..|items|] == items;
  }

  lemma {:induction false} AtConcat(l: Layout, a: seq<Inst>, b: seq<Inst>, k: int, s: int)
    requires l.Valid()
    ensures At(l, a + b, k, s) == At(l, a, k, s) + At(l, b, k, s)
    decreases |b|
  {
    hide Matches;
    if b == [] {
      assert a + b == a;
    } else {
      var n := |b| - 1;
      assert b == b[..n] + [b[n]] && a + b == (a + b[..n]) + [b[n]];
      AtConcat(l, a, b[..n], k, s);
      hide At;
      AtMore(l, a + b[..n], b[n], k, s);
      AtMore(l, b[..n], b[n], k, s);
    }
  }

  lemma {:induction false} NoneAt(l: Layout, items: seq<Inst>, k: int, s: int)
    requires l.Valid() && forall i :: 0 <= i < |items| ==> !Matches(l, items[i], k, s)
    ensures At(l, items, k, s) == []
    decreases |items|
  {
    hide Matches;
    if items != [] {
      NoneAt(l, items[..|items| - 1], k, s);
    }
  }

  lemma {:induction false} InsertItemAt(l: Layout, items: seq<Inst>, it: Inst, k: int, s: int)
    requires l.Valid()
    ensures At(l, InsertItem(l, items, it), k, s) == At(l, items, k, s) + if Matches(l, it, k, s) then [it] else []
    decreases |items|
  {
    hide At;
    AtMore(l, items, it, k, s);
    if !(items == [] || l.S0(items[|items| - 1]) <= l.S0(it)) {
      var n := |items| - 1;
      assert items == items[..n] + [items[n]] && InsertItem(l, items, it) == InsertItem(l, items[..n], it) + [items[n]];
      InsertItemAt(l, items[..n], it, k, s);
      AtMore(l, InsertItem(l, items[..n], it), items[n], k, s);
      AtMore(l, items[..n], items[n], k, s);
      var before := At(l, items[..n], k, s);
      assert before + [] == before;
    }
  }

  /** Strips after k have nothing of it. */
  lemma {:induction false} NoneBefore(l: Layout, strips: seq<Strip>, k: int, s: int)
    requires l.Valid() && StripsOk(l, strips) && (strips != [] ==> k < strips[0].k)
    ensures At(l, Flat(strips), k, s) == []
    decreases |strips|
  {
    if strips != [] {
      StripsCons(l, strips);
      NoneBefore(l, strips[1..], k, s);
      NoneAt(l, strips[0].items, k, s);
      AtConcat(l, strips[0].items, Flat(strips[1..]), k, s);
    }
  }

  lemma {:induction false} InsertAt(l: Layout, strips: seq<Strip>, it: Inst, k: int, s: int)
    requires l.Valid() && l.Knows(it) && StripsOk(l, strips)
    ensures At(l, Flat(Insert(l, strips, it)), k, s) == At(l, Flat(strips), k, s) + if Matches(l, it, k, s) then [it] else []
    decreases |strips|
  {
    hide l.S0, l.T, InsertItem, l.StripOf, StripsOk, StripOk, At, Flat;
    var own := l.StripOf(it);
    var more := if Matches(l, it, k, s) then [it] else [];
    if strips == [] || own < strips[0].k {
      NewStrip(l, it);
      ConsStrips(l, Strip(own, [it]), strips);
      AtConcat(l, [it], Flat(strips), k, s);
      AtMore(l, [], it, k, s);
      NothingAt(l, k, s);
      assert [] + [it] == [it];
      if more != [] {
        NoneBefore(l, strips, k, s);
      }
    } else {
      StripsCons(l, strips);
      var items, rest := strips[0].items, strips[1..];
      AtConcat(l, items, Flat(rest), k, s);
      if own == strips[0].k {
        InsertedInStrip(l, strips[0], it);
        ConsStrips(l, Strip(own, InsertItem(l, items, it)), rest);
        InsertItemAt(l, items, it, k, s);
        AtConcat(l, InsertItem(l, items, it), Flat(rest), k, s);
        if more != [] {
          NoneBefore(l, rest, k, s);
        }
      } else {
        InsertAt(l, rest, it, k, s);
        InsertKeeps(l, rest, it);
        ConsStrips(l, strips[0], Insert(l, rest, it));
        AtConcat(l, items, Flat(Insert(l, rest, it)), k, s);
      }
    }
  }

  lemma NothingAt(l: Layout, k: int, s: int)
    requires l.Valid()
    ensures At(l, [], k, s) == []
  {
  }

  /** The strips of a region, in order; every instance is in one of them, once, and those at one S in the order they were given. */
  method Strips(l: Layout, insts: seq<Inst>) returns (strips: seq<Strip>)
    requires l.Valid() && AllKnown(l, insts)
    ensures StripsOk(l, strips) && multiset(Flat(strips)) == multiset(insts)
    ensures forall k, s :: At(l, Flat(strips), k, s) == At(l, insts, k, s)
  {
    hide StripsOk, Insert, Flat, l.Knows, At, Matches;
    strips := [];
    NoStrips(l);
    for i := 0 to |insts|
      invariant StripsOk(l, strips) && multiset(Flat(strips)) == multiset(insts[..i])
      invariant forall k, s :: At(l, Flat(strips), k, s) == At(l, insts[..i], k, s)
    {
      assert insts[..i + 1] == insts[..i] + [insts[i]];
      InsertKeeps(l, strips, insts[i]);
      forall k, s
        ensures At(l, Flat(Insert(l, strips, insts[i])), k, s) == At(l, insts[..i + 1], k, s)
      {
        InsertAt(l, strips, insts[i], k, s);
        AtMore(l, insts[..i], insts[i], k, s);
      }
      strips := Insert(l, strips, insts[i]);
    }
    assert insts[..|insts|] == insts;
  }

  lemma NoStrips(l: Layout)
    requires l.Valid()
    ensures StripsOk(l, []) && Flat([]) == []
  {
  }

  // ---- Tokens ---------------------------------------------------------------------------------

  /** What is coded: strip delta T, first S, delta S (or the end of the strip), T within the strip, symbol. */
  datatype TokenKind = DT | FS | DS | IT | ID

  datatype Token = Token(kind: TokenKind, value: Option<int>)

  /** The tokens of one instance's place within the strip, and of its symbol. */
  function PlaceTokens(l: Layout, it: Inst): seq<Token>
    requires l.Valid() && l.Knows(it)
  {
    (if l.strip > 1 then [Token(IT, Some(l.CurT(it)))] else []) + [Token(ID, Some(it.id))]
  }

  /** The instances after the first, `cur` being where the one before ends. */
  function RestTokens(l: Layout, items: seq<Inst>, cur: int): seq<Token>
    requires l.Valid() && AllKnown(l, items)
    decreases |items|
  {
    if items == [] then [Token(DS, None)]
    else
      var it := items[0];
      [Token(DS, Some(l.S0(it) - cur - l.dsOffset))] + PlaceTokens(l, it)
      + RestTokens(l, items[1..], l.S0(it) + l.Extent(it.id) - 1)
  }

  function StripTokens(l: Layout, s: Strip, k: int, firsts: int): seq<Token>
    requires l.Valid() && StripOk(l, s)
  {
    var it := s.items[0];
    [Token(DT, Some(s.k - k)), Token(FS, Some(l.S0(it) - firsts))] + PlaceTokens(l, it)
    + RestTokens(l, s.items[1..], l.S0(it) + l.Extent(it.id) - 1)
  }

  /** FIRSTS runs on from strip to strip. */
  function StripsTokens(l: Layout, strips: seq<Strip>, k: int, firsts: int): seq<Token>
    requires l.Valid() && StripsOk(l, strips)
    decreases |strips|
  {
    if strips == [] then []
    else
      assert StripOk(l, strips[0]);
      StripTokens(l, strips[0], k, firsts) + StripsTokens(l, strips[1..], strips[0].k, l.S0(strips[0].items[0]))
  }

  /** STRIPT starts one strip (`init`) below 0 where the first delta must be positive. */
  function RegionTokens(l: Layout, strips: seq<Strip>, init: nat): seq<Token>
    requires l.Valid() && StripsOk(l, strips)
  {
    [Token(DT, Some(init))] + StripsTokens(l, strips, 0 - init as int, 0)
  }

  /** The tokens of a strip, instance by instance. */
  method EmitStrip(l: Layout, s: Strip, k: int, firsts: int) returns (tokens: seq<Token>)
    requires l.Valid() && StripOk(l, s)
    ensures tokens == StripTokens(l, s, k, firsts)
  {
    hide PlaceTokens, RestTokens, StripTokens, l.T, l.S0, l.Extent, l.StripOf;
    tokens := [Token(DT, Some(s.k - k))];
    StripParts(l, s, k, firsts);
    var cur := 0;
    ghost var goal := StripTokens(l, s, k, firsts);
    for n := 0 to |s.items|
      invariant n == 0 ==> tokens == [Token(DT, Some(s.k - k))]
      invariant n > 0 ==> tokens + RestTokens(l, s.items[n..], cur) == goal
    {
      var it := s.items[n];
      if n == 0 {
        tokens := tokens + [Token(FS, Some(l.S0(it) - firsts))];
      } else {
        RestStep(l, s.items, n, cur, tokens);
        tokens := tokens + [Token(DS, Some(l.S0(it) - cur - l.dsOffset))];
      }
      cur := l.S0(it) + l.Extent(it.id) - 1;
      tokens := tokens + PlaceTokens(l, it);
    }
    RestEnd(l, cur);
    assert s.items[|s.items|..] == [];
    tokens := tokens + [Token(DS, None)];
  }

  lemma StripParts(l: Layout, s: Strip, k: int, firsts: int)
    requires l.Valid() && StripOk(l, s)
    ensures s.items != [] && AllKnown(l, s.items)
    ensures var it := s.items[0];
            StripTokens(l, s, k, firsts)
            == (([Token(DT, Some(s.k - k))] + [Token(FS, Some(l.S0(it) - firsts))]) + PlaceTokens(l, it))
               + RestTokens(l, s.items[1..], l.S0(it) + l.Extent(it.id) - 1)
  {
    hide PlaceTokens, RestTokens, l.S0, l.Extent, l.StripOf;
  }

  lemma RestStep(l: Layout, items: seq<Inst>, n: nat, cur: int, tokens: seq<Token>)
    requires l.Valid() && AllKnown(l, items) && n < |items|
    ensures var it := items[n];
            tokens + RestTokens(l, items[n..], cur)
            == ((tokens + [Token(DS, Some(l.S0(it) - cur - l.dsOffset))]) + PlaceTokens(l, it))
               + RestTokens(l, items[n + 1..], l.S0(it) + l.Extent(it.id) - 1)
  {
    hide PlaceTokens, l.S0, l.Extent;
    assert items[n..][1..] == items[n + 1..];
  }

  lemma RestEnd(l: Layout, cur: int)
    requires l.Valid()
    ensures RestTokens(l, [], cur) == [Token(DS, None)]
  {
  }

  /** The tokens of a region, strip by strip, as they are coded. */
  method EmitRegion(l: Layout, strips: seq<Strip>, init: nat) returns (tokens: seq<Token>)
    requires l.Valid() && StripsOk(l, strips)
    ensures tokens == RegionTokens(l, strips, init)
  {
    hide StripTokens, StripsOk, l.S0;
    tokens := [Token(DT, Some(init))];
    var cur, firsts := 0 - init as int, 0;
    for a := 0 to |strips|
      invariant StripsOk(l, strips[a..])
      invariant tokens + StripsTokens(l, strips[a..], cur, firsts) == RegionTokens(l, strips, init)
    {
      StripsCons(l, strips[a..]);
      assert strips[a..][1..] == strips[a + 1..];
      var strip := EmitStrip(l, strips[a], cur, firsts);
      assert tokens + (strip + StripsTokens(l, strips[a + 1..], strips[a].k, l.S0(strips[a].items[0])))
          == (tokens + strip) + StripsTokens(l, strips[a + 1..], strips[a].k, l.S0(strips[a].items[0]));
      tokens := tokens + strip;
      cur, firsts := strips[a].k, l.S0(strips[a].items[0]);
    }
  }

  /** The delta of strip `a`, the first counted from -1. */
  function Delta(strips: seq<Strip>, a: nat): int
    requires a < |strips|
  {
    strips[a].k - (if a == 0 then -1 else strips[a - 1].k)
  }

  /** Every strip delta is at least 1 exactly when no T is below 0. */
  lemma DeltasPositive(l: Layout, strips: seq<Strip>)
    requires l.Valid() && StripsOk(l, strips)
    ensures (forall a: nat :: a < |strips| ==> Delta(strips, a) >= 1)
        <==> (forall a, i :: 0 <= a < |strips| && 0 <= i < |strips[a].items| ==>
                l.Knows(strips[a].items[i]) && l.T(strips[a].items[i]) >= 0)
  {
    if forall a: nat :: a < |strips| ==> Delta(strips, a) >= 1 {
      forall a, i | 0 <= a < |strips| && 0 <= i < |strips[a].items|
        ensures l.Knows(strips[a].items[i]) && l.T(strips[a].items[i]) >= 0
      {
        assert StripOk(l, strips[a]) && Delta(strips, 0) >= 1;
        assert strips[a].k >= 0;
        NegativeStrip(l.T(strips[a].items[i]), l.strip);
      }
    } else {
      assert strips != [] && strips[0].k < 0;
      assert StripOk(l, strips[0]);
      NegativeStrip(l.T(strips[0].items[0]), l.strip);
    }
  }

  lemma NegativeStrip(t: int, strip: nat)
    requires strip > 0
    ensures t / strip < 0 <==> t < 0
  {
    assert t == t / strip * strip + t % strip;
    MulLess(t / strip, 0, strip);
    MulLess(-1, t / strip, strip);
    MulLess(t / strip, -1, strip);
  }
}
