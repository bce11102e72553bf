/**
 The standard Huffman tables a text region uses, B.6, B.8 and B.11 of ITU-T T.88, and which regions they, and the
 arithmetic coder, have codes for (tools/pdf-make-jbig2-tests.py, the tables above `Huff`, and `text_region`).
 */
module TextTables {
  import opened Wrappers
  import opened ByteTypes
  import opened Powers
  import opened Mq
  import opened MqTape
  import opened IntegerCodes
  import opened CanonicalCodes
  import opened HuffmanTables
  import opened TextStrips
  import opened TextRegion
  import IdTable

  /** An unbounded range has thirty-two bits. */
  type StandardLine = l: Line | (l.kind == Lower || l.kind == Upper) ==> l.rlen == 32
    witness Line(0, 1, 0, Normal)

  type PositiveLine = l: StandardLine | l.low >= 1 && (l.kind == Normal || l.kind == Upper)
    witness Line(1, 1, 0, Normal)

  function N(low: int, plen: nat, rlen: nat): Line { Line(low, plen, rlen, Normal) }

  const B6: seq<StandardLine> := [
    N(-2048, 5, 10), N(-1024, 4, 9), N(-512, 4, 8), N(-256, 4, 7), N(-128, 5, 6), N(-64, 5, 5), N(-32, 4, 5),
    N(0, 2, 7), N(128, 3, 7), N(256, 3, 8), N(512, 4, 9), N(1024, 4, 10), Line(-2049, 6, 32, Lower),
    Line(2048, 6, 32, Upper)]

  const B8: seq<StandardLine> := [
    N(-15, 8, 3), N(-7, 9, 1), N(-5, 8, 1), N(-3, 9, 0), N(-2, 7, 0), N(-1, 4, 0), N(0, 2, 1), N(2, 5, 0),
    N(3, 6, 0), N(4, 3, 4), N(20, 6, 1), N(22, 4, 4), N(38, 4, 5), N(70, 5, 6), N(134, 5, 7), N(262, 6, 7),
    N(390, 7, 8), N(646, 6, 10), Line(-16, 9, 32, Lower), Line(1670, 9, 32, Upper), Line(0, 2, 0, OutOfBand)]

  const B11: seq<PositiveLine> := [
    N(1, 1, 0), N(2, 2, 1), N(4, 4, 0), N(5, 4, 1), N(7, 5, 1), N(9, 5, 2), N(13, 6, 2), N(17, 7, 2),
    N(21, 7, 3), N(29, 7, 4), N(45, 7, 5), N(77, 7, 6), Line(141, 7, 32, Upper)]

  /** The tables of Annex B by their ranges: from, to, and the length of the code. */
  const B6_RANGES: seq<(int, int, nat)> := [
    (-2048, -1025, 5), (-1024, -513, 4), (-512, -257, 4), (-256, -129, 4), (-128, -65, 5), (-64, -33, 5), (-32, -1, 4),
    (0, 127, 2), (128, 255, 3), (256, 511, 3), (512, 1023, 4), (1024, 2047, 4)]

  const B8_RANGES: seq<(int, int, nat)> := [
    (-15, -8, 8), (-7, -6, 9), (-5, -4, 8), (-3, -3, 9), (-2, -2, 7), (-1, -1, 4), (0, 1, 2), (2, 2, 5), (3, 3, 6), (4, 19, 3)] + [
    (20, 21, 6), (22, 37, 4), (38, 69, 4), (70, 133, 5), (134, 261, 5), (262, 389, 6), (390, 645, 7), (646, 1669, 6)]

  const B11_RANGES: seq<(int, int, nat)> := [
    (1, 1, 1), (2, 3, 2), (4, 4, 4), (5, 6, 4), (7, 8, 5), (9, 12, 5), (13, 16, 6), (17, 20, 7), (21, 28, 7), (29, 44, 7),
    (45, 76, 7), (77, 140, 7)]

  predicate IsRange(line: Line, r: (int, int, nat)) {
    line.kind == Normal && line.low == r.0 && line.low + Pow2(line.rlen) == r.1 + 1 && line.plen == r.2
  }

  /** Table B.6: its bounded ranges, then what is below and above them with codes of 6 bits. */
  lemma B6Exactly(i: nat)
    requires i < |B6|
    ensures |B6| == 14 && |B6_RANGES| == 12
    ensures if i < 12 then IsRange(B6[i], B6_RANGES[i]) else B6[i] == Line(if i == 12 then -2049 else 2048, 6, 32, if i == 12 then Lower else Upper)
  {
    assert Pow2(0) == 1;
    Pow2Small();
  }

  /** Table B.8: below and above with codes of 9 bits, and out-of-band with one of 2. */
  lemma B8Exactly(i: nat)
    requires i < |B8|
    ensures |B8| == 21 && |B8_RANGES| == 18
    ensures i < 18 ==> IsRange(B8[i], B8_RANGES[i])
    ensures i == 18 ==> B8[i] == Line(-16, 9, 32, Lower)
    ensures i == 19 ==> B8[i] == Line(1670, 9, 32, Upper)
    ensures i == 20 ==> B8[i].kind == OutOfBand && B8[i].plen == 2
  {
    assert Pow2(0) == 1;
    Pow2Small();
  }

  /** Table B.11: nothing below 1, and above with a code of 7 bits. */
  lemma B11Exactly(i: nat)
    requires i < |B11|
    ensures |B11| == 13 && |B11_RANGES| == 12
    ensures if i < 12 then IsRange(B11[i], B11_RANGES[i]) else B11[i] == Line(141, 7, 32, Upper)
  {
    assert Pow2(0) == 1;
    Pow2Small();
  }

  lemma FirstHitBefore(lines: seq<Line>, v: Option<int>, i: nat, k: nat)
    requires i <= k < |lines| && Hits(lines[k], v)
    ensures FirstHit(lines, v, i).Some?
    decreases k - i
  {
    if i < k {
      FirstHitBefore(lines, v, i + 1, k);
    }
  }

  lemma {:induction false} BelowConcat(x: seq<nat>, y: seq<nat>, m: nat, k: nat)
    requires Longest(x, m) && Longest(y, m) && k <= |y|
    ensures Longest(x + y, m) && Below(x + y, m, m + 1, |x| + k) == Kraft(x, m) + Below(y, m, m + 1, k)
    decreases k
  {
    if k > 0 {
      BelowConcat(x, y, m, k - 1);
    } else {
      BelowOfStart(x, y, m, |x|);
    }
  }

  lemma {:induction false} BelowOfStart(x: seq<nat>, y: seq<nat>, m: nat, k: nat)
    requires Longest(x, m) && Longest(y, m) && k <= |x|
    ensures Longest(x + y, m) && Below(x + y, m, m + 1, k) == Below(x, m, m + 1, k)
  {
    if k > 0 {
      BelowOfStart(x, y, m, k - 1);
    }
  }

  /** One line more takes one code's share more. */
  lemma KraftMore(x: seq<nat>, l: nat, m: nat)
    requires Longest(x, m) && 0 < l <= m
    ensures Longest(x + [l], m) && Kraft(x + [l], m) == Kraft(x, m) + Pow2(m - l)
  {
    BelowConcat(x, [l], m, 1);
    assert Below([l], m, m + 1, 0) == 0;
  }

  lemma KraftOf(a: nat, b: nat, c: nat, d: nat, m: nat)
    requires 0 < a <= m && 0 < b <= m && 0 < c <= m && 0 < d <= m
    ensures Longest([a, b, c, d], m)
    ensures Kraft([a, b, c, d], m) == Pow2(m - a) + Pow2(m - b) + Pow2(m - c) + Pow2(m - d)
  {
    hide Kraft, Pow2;
    assert [] + [a] == [a] && [a] + [b] == [a, b] && [a, b] + [c] == [a, b, c] && [a, b, c] + [d] == [a, b, c, d];
    NoLines(m);
    KraftMore([], a, m);
    KraftMore([a], b, m);
    KraftMore([a, b], c, m);
    KraftMore([a, b, c], d, m);
  }

  lemma NoLines(m: nat)
    ensures Kraft([], m) == 0
  {
  }

  lemma KraftConcat(x: seq<nat>, y: seq<nat>, m: nat)
    requires Longest(x, m) && Longest(y, m)
    ensures Longest(x + y, m) && Kraft(x + y, m) == Kraft(x, m) + Kraft(y, m)
  {
    BelowConcat(x, y, m, |y|);
  }

  lemma B6Kraft(lens: seq<nat>)
    requires lens == [5, 4, 4, 4] + [5, 5, 4, 2] + [3, 3, 4, 4] + [6] + [6]
    ensures Longest(lens, 6) && Kraft(lens, 6) == Pow2(6)
  {
    hide Kraft;
    assert Pow2(0) == 1;
    Pow2Small();
    KraftOf(5, 4, 4, 4, 6);
    KraftOf(5, 5, 4, 2, 6);
    KraftOf(3, 3, 4, 4, 6);
    KraftConcat([5, 4, 4, 4], [5, 5, 4, 2], 6);
    KraftConcat([5, 4, 4, 4] + [5, 5, 4, 2], [3, 3, 4, 4], 6);
    KraftMore([5, 4, 4, 4] + [5, 5, 4, 2] + [3, 3, 4, 4], 6, 6);
    KraftMore([5, 4, 4, 4] + [5, 5, 4, 2] + [3, 3, 4, 4] + [6], 6, 6);
  }

  lemma B8Kraft(lens: seq<nat>)
    requires lens == [8, 9, 8, 9] + [7, 4, 2, 5] + [6, 3, 6, 4] + [4, 5, 5, 6] + [7, 6, 9, 9] + [2]
    ensures Longest(lens, 9) && Kraft(lens, 9) == Pow2(9)
  {
    hide Kraft;
    assert Pow2(0) == 1;
    Pow2Small();
    KraftOf(8, 9, 8, 9, 9);
    KraftOf(7, 4, 2, 5, 9);
    KraftOf(6, 3, 6, 4, 9);
    KraftOf(4, 5, 5, 6, 9);
    KraftOf(7, 6, 9, 9, 9);
    KraftConcat([8, 9, 8, 9], [7, 4, 2, 5], 9);
    KraftConcat([8, 9, 8, 9] + [7, 4, 2, 5], [6, 3, 6, 4], 9);
    KraftConcat([8, 9, 8, 9] + [7, 4, 2, 5] + [6, 3, 6, 4], [4, 5, 5, 6], 9);
    KraftConcat([8, 9, 8, 9] + [7, 4, 2, 5] + [6, 3, 6, 4] + [4, 5, 5, 6], [7, 6, 9, 9], 9);
    KraftMore([8, 9, 8, 9] + [7, 4, 2, 5] + [6, 3, 6, 4] + [4, 5, 5, 6] + [7, 6, 9, 9], 2, 9);
  }

  lemma B11Kraft(lens: seq<nat>)
    requires lens == [1, 2, 4, 4] + [5, 5, 6, 7] + [7, 7, 7, 7] + [7]
    ensures Longest(lens, 7) && Kraft(lens, 7) == Pow2(7)
  {
    hide Kraft;
    assert Pow2(0) == 1;
    Pow2Small();
    KraftOf(1, 2, 4, 4, 7);
    KraftOf(5, 5, 6, 7, 7);
    KraftOf(7, 7, 7, 7, 7);
    KraftConcat([1, 2, 4, 4], [5, 5, 6, 7], 7);
    KraftConcat([1, 2, 4, 4] + [5, 5, 6, 7], [7, 7, 7, 7], 7);
    KraftMore([1, 2, 4, 4] + [5, 5, 6, 7] + [7, 7, 7, 7], 7, 7);
  }

  /** The Kraft sum of each table is exactly 1: no code begins another, and every bit string begins with one. */
  lemma StandardTablesDecodable()
    ensures Longest(Lengths(B6), 6) && Kraft(Lengths(B6), 6) == Pow2(6)
    ensures Longest(Lengths(B8), 9) && Kraft(Lengths(B8), 9) == Pow2(9)
    ensures Longest(Lengths(B11), 7) && Kraft(Lengths(B11), 7) == Pow2(7)
    ensures Decodable(Lengths(B6)) && Decodable(Lengths(B8)) && Decodable(Lengths(B11))
  {
    hide *;
    B6Sum();
    B8Sum();
    B11Sum();
    DecodableBy(Lengths(B6), 6);
    DecodableBy(Lengths(B8), 9);
    DecodableBy(Lengths(B11), 7);
  }

  lemma DecodableBy(lens: seq<nat>, m: nat)
    requires Longest(lens, m) && Kraft(lens, m) <= Pow2(m)
    ensures Decodable(lens)
  {
  }

  lemma B6Sum()
    ensures Longest(Lengths(B6), 6) && Kraft(Lengths(B6), 6) == Pow2(6)
  {
    hide Kraft, Pow2, Longest;
    B6Kraft(Lengths(B6));
  }

  lemma B8Sum()
    ensures Longest(Lengths(B8), 9) && Kraft(Lengths(B8), 9) == Pow2(9)
  {
    hide Kraft, Pow2, Longest;
    B8Kraft(Lengths(B8));
  }

  lemma B11Sum()
    ensures Longest(Lengths(B11), 7) && Kraft(Lengths(B11), 7) == Pow2(7)
  {
    hide Kraft, Pow2, Longest;
    B11Kraft(Lengths(B11));
  }

  // ---- Which values have a line ---------------------------------------------------------------

  function B6Line(v: int): nat {
    if v < -2048 then 12 else if v < -1024 then 0 else if v < -512 then 1 else if v < -256 then 2
    else if v < -128 then 3 else if v < -64 then 4 else if v < -32 then 5 else if v < 0 then 6
    else if v < 128 then 7 else if v < 256 then 8 else if v < 512 then 9 else if v < 1024 then 10
    else if v < 2048 then 11 else 13
  }

  function B8Line(v: int): nat {
    if v < -15 then 18 else if v < -7 then 0 else if v < -5 then 1 else if v < -3 then 2 else if v < -2 then 3
    else if v < -1 then 4 else if v < 0 then 5 else if v < 2 then 6 else if v < 3 then 7 else if v < 4 then 8
    else if v < 20 then 9 else if v < 22 then 10 else if v < 38 then 11 else if v < 70 then 12
    else if v < 134 then 13 else if v < 262 then 14 else if v < 390 then 15 else if v < 646 then 16
    else if v < 1670 then 17 else 19
  }

  function B11Line(v: int): nat {
    if v < 2 then 0 else if v < 4 then 1 else if v < 5 then 2 else if v < 7 then 3 else if v < 9 then 4
    else if v < 13 then 5 else if v < 17 then 6 else if v < 21 then 7 else if v < 29 then 8 else if v < 45 then 9
    else if v < 77 then 10 else if v < 141 then 11 else 12
  }

  lemma B6Hits(v: int)
    ensures FirstHit(B6, Some(v), 0).Some?
  {
    hide FirstHit;
    assert Pow2(0) == 1;
    Pow2Small();
    FirstHitBefore(B6, Some(v), 0, B6Line(v));
  }

  lemma B8Hits(v: Option<int>)
    ensures FirstHit(B8, v, 0).Some?
  {
    hide FirstHit;
    assert Pow2(0) == 1;
    Pow2Small();
    FirstHitBefore(B8, v, 0, if v == None then 20 else B8Line(v.value));
  }

  /** Table B.11 has a line for exactly the values from 1 on. */
  lemma B11Hits(v: int)
    ensures FirstHit(B11, Some(v), 0).Some? <==> v >= 1
  {
    if v >= 1 {
      hide FirstHit;
      assert Pow2(0) == 1;
      Pow2Small();
      FirstHitBefore(B11, Some(v), 0, B11Line(v));
    }
  }

  /** A line between the two unbounded ranges, or one of these. */
  predicate Between(line: Line, low: int, high: int) {
    match line.kind
    case Normal => low < line.low && line.low + Pow2(line.rlen) <= high
    case Lower => line.low == low && line.rlen == 32
    case Upper => line.low == high && line.rlen == 32
    case OutOfBand => true
  }

  lemma OffsetExactly(line: Line, v: int, low: int, high: int)
    requires low < high && Between(line, low, high) && Hits(line, Some(v))
    ensures Offset(line, Some(v)) < Pow2(line.rlen) <==> low - 0x1_0000_0000 < v < high + 0x1_0000_0000
  {
    Pow2Small();
  }

  lemma B6Between(i: nat)
    requires i < |B6|
    ensures Between(B6[i], -2049, 2048)
  {
    assert Pow2(0) == 1;
    Pow2Small();
  }

  lemma B8Between(i: nat)
    requires i < |B8|
    ensures Between(B8[i], -16, 1670)
  {
    assert Pow2(0) == 1;
    Pow2Small();
  }

  lemma B11Between(i: nat)
    requires i < |B11|
    ensures Between(B11[i], 0, 141)
  {
    assert Pow2(0) == 1;
    Pow2Small();
  }

  /** The values the standard tables have room for: those within 2^32 of their bounded ranges, and in B.11 from 1 on. */
  predicate HuffmanRange(t: Token) {
    match t.kind
    case DT => t.value.Some? && 1 <= t.value.value < 141 + 0x1_0000_0000
    case FS => t.value.Some? && -2049 - 0x1_0000_0000 < t.value.value < 2048 + 0x1_0000_0000
    case DS => t.value.Some? ==> -16 - 0x1_0000_0000 < t.value.value < 1670 + 0x1_0000_0000
    case _ => true
  }

  predicate Standard(tables: Tables) { tables.dt == B11 && tables.fs == B6 && tables.ds == B8 }

  lemma FitsExactly(tables: Tables, t: Token)
    requires Standard(tables) && (t.kind == DT || t.kind == FS || t.kind == DS) && (t.kind != DS ==> t.value.Some?)
    ensures Fits(tables, t) <==> HuffmanRange(t)
  {
    hide FirstHit, Offset, Pow2, Between;
    if t.kind == DT {
      B11Hits(t.value.value);
    } else if t.kind == FS {
      B6Hits(t.value.value);
    } else {
      B8Hits(t.value);
    }
    var hit := FirstHit(TableFor(tables, t.kind), t.value, 0);
    if hit.Some? && t.value.Some? {
      var i := hit.value;
      if t.kind == DT {
        B11Between(i);
        OffsetExactly(B11[i], t.value.value, 0, 141);
      } else if t.kind == FS {
        B6Between(i);
        OffsetExactly(B6[i], t.value.value, -2049, 2048);
      } else {
        B8Between(i);
        OffsetExactly(B8[i], t.value.value, -16, 1670);
      }
    }
  }

  // ---- Which regions can be coded -------------------------------------------------------------

  /** What the tokens of a region are, whatever its coordinates. */
  predicate Regular(l: Layout, t: Token) {
    match t.kind
    case ID => t.value.Some? && 0 <= t.value.value < |l.syms|
    case IT => t.value.Some? && 0 <= t.value.value < l.strip
    case DS => true
    case _ => t.value.Some?
  }

  predicate AllRegular(l: Layout, tokens: seq<Token>) {
    forall i :: 0 <= i < |tokens| ==> Regular(l, tokens[i])
  }

  lemma PlaceRegular(l: Layout, it: Inst)
    requires l.Valid() && l.Knows(it)
    ensures AllRegular(l, PlaceTokens(l, it))
  {
    hide l.T;
  }

  lemma {:induction false} RestRegular(l: Layout, items: seq<Inst>, cur: int)
    requires l.Valid() && AllKnown(l, items)
    ensures AllRegular(l, RestTokens(l, items, cur))
    decreases |items|
  {
    hide PlaceTokens, l.T, l.S0, l.Extent, l.StripOf;
    if items != [] {
      var it := items[0];
      PlaceRegular(l, it);
      RestRegular(l, items[1..], l.S0(it) + l.Extent(it.id) - 1);
    }
  }

  lemma {:induction false} StripsRegular(l: Layout, strips: seq<Strip>, k: int, firsts: int)
    requires l.Valid() && StripsOk(l, strips)
    ensures AllRegular(l, StripsTokens(l, strips, k, firsts))
    decreases |strips|
  {
    hide PlaceTokens, RestTokens, l.T, l.S0, l.Extent, l.StripOf, StripsOk;
    if strips != [] {
      StripsCons(l, strips);
      var s := strips[0];
      var it := s.items[0];
      PlaceRegular(l, it);
      RestRegular(l, s.items[1..], l.S0(it) + l.Extent(it.id) - 1);
      StripsRegular(l, strips[1..], s.k, l.S0(it));
    }
  }

  lemma RegionRegular(l: Layout, strips: seq<Strip>, init: nat)
    requires l.Valid() && StripsOk(l, strips)
    ensures AllRegular(l, RegionTokens(l, strips, init))
  {
    hide StripsTokens, StripsOk;
    StripsRegular(l, strips, 0 - init as int, 0);
  }

  /** One symbol with its T at -1: the delta of its strip is 0, and table B.11 has no line for that. */
  lemma NegativeT()
    ensures var l, it := Layout([Sym(1, 1)], TL, false, 1, 0), Inst(0, 0, -1);
            var strips := [Strip(-1, [it])];
            && l.Valid() && l.Knows(it) && l.T(it) == -1 && StripsOk(l, strips) && Delta(strips, 0) == 0
            && |RegionTokens(l, strips, 1)| > 1 && RegionTokens(l, strips, 1)[1] == Token(DT, Some(0))
            && ValueBits(B11, Some(0)) == None
  {
    var l, it := Layout([Sym(1, 1)], TL, false, 1, 0), Inst(0, 0, -1);
    var strips := [Strip(-1, [it])];
    assert l.StripOf(it) == -1 && StripOk(l, strips[0]);
    B11Hits(0);
    ValueBitsFound(B11, Some(0));
    hide RestTokens, FirstHit, ValueBits;
    assert StripsTokens(l, strips, -1, 0)[0] == Token(DT, Some(0));
  }

  predicate AllInRange(tokens: seq<Token>) {
    forall i :: 0 <= i < |tokens| ==> HuffmanRange(tokens[i])
  }

  /** Tables for a layout: the standard ones, and for each symbol a code. */
  ghost predicate TablesFor(l: Layout, tables: Tables) {
    && l.strip == Pow2(tables.logStrips) && Standard(tables)
    && |tables.ids| == |l.syms| && Decodable(tables.ids) && forall i :: 0 <= i < |tables.ids| ==> tables.ids[i] > 0
  }

  /** The tables have room for a region exactly if its differences are in their ranges. */
  lemma AllFitExactly(l: Layout, tables: Tables, tokens: seq<Token>)
    requires AllRegular(l, tokens) && TablesFor(l, tables)
    ensures AllFit(tables, tokens) <==> AllInRange(tokens)
  {
    hide Decodable, Standard, Pow2;
    forall i | 0 <= i < |tokens|
      ensures Fits(tables, tokens[i]) <==> HuffmanRange(tokens[i])
    {
      assert Regular(l, tokens[i]);
      if tokens[i].kind != ID && tokens[i].kind != IT {
        FitsExactly(tables, tokens[i]);
      }
    }
    hide Fits, HuffmanRange;
  }

  /** A Huffman-coded region whose differences are in the tables' ranges is decoded to its instances, each once. */
  lemma HuffmanRegion(l: Layout, strips: seq<Strip>, tables: Tables, rest: seq<Bit>)
    requires l.Valid() && StripsOk(l, strips) && TablesFor(l, tables) && AllInRange(RegionTokens(l, strips, 1))
    ensures AllFit(tables, RegionTokens(l, strips, 1))
    ensures ReadRegion(Huffman(TokensBits(tables, RegionTokens(l, strips, 1)) + rest, tables), l, |Flat(strips)|)
         == Some(Flat(strips))
  {
    hide Decodable, ReadRegion, RegionTokens, TokensBits, AllInRange, AllFit, AllRegular, StripsOk, Flat, Pow2;
    RegionRegular(l, strips, 1);
    AllFitExactly(l, tables, RegionTokens(l, strips, 1));
    StandardTablesDecodable();
    HuffmanRoundTrip(l, strips, tables, rest);
  }

  lemma RegularCodes(l: Layout, t: Token, len: nat)
    requires Regular(l, t) && |l.syms| <= Pow2(len) && (t.kind != ID ==> Codable(t.value))
    ensures Codes(len, t)
  {
    hide Pow2;
  }

  /** An arithmetically coded region whose differences Table A.1 has codes for is decoded to its instances, each once. */
  lemma ArithmeticRegion(l: Layout, strips: seq<Strip>)
    requires l.Valid() && StripsOk(l, strips)
    requires forall t <- RegionTokens(l, strips, 0) :: t.kind != ID ==> Codable(t.value)
    ensures var len := IdTable.CeilLog2(|l.syms|);
            var e := Encode(Coder(START, Contexts(len)), TokensEvents(len, RegionTokens(l, strips, 0))).enc;
            && Ready(e)
            && ReadRegion(Arithmetic(Open(Flush(e), Contexts(len)), len), l, |Flat(strips)|) == Some(Flat(strips))
  {
    hide ReadRegion, RegionTokens, TokensEvents, Regular, StripsOk, Flat, Codes, Codable, Encode, Contexts, Open, Flush, NoMarker;
    var len := IdTable.CeilLog2(|l.syms|);
    var tokens := RegionTokens(l, strips, 0);
    RegionRegular(l, strips, 0);
    forall i | 0 <= i < |tokens|
      ensures Codes(len, tokens[i])
    {
      assert tokens[i] in tokens;
      RegularCodes(l, tokens[i], len);
    }
    ArithmeticRoundTrip(l, strips, len);
  }
}
