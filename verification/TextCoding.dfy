/**
 A Huffman-coded text region from the symbols it uses to its instances (tools/pdf-make-jbig2-tests.py, `text_region`): the
 counts of the symbols give the lengths of their codes, which go ahead in a table of their own; a decoder reads the table and
 with it the region.
 */
module TextCoding {
  import opened Wrappers
  import opened ByteTypes
  import opened Powers
  import opened BitStrings
  import opened CanonicalCodes
  import opened HuffmanTables
  import opened TextStrips
  import opened TextRegion
  import opened TextTables
  import HuffmanLengths
  import IdTable

  /** The decoder: the lengths of the symbols' codes from one part, and with them the instances from the other. */
  function ReadText(table: seq<Bit>, region: seq<Bit>, l: Layout, logStrips: nat, n: nat): Option<seq<Inst>> {
    match IdTable.ReadTable(table, |l.syms|)
    case None => None
    case Some((ids, _)) => ReadRegion(Huffman(region, Tables(B11, B6, B8, logStrips, ids)), l, n)
  }

  /** Lengths made from counts can be told apart code by code. */
  lemma CompleteDecodable(counts: seq<nat>, lens: seq<nat>)
    requires HuffmanLengths.Complete(counts, lens)
    ensures Decodable(lens)
  {
    if |counts| == 0 {
      NothingDecodable();
    } else if |counts| == 1 {
      OneDecodable();
    } else {
      DecodableBy(lens, |counts| + 1);
    }
  }

  lemma NothingDecodable()
    ensures Decodable([])
  {
    DecodableBy([], 0);
  }

  lemma OneDecodable()
    ensures Decodable([1])
  {
    assert Pow2(0) == 1 && Pow2(1) == 2;
    assert Below([1], 1, 2, 0) == 0;
    DecodableBy([1], 1);
  }

  /**
   From the counts to the instances: with fewer than 5702887 counted, the lengths' table and the region, whatever follows
   either, are decoded to the region's instances, each once.
   */
  lemma TextRoundTrip(l: Layout, strips: seq<Strip>, logStrips: nat, counts: seq<nat>, lens: seq<nat>, more: seq<Bit>, rest: seq<Bit>)
    requires l.Valid() && StripsOk(l, strips) && l.strip == Pow2(logStrips) && |counts| == |l.syms|
    requires HuffmanLengths.Complete(counts, lens) && HuffmanLengths.Positive(counts) && HuffmanLengths.Sum(counts) < 5_702_887
    requires AllInRange(RegionTokens(l, strips, 1))
    ensures IdTable.TableBits(lens).Some? && AllFit(Tables(B11, B6, B8, logStrips, lens), RegionTokens(l, strips, 1))
    ensures var region := TokensBits(Tables(B11, B6, B8, logStrips, lens), RegionTokens(l, strips, 1));
            ReadText(IdTable.TableBits(lens).value + more, region + rest, l, logStrips, |Flat(strips)|) == Some(Flat(strips))
  {
    hide Decodable, ReadRegion, RegionTokens, TokensBits, AllInRange, AllFit, StripsOk, Flat, Pow2, IdTable.TableBits,
         IdTable.ReadTable;
    forall k | 0 <= k < |lens|
      ensures lens[k] <= 31
    {
      HuffmanLengths.ShortEnough(counts, lens, k);
    }
    IdTable.TableBack(lens, more);
    CompleteDecodable(counts, lens);
    HuffmanRegion(l, strips, Tables(B11, B6, B8, logStrips, lens), rest);
  }

  // ---- The coder as it runs -------------------------------------------------------------------

  /** How many of the instances are of a symbol. */
  function Uses(insts: seq<Inst>, id: nat): nat
    decreases |insts|
  {
    if insts == [] then 0 else Uses(insts[..|insts| - 1], id) + if insts[|insts| - 1].id == id then 1 else 0
  }

  /** One for each symbol, and one more for each of its instances. */
  method CountSymbols(l: Layout, insts: seq<Inst>) returns (counts: seq<nat>)
    requires AllKnown(l, insts)
    ensures |counts| == |l.syms| && forall k :: 0 <= k < |l.syms| ==> counts[k] == 1 + Uses(insts, k)
    ensures HuffmanLengths.Positive(counts) && HuffmanLengths.Sum(counts) == |l.syms| + |insts|
  {
    hide HuffmanLengths.Sum;
    counts := seq(|l.syms|, _ => 1);
    SumOfOnes(|l.syms|);
    for i := 0 to |insts|
      invariant |counts| == |l.syms| && forall k :: 0 <= k < |l.syms| ==> counts[k] == 1 + Uses(insts[..i], k)
      invariant HuffmanLengths.Positive(counts) && HuffmanLengths.Sum(counts) == |l.syms| + i
    {
      assert l.Knows(insts[i]) && insts[..i + 1][..i] == insts[..i];
      SumUpdated(counts, insts[i].id, counts[insts[i].id] + 1);
      counts := counts[insts[i].id := counts[insts[i].id] + 1];
    }
    assert insts[..|insts|] == insts;
  }

  lemma {:induction false} SumOfOnes(n: nat)
    ensures HuffmanLengths.Sum(seq(n, _ => 1)) == n
  {
    if n > 0 {
      SumOfOnes(n - 1);
      assert seq(n, _ => 1)[..n - 1] == seq(n - 1, _ => 1);
    }
  }

  lemma {:induction false} SumUpdated(counts: seq<nat>, k: nat, x: nat)
    requires k < |counts|
    ensures HuffmanLengths.Sum(counts[k := x]) == HuffmanLengths.Sum(counts) - counts[k] + x
    decreases |counts|
  {
    var n := |counts| - 1;
    if k < n {
      SumUpdated(counts[..n], k, x);
      assert counts[k := x][..n] == counts[..n][k := x];
    } else {
      assert counts[k := x][..n] == counts[..n];
    }
  }

  /** The codes of the tables, as they are assigned. */
  datatype Codes = Codes(dt: seq<nat>, fs: seq<nat>, ds: seq<nat>, ids: seq<nat>)

  predicate CodesOf(tables: Tables, codes: Codes, longest: nat) {
    && Longest(Lengths(tables.dt), 7) && Assigned(Lengths(tables.dt), codes.dt, 7)
    && Longest(Lengths(tables.fs), 6) && Assigned(Lengths(tables.fs), codes.fs, 6)
    && Longest(Lengths(tables.ds), 9) && Assigned(Lengths(tables.ds), codes.ds, 9)
    && Longest(tables.ids, longest) && Assigned(tables.ids, codes.ids, longest)
  }

  /** A token in its table; a value no line has is the error. */
  method PutToken(bw: Bits, l: Layout, tables: Tables, codes: Codes, longest: nat, t: Token) returns (ok: bool)
    requires bw.Valid() && TablesFor(l, tables) && CodesOf(tables, codes, longest) && Regular(l, t)
    modifies bw
    ensures bw.Valid() && (Fits(tables, t) ==> ok && bw.Stream() == old(bw.Stream()) + TokenBits(tables, t))
  {
    hide bw.Stream, bw.Valid, BitsOf, Code, Decodable, ValueBits, FirstHit, Offset, Pow2;
    ok := true;
    match t.kind
    case IT => bw.Put(t.value.value, tables.logStrips);
    case ID => bw.Put(codes.ids[t.value.value], tables.ids[t.value.value]);
    case DT =>
      ValueBitsFound(tables.dt, t.value);
      ok := PutValue(tables.dt, codes.dt, 7, bw, t.value);
    case FS =>
      ValueBitsFound(tables.fs, t.value);
      ok := PutValue(tables.fs, codes.fs, 6, bw, t.value);
    case DS =>
      ValueBitsFound(tables.ds, t.value);
      ok := PutValue(tables.ds, codes.ds, 9, bw, t.value);
  }

  /** The tokens one after another. */
  method PutTokens(bw: Bits, l: Layout, tables: Tables, codes: Codes, longest: nat, tokens: seq<Token>) returns (ok: bool)
    requires bw.Valid() && TablesFor(l, tables) && CodesOf(tables, codes, longest) && AllRegular(l, tokens)
    modifies bw
    ensures bw.Valid() && (AllFit(tables, tokens) ==> ok && bw.Stream() == old(bw.Stream()) + TokensBits(tables, tokens))
  {
    hide bw.Stream, bw.Valid, TablesFor, CodesOf, Fits, TokenBits, Regular;
    ghost var fit := AllFit(tables, tokens);
    ghost var goal := bw.Stream() + if fit then TokensBits(tables, tokens) else [];
    for i := 0 to |tokens|
      invariant bw.Valid()
      invariant fit ==> bw.Stream() + TokensBits(tables, tokens[i..]) == goal
    {
      assert Regular(l, tokens[i]) && (fit ==> Fits(tables, tokens[i]));
      assert tokens[i..][1..] == tokens[i + 1..];
      ok := PutToken(bw, l, tables, codes, longest, tokens[i]);
      if !ok {
        return;
      }
    }
    ok := true;
  }

  /**
   The Huffman form of `text_region`: the table of lengths and the region, or an error. A region of fewer than 5702887
   symbols and instances whose differences are in the ranges of the standard tables is coded, and decodes to its instances.
   */
  method CodeText(l: Layout, logStrips: nat, insts: seq<Inst>)
    returns (table: Bits, region: Bits, ok: bool, ghost strips: seq<Strip>)
    requires l.Valid() && l.strip == Pow2(logStrips) && AllKnown(l, insts)
    ensures StripsOk(l, strips) && multiset(Flat(strips)) == multiset(insts) && table.Valid() && region.Valid()
    ensures forall k, s :: At(l, Flat(strips), k, s) == At(l, insts, k, s)
    ensures |l.syms| + |insts| < 5_702_887 && AllInRange(RegionTokens(l, strips, 1)) ==>
              ok && forall more, rest ::
                      ReadText(table.Stream() + more, region.Stream() + rest, l, logStrips, |Flat(strips)|) == Some(Flat(strips))
  {
    hide *;
    var counts := CountSymbols(l, insts);
    var lens := HuffmanLengths.Lengths(counts);
    var placed := Strips(l, insts);
    strips := placed;
    table := new Bits();
    region := new Bits();
    ok := IdTable.PutTable(table, lens);
    assert ok ==> table.Stream() == IdTable.TableBits(lens).value;
    ghost var good := |l.syms| + |insts| < 5_702_887 && AllInRange(RegionTokens(l, strips, 1));
    if good {
      TextRoundTrip(l, strips, logStrips, counts, lens, [], []);
    }
    if !ok {
      return;
    }
    var tables := Tables(B11, B6, B8, logStrips, lens);
    LengthsLongest(counts, lens);
    var ids := Assign(lens, |counts| + 1);
    StandardTablesDecodable();
    var dt := Assign(Lengths(B11), 7);
    var fs := Assign(Lengths(B6), 6);
    var ds := Assign(Lengths(B8), 9);
    CompleteTables(l, logStrips, counts, lens);
    CodesAre(tables, Codes(dt, fs, ds, ids), |counts| + 1);
    var tokens := EmitRegion(l, placed, 1);
    RegionRegular(l, placed, 1);
    ok := PutTokens(region, l, tables, Codes(dt, fs, ds, ids), |counts| + 1, tokens);
    if good {
      assert region.Stream() == TokensBits(tables, tokens);
      forall more, rest
        ensures ReadText(table.Stream() + more, region.Stream() + rest, l, logStrips, |Flat(strips)|) == Some(Flat(strips))
      {
        TextRoundTrip(l, strips, logStrips, counts, lens, more, rest);
      }
    }
  }

  lemma LengthsLongest(counts: seq<nat>, lens: seq<nat>)
    requires HuffmanLengths.Complete(counts, lens)
    ensures Longest(lens, |counts| + 1)
  {
  }

  lemma CompleteTables(l: Layout, logStrips: nat, counts: seq<nat>, lens: seq<nat>)
    requires l.strip == Pow2(logStrips) && |counts| == |l.syms| && HuffmanLengths.Complete(counts, lens)
    ensures TablesFor(l, Tables(B11, B6, B8, logStrips, lens))
  {
    hide Decodable;
    CompleteDecodable(counts, lens);
  }

  lemma CodesAre(tables: Tables, codes: Codes, longest: nat)
    requires Longest(Lengths(tables.dt), 7) && Assigned(Lengths(tables.dt), codes.dt, 7)
    requires Longest(Lengths(tables.fs), 6) && Assigned(Lengths(tables.fs), codes.fs, 6)
    requires Longest(Lengths(tables.ds), 9) && Assigned(Lengths(tables.ds), codes.ds, 9)
    requires Longest(tables.ids, longest) && Assigned(tables.ids, codes.ids, longest)
    ensures CodesOf(tables, codes, longest)
  {
  }
}
