/**
 Text regions coded arithmetically or with Huffman tables (tools/pdf-make-jbig2-tests.py, `text_region`), and the
 decoding procedure of ITU-T T.88 section 6.4.5.
 */
module TextRegion {
  import opened Wrappers
  import opened ByteTypes
  import opened Powers
  import opened Mq
  import opened MqTape
  import opened BitStrings
  import opened IntegerCodes
  import opened CanonicalCodes
  import opened HuffmanTables
  import opened TextStrips
  import IdTable

  // ---- Two ways to code a token ---------------------------------------------------------------

  /** A context of the arithmetic coder: which procedure it belongs to, and its index there. */
  type Key = (TokenKind, nat)

  function ContextsOf(kind: TokenKind): nat -> Key {
    k => (kind, k)
  }

  datatype Tables = Tables(dt: seq<Line>, fs: seq<Line>, ds: seq<Line>, logStrips: nat, ids: seq<nat>)

  datatype Source = Arithmetic(tape: Tape<Key>, idLength: nat) | Huffman(bits: seq<Bit>, tables: Tables)

  /** The next token of a kind, and the source after it. */
  function ReadToken(src: Source, kind: TokenKind): Option<(Option<int>, Source)> {
    match src
    case Arithmetic(tape, len) =>
      if kind == ID then
        var (code, tape') := ReadId(tape, ContextsOf(ID), len);
        Some((Some(code), Arithmetic(tape', len)))
      else
        var (v, tape') := ReadInt(tape, ContextsOf(kind));
        Some((v, Arithmetic(tape', len)))
    case Huffman(bits, tables) =>
      match kind
      case IT =>
        if |bits| < tables.logStrips then None
        else Some((Some(Append(0, bits[..tables.logStrips])), Huffman(bits[tables.logStrips..], tables)))
      case ID =>
        (match ReadCode(tables.ids, bits, 0, 0)
         case None => None
         case Some((i, rest)) => Some((Some(i), Huffman(rest, tables))))
      case _ =>
        (match ReadValue(TableFor(tables, kind), bits)
         case None => None
         case Some((v, rest)) => Some((v, Huffman(rest, tables))))
  }

  function TableFor(tables: Tables, kind: TokenKind): seq<Line> {
    match kind case DT => tables.dt case FS => tables.fs case _ => tables.ds
  }

  /** Reading the kinds of the tokens, one after another, answers their values. */
  predicate Carries(src: Source, tokens: seq<Token>)
    decreases |tokens|
  {
    tokens == [] ||
    match ReadToken(src, tokens[0].kind)
    case None => false
    case Some((v, src')) => v == tokens[0].value && Carries(src', tokens[1..])
  }

  lemma CarriesNext(src: Source, t: Token, rest: seq<Token>)
    requires Carries(src, [t] + rest)
    ensures var r := ReadToken(src, t.kind);
            r.Some? && r.value.0 == t.value && Carries(r.value.1, rest)
  {
    hide ReadToken;
    assert ([t] + rest)[1..] == rest;
  }

  // ---- Decoding (6.4.5) -----------------------------------------------------------------------

  /** CURT and the symbol: nothing if the symbol cannot be. */
  function ReadPlace(src: Source, l: Layout): Option<(int, nat, Source)> {
    var it := if l.strip > 1 then ReadToken(src, IT) else Some((Some(0), src));
    if it.None? || it.value.0.None? then None
    else
      var id := ReadToken(it.value.1, ID);
      if id.None? || id.value.0.None? || !(0 <= id.value.0.value < |l.syms|) then None
      else Some((it.value.0.value, id.value.0.value, id.value.1))
  }

  /** Step 3c vi: what CURS takes on before the symbol is placed. */
  function AddedBefore(l: Layout, id: nat): int
    requires id < |l.syms|
  {
    var w, h := l.syms[id].w, l.syms[id].h;
    if !l.transposed then (match l.corner case TL => 0 case BL => 0 case TR => w - 1 case BR => w - 1)
    else (match l.corner case TL => 0 case TR => 0 case BL => h - 1 case BR => h - 1)
  }

  /** Step 3c x: and after. */
  function AddedAfter(l: Layout, id: nat): int
    requires id < |l.syms|
  {
    var w, h := l.syms[id].w, l.syms[id].h;
    if !l.transposed then (match l.corner case TL => w - 1 case BL => w - 1 case TR => 0 case BR => 0)
    else (match l.corner case TL => h - 1 case TR => h - 1 case BL => 0 case BR => 0)
  }

  /** Step 3c ix: the symbol drawn with its reference corner at a point. */
  function Drawn(corner: Corner, id: nat, sym: Sym, x: int, y: int): Inst {
    match corner
    case TL => Inst(id, x, y)
    case TR => Inst(id, x - (sym.w - 1), y)
    case BL => Inst(id, x, y - (sym.h - 1))
    case BR => Inst(id, x - (sym.w - 1), y - (sym.h - 1))
  }

  /** The point is (S, T), or (T, S) if transposed. */
  function PlacedAt(l: Layout, id: nat, s: int, t: int): Inst
    requires id < |l.syms|
  {
    if l.transposed then Drawn(l.corner, id, l.syms[id], t, s) else Drawn(l.corner, id, l.syms[id], s, t)
  }

  /** The instances of a strip from CURS on, until the end of the strip. */
  function ReadItems(src: Source, l: Layout, n: nat, done: seq<Inst>, stripT: int, cur: int): (r: Option<(seq<Inst>, Source)>)
    requires |done| < n
    ensures r.Some? ==> |r.value.0| > |done|
    decreases n - |done|
  {
    match ReadPlace(src, l)
    case None => None
    case Some((curT, id, src1)) =>
      var s := cur + AddedBefore(l, id);
      var done' := done + [PlacedAt(l, id, s, stripT + curT)];
      match ReadToken(src1, DS)
      case None => None
      case Some((None, src2)) => Some((done', src2))
      case Some((Some(ids), src2)) =>
        if |done'| >= n then None else ReadItems(src2, l, n, done', stripT, s + AddedAfter(l, id) + ids + l.dsOffset)
  }

  function ReadStrips(src: Source, l: Layout, n: nat, done: seq<Inst>, stripT: int, firsts: int): Option<seq<Inst>>
    decreases n - |done|
  {
    if |done| >= n then Some(done)
    else
      var dt := ReadToken(src, DT);
      if dt.None? || dt.value.0.None? then None
      else
        var fs := ReadToken(dt.value.1, FS);
        if fs.None? || fs.value.0.None? then None
        else
          var stripT', firsts' := stripT + dt.value.0.value * l.strip, firsts + fs.value.0.value;
          match ReadItems(fs.value.1, l, n, done, stripT', firsts')
          case None => None
          case Some((done', src')) => ReadStrips(src', l, n, done', stripT', firsts')
  }

  function ReadRegion(src: Source, l: Layout, n: nat): Option<seq<Inst>> {
    var dt := ReadToken(src, DT);
    if dt.None? || dt.value.0.None? then None
    else ReadStrips(dt.value.1, l, n, [], -(dt.value.0.value * l.strip), 0)
  }

  // ---- The round trip, for any source ---------------------------------------------------------

  /** An instance is placed again from its reference corner. */
  lemma PlacedBack(l: Layout, it: Inst)
    requires l.Valid() && l.Knows(it)
    ensures PlacedAt(l, it.id, l.S0(it) + AddedBefore(l, it.id), l.StripOf(it) * l.strip + l.CurT(it)) == it
    ensures AddedBefore(l, it.id) + AddedAfter(l, it.id) == l.Extent(it.id) - 1
  {
    assert l.T(it) == l.StripOf(it) * l.strip + l.CurT(it);
  }

  lemma ReadPlaceBack(src: Source, l: Layout, it: Inst, rest: seq<Token>)
    requires l.Valid() && l.Knows(it) && Carries(src, PlaceTokens(l, it) + rest)
    ensures var r := ReadPlace(src, l);
            r.Some? && r.value.0 == l.CurT(it) && r.value.1 == it.id && Carries(r.value.2, rest)
  {
    hide ReadToken, Carries, l.T;
    var id := Token(ID, Some(it.id));
    if l.strip > 1 {
      var t := Token(IT, Some(l.CurT(it)));
      assert PlaceTokens(l, it) + rest == [t] + ([id] + rest);
      CarriesNext(src, t, [id] + rest);
      CarriesNext(ReadToken(src, IT).value.1, id, rest);
    } else {
      assert PlaceTokens(l, it) + rest == [id] + rest;
      CarriesNext(src, id, rest);
    }
  }

  /** The tokens from an instance on to the end of its strip, and what follows. */
  function FromItem(l: Layout, items: seq<Inst>, rest: seq<Token>): seq<Token>
    requires l.Valid() && AllKnown(l, items) && items != []
  {
    PlaceTokens(l, items[0]) + (RestTokens(l, items[1..], l.S0(items[0]) + l.Extent(items[0].id) - 1) + rest)
  }

  lemma RestParts(l: Layout, items: seq<Inst>, rest: seq<Token>)
    requires l.Valid() && AllKnown(l, items) && items != []
    ensures var end := l.S0(items[0]) + l.Extent(items[0].id) - 1;
            RestTokens(l, items[1..], end) + rest
            == if |items| == 1 then [Token(DS, None)] + rest
               else [Token(DS, Some(l.S0(items[1]) - end - l.dsOffset))] + FromItem(l, items[1..], rest)
  {
    hide PlaceTokens;
    if |items| > 1 {
      assert items[1..][1..] == items[2..];
    }
  }

  lemma {:induction false} ReadItemsBack(src: Source, l: Layout, n: nat, done: seq<Inst>, k: int, items: seq<Inst>, rest: seq<Token>)
    requires l.Valid() && items != [] && AllKnown(l, items) && |done| + |items| <= n
    requires forall i :: 0 <= i < |items| ==> l.StripOf(items[i]) == k
    requires Carries(src, FromItem(l, items, rest))
    ensures var r := ReadItems(src, l, n, done, k * l.strip, l.S0(items[0]));
            r.Some? && r.value.0 == done + items && Carries(r.value.1, rest)
    decreases |items|
  {
    hide ReadToken, Carries, ReadPlace, ReadItems, PlaceTokens, RestTokens, FromItem, l.T, l.CurT, l.StripOf, l.S0, l.Extent,
         PlacedAt, AddedBefore, AddedAfter;
    var it := items[0];
    var end := l.S0(it) + l.Extent(it.id) - 1;
    FromItemParts(l, items, rest);
    ReadPlaceBack(src, l, it, RestTokens(l, items[1..], end) + rest);
    PlacedBack(l, it);
    RestParts(l, items, rest);
    var place := ReadPlace(src, l).value;
    ReadItemsParts(src, l, n, done, k * l.strip, l.S0(it));
    assert items == [it] + items[1..];
    if |items| == 1 {
      CarriesNext(place.2, Token(DS, None), rest);
    } else {
      var t := Token(DS, Some(l.S0(items[1]) - end - l.dsOffset));
      CarriesNext(place.2, t, FromItem(l, items[1..], rest));
      ReadItemsBack(ReadToken(place.2, DS).value.1, l, n, done + [it], k, items[1..], rest);
      assert done + [it] + items[1..] == done + items;
    }
  }

  lemma FromItemParts(l: Layout, items: seq<Inst>, rest: seq<Token>)
    requires l.Valid() && items != [] && AllKnown(l, items)
    ensures AllKnown(l, items[1..]) && l.Knows(items[0])
    ensures FromItem(l, items, rest)
         == PlaceTokens(l, items[0]) + (RestTokens(l, items[1..], l.S0(items[0]) + l.Extent(items[0].id) - 1) + rest)
  {
    hide PlaceTokens, RestTokens, l.S0, l.Extent;
  }

  lemma ReadItemsParts(src: Source, l: Layout, n: nat, done: seq<Inst>, stripT: int, cur: int)
    requires |done| < n && ReadPlace(src, l).Some?
    ensures var (curT, id, src1) := ReadPlace(src, l).value;
            var s := cur + AddedBefore(l, id);
            var done' := done + [PlacedAt(l, id, s, stripT + curT)];
            var ds, r := ReadToken(src1, DS), ReadItems(src, l, n, done, stripT, cur);
            && (ds.Some? && ds.value.0.None? ==> r == Some((done', ds.value.1)))
            && (ds.Some? && ds.value.0.Some? && |done'| < n ==>
                  r == ReadItems(ds.value.1, l, n, done', stripT, s + AddedAfter(l, id) + ds.value.0.value + l.dsOffset))
  {
    hide ReadPlace, ReadToken, PlacedAt, AddedBefore, AddedAfter;
  }

  /** The two tokens a strip starts with. */
  lemma StripHead(src: Source, l: Layout, strips: seq<Strip>, k: int, firsts: int) returns (src': Source)
    requires l.Valid() && StripsOk(l, strips) && strips != [] && Carries(src, StripsTokens(l, strips, k, firsts))
    ensures StripOk(l, strips[0]) && StripsOk(l, strips[1..])
    ensures var dt := ReadToken(src, DT);
            dt.Some? && dt.value.0 == Some(strips[0].k - k)
            && ReadToken(dt.value.1, FS) == Some((Some(l.S0(strips[0].items[0]) - firsts), src'))
    ensures Carries(src', FromItem(l, strips[0].items, StripsTokens(l, strips[1..], strips[0].k, l.S0(strips[0].items[0]))))
  {
    hide ReadToken, Carries, PlaceTokens, RestTokens, StripsOk, l.T, l.StripOf, l.S0, l.Extent;
    StripsCons(l, strips);
    var s := strips[0];
    var dt, fs := Token(DT, Some(s.k - k)), Token(FS, Some(l.S0(s.items[0]) - firsts));
    var body := FromItem(l, s.items, StripsTokens(l, strips[1..], s.k, l.S0(s.items[0])));
    assert StripsTokens(l, strips, k, firsts) == [dt] + ([fs] + body);
    CarriesNext(src, dt, [fs] + body);
    CarriesNext(ReadToken(src, DT).value.1, fs, body);
    src' := ReadToken(ReadToken(src, DT).value.1, FS).value.1;
  }

  lemma ReadStripsStep(src: Source, l: Layout, n: nat, done: seq<Inst>, stripT: int, firsts: int, dt: int, fs: int, src1: Source,
                       src2: Source, more: seq<Inst>, src3: Source)
    requires |done| < n && ReadToken(src, DT) == Some((Some(dt), src1)) && ReadToken(src1, FS) == Some((Some(fs), src2))
    requires ReadItems(src2, l, n, done, stripT + dt * l.strip, firsts + fs) == Some((more, src3))
    ensures ReadStrips(src, l, n, done, stripT, firsts)
         == ReadStrips(src3, l, n, more, stripT + dt * l.strip, firsts + fs)
  {
    hide ReadToken, ReadItems;
  }

  lemma ReadNoStrips(src: Source, l: Layout, done: seq<Inst>, stripT: int, firsts: int)
    ensures ReadStrips(src, l, |done|, done, stripT, firsts) == Some(done)
  {
  }

  lemma {:induction false} ReadStripsBack(src: Source, l: Layout, done: seq<Inst>, strips: seq<Strip>, k: int, firsts: int)
    requires l.Valid() && StripsOk(l, strips) && Carries(src, StripsTokens(l, strips, k, firsts))
    ensures ReadStrips(src, l, |done| + |Flat(strips)|, done, k * l.strip, firsts) == Some(done + Flat(strips))
    decreases |strips|
  {
    hide ReadToken, Carries, ReadItems, FromItem, StripsTokens, l.T, l.StripOf, StripsOk, Flat, l.S0, ReadStrips;
    if strips == [] {
      NoStrips(l);
      ReadNoStrips(src, l, done, k * l.strip, firsts);
      assert done + Flat(strips) == done;
    } else {
      StripsCons(l, strips);
      var s := strips[0];
      var n, first := |done| + |Flat(strips)|, l.S0(s.items[0]);
      var src2 := StripHead(src, l, strips, k, firsts);
      var src1 := ReadToken(src, DT).value.1;
      ReadItemsBack(src2, l, n, done, s.k, s.items, StripsTokens(l, strips[1..], s.k, first));
      var src3 := ReadItems(src2, l, n, done, s.k * l.strip, first).value.1;
      MulDistribute(k, s.k - k, l.strip);
      ReadStripsStep(src, l, n, done, k * l.strip, firsts, s.k - k, first - firsts, src1, src2, done + s.items, src3);
      ReadStripsBack(src3, l, done + s.items, strips[1..], s.k, first);
      assert done + s.items + Flat(strips[1..]) == done + Flat(strips);
    }
  }

  /** A source that carries a region's tokens decodes to the region's instances, each once, in the strips' order. */
  lemma ReadRegionBack(src: Source, l: Layout, strips: seq<Strip>, init: nat)
    requires l.Valid() && StripsOk(l, strips) && Carries(src, RegionTokens(l, strips, init))
    ensures ReadRegion(src, l, |Flat(strips)|) == Some(Flat(strips))
  {
    hide ReadToken, Carries, ReadStrips, StripsTokens, StripsOk, Flat;
    var t := Token(DT, Some(init));
    CarriesNext(src, t, StripsTokens(l, strips, 0 - init as int, 0));
    ReadStripsBack(ReadToken(src, DT).value.1, l, [], strips, 0 - init as int, 0);
    MulDistribute(0 - init as int, init, l.strip);
    assert [] + Flat(strips) == Flat(strips);
  }

  // ---- Tokens in the arithmetic coder ---------------------------------------------------------

  /** Symbols are identifiers of the code length, everything else is an integer. */
  predicate Codes(len: nat, t: Token) {
    if t.kind == ID then t.value.Some? && 0 <= t.value.value < Pow2(len) else Codable(t.value)
  }

  function TokenEvents(len: nat, t: Token): seq<Event<Key>> {
    if t.kind != ID then IntEvents(ContextsOf(t.kind), t.value)
    else IdEvents(ContextsOf(ID), len, if t.value.Some? && t.value.value >= 0 then t.value.value else 0)
  }

  function TokensEvents(len: nat, tokens: seq<Token>): seq<Event<Key>>
    decreases |tokens|
  {
    if tokens == [] then [] else TokenEvents(len, tokens[0]) + TokensEvents(len, tokens[1..])
  }

  lemma ReadTokenBack(tape: Tape<Key>, len: nat, t: Token, rest: seq<Event<Key>>)
    requires Codes(len, t) && Plays(tape, TokenEvents(len, t) + rest)
    ensures var r := ReadToken(Arithmetic(tape, len), t.kind);
            r.Some? && r.value.0 == t.value && r.value.1.Arithmetic? && r.value.1.idLength == len
            && Plays(r.value.1.tape, rest)
  {
    hide Plays, IntEvents, IdEvents, ReadId, ReadInt, Kept, Codable, Pow2;
    if t.kind == ID {
      ReadIdBack(tape, ContextsOf(ID), len, t.value.value, rest);
    } else {
      ReadIntBack(tape, ContextsOf(t.kind), t.value, rest);
      KeptExactly(t.value);
    }
  }

  lemma {:induction false} ArithmeticCarries(tape: Tape<Key>, len: nat, tokens: seq<Token>, rest: seq<Event<Key>>)
    requires forall i :: 0 <= i < |tokens| ==> Codes(len, tokens[i])
    requires Plays(tape, TokensEvents(len, tokens) + rest)
    ensures Carries(Arithmetic(tape, len), tokens)
    decreases |tokens|
  {
    hide Plays, TokenEvents, ReadToken, Codes;
    if tokens != [] {
      var below := TokensEvents(len, tokens[1..]) + rest;
      assert TokensEvents(len, tokens) + rest == TokenEvents(len, tokens[0]) + below;
      ReadTokenBack(tape, len, tokens[0], below);
      ArithmeticCarries(ReadToken(Arithmetic(tape, len), tokens[0].kind).value.1.tape, len, tokens[1..], rest);
    }
  }

  function KeysOf(kind: TokenKind, n: nat): set<Key> {
    set k | k in IdTable.Numbers(n) :: (kind, k)
  }

  /** Fresh contexts: 512 for each integer procedure, and those of the identifiers. */
  function Contexts(len: nat): map<Key, Cell> {
    var keys := KeysOf(DT, 512) + KeysOf(FS, 512) + KeysOf(DS, 512) + KeysOf(IT, 512) + KeysOf(ID, Pow2(len + 1));
    map key | key in keys :: Cell(0, 0)
  }

  lemma ContextsExactly(len: nat, kind: TokenKind, k: nat)
    ensures (kind, k) in Contexts(len) <==> k < if kind == ID then Pow2(len + 1) else 512
    ensures (kind, k) in Contexts(len) ==> Contexts(len)[(kind, k)] == Cell(0, 0)
  {
    hide Pow2, KeysOf;
    KeyExactly(DT, 512, kind, k);
    KeyExactly(FS, 512, kind, k);
    KeyExactly(DS, 512, kind, k);
    KeyExactly(IT, 512, kind, k);
    KeyExactly(ID, Pow2(len + 1), kind, k);
  }

  lemma KeyExactly(of: TokenKind, n: nat, kind: TokenKind, k: nat)
    ensures (kind, k) in KeysOf(of, n) <==> kind == of && k < n
  {
  }

  lemma KeyIn(len: nat, kind: TokenKind, k: nat)
    requires k < if kind == ID then Pow2(len + 1) else 512
    ensures ContextsOf(kind)(k) in Contexts(len)
  {
    hide Pow2, KeysOf, ContextsOf;
    KeyThere(kind, k, if kind == ID then Pow2(len + 1) else 512);
  }

  lemma KeyThere(kind: TokenKind, k: nat, n: nat)
    requires k < n
    ensures ContextsOf(kind)(k) in KeysOf(kind, n)
  {
    assert (kind, k) in KeysOf(kind, n);
  }

  lemma {:induction false} TokensKeys(len: nat, tokens: seq<Token>)
    ensures KeysIn(TokensEvents(len, tokens), Contexts(len))
    decreases |tokens|
  {
    hide IntEvents, IdEvents, Contexts, ContextsOf, Pow2;
    if tokens != [] {
      var t := tokens[0];
      TokenKeys(len, t);
      TokensKeys(len, tokens[1..]);
    }
  }

  lemma TokenKeys(len: nat, t: Token)
    ensures KeysIn(TokenEvents(len, t), Contexts(len))
  {
    hide BitEvents, Contexts, ContextsOf;
    forall k: nat | k < if t.kind == ID then Pow2(len + 1) else 512
      ensures ContextsOf(t.kind)(k) in Contexts(len)
    {
      KeyIn(len, t.kind, k);
    }
    if t.kind == ID {
      var code := if t.value.Some? && t.value.value >= 0 then t.value.value else 0;
      IdKeys(1, BitsOf(code, len), Pow2(len + 1));
      PrevKeys(ContextsOf(ID), IdNext, 1, BitsOf(code, len), Pow2(len + 1), Contexts(len));
    } else {
      IntKeys(1, IntBits(t.value));
      PrevKeys(ContextsOf(t.kind), IntNext, 1, IntBits(t.value), 512, Contexts(len));
    }
  }

  /** A region coded arithmetically is decoded to its instances. */
  lemma ArithmeticRoundTrip(l: Layout, strips: seq<Strip>, len: nat)
    requires l.Valid() && StripsOk(l, strips)
    requires forall i :: 0 <= i < |RegionTokens(l, strips, 0)| ==> Codes(len, RegionTokens(l, strips, 0)[i])
    ensures var e := Encode(Coder(START, Contexts(len)), TokensEvents(len, RegionTokens(l, strips, 0))).enc;
            && Ready(e)
            && ReadRegion(Arithmetic(Open(Flush(e), Contexts(len)), len), l, |Flat(strips)|) == Some(Flat(strips))
  {
    hide Plays, TokensEvents, Codes, Contexts, ReadRegion, Carries, Flat, StripsOk, RegionTokens, Open, Flush, Encode, NoMarker;
    var tokens := RegionTokens(l, strips, 0);
    var events := TokensEvents(len, tokens);
    TokensKeys(len, tokens);
    RoundTrip(Contexts(len), events);
    var tape := Open(Flush(Encode(Coder(START, Contexts(len)), events).enc), Contexts(len));
    assert events + [] == events;
    ArithmeticCarries(tape, len, tokens, []);
    ReadRegionBack(Arithmetic(tape, len), l, strips, 0);
  }

  // ---- Tokens in Huffman codes ----------------------------------------------------------------

  /** A token the tables have room for. */
  predicate Fits(tables: Tables, t: Token) {
    match t.kind
    case IT => t.value.Some? && 0 <= t.value.value < Pow2(tables.logStrips)
    case ID => t.value.Some? && 0 <= t.value.value < |tables.ids| && tables.ids[t.value.value] > 0
    case _ =>
      var lines := TableFor(tables, t.kind);
      var hit := FirstHit(lines, t.value, 0);
      hit.Some? && (t.value.Some? ==> Offset(lines[hit.value], t.value) < Pow2(lines[hit.value].rlen))
  }

  function TokenBits(tables: Tables, t: Token): seq<Bit>
    requires Fits(tables, t)
  {
    match t.kind
    case IT => BitsOf(t.value.value, tables.logStrips)
    case ID => BitsOf(Code(tables.ids, t.value.value), tables.ids[t.value.value])
    case _ => ValueBits(TableFor(tables, t.kind), t.value).value
  }

  predicate AllFit(tables: Tables, tokens: seq<Token>) {
    forall i :: 0 <= i < |tokens| ==> Fits(tables, tokens[i])
  }

  function TokensBits(tables: Tables, tokens: seq<Token>): seq<Bit>
    requires AllFit(tables, tokens)
    decreases |tokens|
  {
    if tokens == [] then [] else TokenBits(tables, tokens[0]) + TokensBits(tables, tokens[1..])
  }

  /** Every table can be told apart code by code. */
  ghost predicate Readable(tables: Tables) {
    && Decodable(Lengths(tables.dt)) && Decodable(Lengths(tables.fs)) && Decodable(Lengths(tables.ds))
    && Decodable(tables.ids)
  }

  lemma ReadHuffmanBack(tables: Tables, t: Token, rest: seq<Bit>)
    requires Readable(tables) && Fits(tables, t)
    ensures ReadToken(Huffman(TokenBits(tables, t) + rest, tables), t.kind) == Some((t.value, Huffman(rest, tables)))
  {
    hide Decodable, Code, ReadCode, BitsOf, Append, ReadValue, ValueBits, FirstHit, Offset, Pow2, Lengths;
    match t.kind
    case IT =>
      var bits := BitsOf(t.value.value, tables.logStrips);
      AppendBits(0, t.value.value, tables.logStrips);
      DivModUnique(t.value.value, 0, t.value.value, Pow2(tables.logStrips));
      assert (bits + rest)[..tables.logStrips] == bits && (bits + rest)[tables.logStrips..] == rest;
    case ID =>
      ReadWholeCode(tables.ids, t.value.value, rest);
    case _ =>
      ValueBitsFound(TableFor(tables, t.kind), t.value);
      ReadValueBack(TableFor(tables, t.kind), t.value, rest);
  }

  lemma ValueBitsFound(lines: seq<Line>, v: Option<int>)
    ensures ValueBits(lines, v).Some? <==> FirstHit(lines, v, 0).Some?
  {
  }

  lemma {:induction false} HuffmanCarries(tables: Tables, tokens: seq<Token>, rest: seq<Bit>)
    requires Readable(tables) && AllFit(tables, tokens)
    ensures Carries(Huffman(TokensBits(tables, tokens) + rest, tables), tokens)
    decreases |tokens|
  {
    hide Readable, Fits, TokenBits, ReadToken;
    if tokens != [] {
      var below := TokensBits(tables, tokens[1..]) + rest;
      assert TokensBits(tables, tokens) + rest == TokenBits(tables, tokens[0]) + below;
      ReadHuffmanBack(tables, tokens[0], below);
      HuffmanCarries(tables, tokens[1..], rest);
    }
  }

  /** A region coded with Huffman tables is decoded to its instances. */
  lemma HuffmanRoundTrip(l: Layout, strips: seq<Strip>, tables: Tables, rest: seq<Bit>)
    requires l.Valid() && StripsOk(l, strips) && Readable(tables) && AllFit(tables, RegionTokens(l, strips, 1))
    ensures ReadRegion(Huffman(TokensBits(tables, RegionTokens(l, strips, 1)) + rest, tables), l, |Flat(strips)|)
         == Some(Flat(strips))
  {
    hide Readable, AllFit, Carries, ReadRegion, RegionTokens, TokensBits, StripsOk;
    HuffmanCarries(tables, RegionTokens(l, strips, 1), rest);
    ReadRegionBack(Huffman(TokensBits(tables, RegionTokens(l, strips, 1)) + rest, tables), l, strips, 1);
  }
}
