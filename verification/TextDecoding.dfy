/**
 TextDecoder.decode (src/bindings/Binary.cpp) as a function of the decoder object: what becomes of the items, what the
 object keeps between calls, and the theorems over whole streams of calls.
 */
module TextDecoding {
  import opened Wrappers
  import opened ByteTypes
  import opened Utf8
  import opened TextItems
  import opened Utf8Exact
  import opened Utf16Exact

  /** What the constructor fixes. */
  datatype Config = Config(encoding: Encoding, fatal: bool, ignoreBom: bool) {
    /** Whether a first byte order mark is left out. */
    predicate SkipsBom() { !SingleByte(encoding) && !ignoreBom }
  }

  datatype Outcome = Thrown | Text(bomSeen: bool, units: seq<Unit>)

  function CodeOf(i: Item): nat { if i.Good? then i.c else 0xFFFD }

  /** What one item writes, a first byte order mark nothing. */
  function Written(cfg: Config, bomSeen: bool, i: Item): seq<Unit> {
    if cfg.SkipsBom() && !bomSeen && CodeOf(i) == 0xFEFF then [] else Units(CodeOf(i))
  }

  function Before(units: seq<Unit>, o: Outcome): Outcome {
    if o.Thrown? then Thrown else Text(o.bomSeen, units + o.units)
  }

  /** The items in turn: written, or the first error thrown. */
  function Emit(cfg: Config, bomSeen: bool, items: seq<Item>): Outcome
    decreases |items|
  {
    if items == [] then Text(bomSeen, [])
    else if cfg.fatal && items[0].Bad? then Thrown
    else Before(Written(cfg, bomSeen, items[0]), Emit(cfg, bomSeen || cfg.SkipsBom(), items[1..]))
  }

  lemma {:induction false} EmitConcat(cfg: Config, bomSeen: bool, a: seq<Item>, b: seq<Item>)
    ensures var o := Emit(cfg, bomSeen, a);
            Emit(cfg, bomSeen, a + b) == if o.Thrown? then Thrown else Before(o.units, Emit(cfg, o.bomSeen, b))
    decreases |a|
  {
    hide Written;
    if a == [] {
      assert a + b == b;
    } else {
      assert (a + b)[1..] == a[1..] + b && (a + b)[0] == a[0];
      var now := bomSeen || cfg.SkipsBom();
      EmitConcat(cfg, now, a[1..], b);
      var o, t := Emit(cfg, now, a[1..]), Emit(cfg, bomSeen, a);
      if o.Text? && t.Text? {
        var w, rest := Written(cfg, bomSeen, a[0]), Emit(cfg, o.bomSeen, b);
        assert t.units == w + o.units;
        assert rest.Text? ==> w + (o.units + rest.units) == t.units + rest.units;
      }
    }
  }

  function AllUnits(items: seq<Item>): seq<Unit>
    decreases |items|
  {
    if items == [] then [] else Units(CodeOf(items[0])) + AllUnits(items[1..])
  }

  /** Whether the items begin with a byte order mark that is left out. */
  predicate BomFirst(cfg: Config, bomSeen: bool, items: seq<Item>) {
    cfg.SkipsBom() && !bomSeen && items != [] && CodeOf(items[0]) == 0xFEFF
  }

  /** All that is emitted: one byte order mark at the very start is skipped and no other, and fatal means no error at all. */
  lemma {:induction false} EmitsAll(cfg: Config, bomSeen: bool, items: seq<Item>)
    ensures Emit(cfg, bomSeen, items)
         == if cfg.fatal && Bad in items then Thrown
            else Text(bomSeen || (cfg.SkipsBom() && items != []),
                      AllUnits(if BomFirst(cfg, bomSeen, items) then items[1..] else items))
    decreases |items|
  {
    hide Units;
    if items != [] {
      var now := bomSeen || cfg.SkipsBom();
      EmitsAll(cfg, now, items[1..]);
      assert items == [items[0]] + items[1..];
      assert !BomFirst(cfg, now, items[1..]);
    }
  }

  /** What the object keeps between calls. */
  datatype Decoder = Decoder(doNotFlush: bool, bomSeen: bool, state: State)

  const Reset: Decoder := Decoder(false, false, Fresh)

  /** A call's effect: the object after it, and the string answered, or None for a TypeError. */
  datatype Answer = Answer(decoder: Decoder, text: Option<seq<Unit>>)

  /** The object as a call begins: reset unless the last call streamed. */
  function Opened(d: Decoder): Decoder {
    if d.doNotFlush then d else Reset
  }

  /** The bytes of one call, and the end of input unless it streams. */
  function CallItems(e: Encoding, st: State, bytes: seq<Byte>, stream: bool): Moved {
    var r := Run(e, st, bytes);
    if stream then r else Moved(End(e, r.state).state, Items(e, st, bytes))
  }

  function Decode(cfg: Config, d: Decoder, bytes: seq<Byte>, stream: bool): Answer {
    var o := Opened(d);
    var r := CallItems(cfg.encoding, o.state, bytes, stream);
    match Emit(cfg, o.bomSeen, r.items)
    case Thrown => Answer(Reset, None)
    case Text(bom, units) => Answer(Decoder(stream, bom, r.state), Some(units))
  }

  function Flat(chunks: seq<seq<Byte>>): seq<Byte>
    decreases |chunks|
  {
    if chunks == [] then [] else chunks[0] + Flat(chunks[1..])
  }

  /** A streamed input: every call but the last streams, and the first that throws ends it. The strings are joined. */
  function Stream(cfg: Config, d: Decoder, chunks: seq<seq<Byte>>): Answer
    requires chunks != []
    decreases |chunks|
  {
    if |chunks| == 1 then Decode(cfg, d, chunks[0], false)
    else
      var a := Decode(cfg, d, chunks[0], true);
      if a.text.None? then a
      else
        var b := Stream(cfg, a.decoder, chunks[1..]);
        if b.text.None? then b else Answer(b.decoder, Some(a.text.value + b.text.value))
  }

  lemma FlushedItems(e: Encoding, st: State, a: seq<Byte>)
    ensures var r := Run(e, st, a);
            CallItems(e, st, a, false) == Moved(End(e, r.state).state, r.items + End(e, r.state).items)
  {
    hide Run, End;
  }

  lemma CallsConcat(e: Encoding, st: State, a: seq<Byte>, b: seq<Byte>)
    ensures var r := Run(e, st, a);
            var s := CallItems(e, r.state, b, false);
            CallItems(e, st, a + b, false) == Moved(s.state, r.items + s.items)
  {
    hide *;
    RunConcat(e, st, a, b);
    var r := Run(e, st, a);
    var s := Run(e, r.state, b);
    FlushedItems(e, st, a + b);
    FlushedItems(e, r.state, b);
    assert (r.items + s.items) + End(e, s.state).items == r.items + (s.items + End(e, s.state).items);
  }

  /** Two calls and one. */
  lemma SplitOnce(cfg: Config, d: Decoder, a: seq<Byte>, b: seq<Byte>)
    ensures Stream(cfg, d, [a, b]) == Decode(cfg, d, a + b, false)
  {
    hide CallItems, Emit, Run;
    var o := Opened(d);
    var r := Run(cfg.encoding, o.state, a);
    CallsConcat(cfg.encoding, o.state, a, b);
    assert CallItems(cfg.encoding, o.state, a, true) == r by {
      StreamedItems(cfg.encoding, o.state, a);
    }
    EmitConcat(cfg, o.bomSeen, r.items, CallItems(cfg.encoding, r.state, b, false).items);
    StreamTwo(cfg, d, a, b);
  }

  lemma StreamedItems(e: Encoding, st: State, a: seq<Byte>)
    ensures CallItems(e, st, a, true) == Run(e, st, a)
  {
    hide Run;
  }

  lemma StreamTwo(cfg: Config, d: Decoder, a: seq<Byte>, b: seq<Byte>)
    ensures var x := Decode(cfg, d, a, true);
            var y := Decode(cfg, x.decoder, b, false);
            var joined := if x.text.None? then x else if y.text.None? then y
                          else Answer(y.decoder, Some(x.text.value + y.text.value));
            Stream(cfg, d, [a, b]) == joined
  {
    hide Decode;
    assert [a, b][1..] == [b];
  }

  /**
   Streaming does not depend on the chunks: however the bytes are split, over any number of calls and from whatever an
   earlier stream left, the strings joined are the string of one call on all the bytes, some call throws exactly when
   that one does, and the object is left the same.
   */
  lemma {:induction false} ChunkingIndependent(cfg: Config, d: Decoder, chunks: seq<seq<Byte>>)
    requires chunks != []
    ensures Stream(cfg, d, chunks) == Decode(cfg, d, Flat(chunks), false)
    decreases |chunks|
  {
    hide Decode;
    if |chunks| == 1 {
      assert Flat(chunks[1..]) == [] && Flat(chunks) == chunks[0];
    } else {
      var a, rest := chunks[0], chunks[1..];
      SplitOnce(cfg, d, a, Flat(rest));
      StreamTwo(cfg, d, a, Flat(rest));
      ChunkingIndependent(cfg, Decode(cfg, d, a, true).decoder, rest);
    }
  }

  /** The items less the byte order mark they may begin with. */
  function Kept(cfg: Config, items: seq<Item>): seq<Item> {
    if BomFirst(cfg, false, items) then items[1..] else items
  }

  /** One call on a whole input, in full: the items as they are written, for any decoder that is not amid a stream. */
  lemma WholeCall(cfg: Config, d: Decoder, bytes: seq<Byte>)
    requires !d.doNotFlush
    ensures var items := Items(cfg.encoding, Fresh, bytes);
            Decode(cfg, d, bytes, false).text == if cfg.fatal && Bad in items then None else Some(AllUnits(Kept(cfg, items)))
  {
    hide Items, AllUnits, Emit, BomFirst, Run, End;
    EmitsAll(cfg, false, Items(cfg.encoding, Fresh, bytes));
  }

  /** The 16-bit units an item is read as: an error as U+FFFD, a code point above 0xFFFF as a surrogate pair. */
  function Read(i: Item): seq<Unit> {
    match i
    case Bad => [0xFFFD]
    case Good(c) =>
      if c <= 0xFFFF then [c]
      else if c <= 0x10FFFF then [0xD800 + (c - 0x1_0000) / 1024, 0xDC00 + (c - 0x1_0000) % 1024]
      else []
  }

  function ReadAll(items: seq<Item>): seq<Unit>
    decreases |items|
  {
    if items == [] then [] else Read(items[0]) + ReadAll(items[1..])
  }

  lemma {:induction false} ReadsUnits(items: seq<Item>)
    requires forall i :: 0 <= i < |items| && items[i].Good? ==> items[i].c <= 0x10FFFF
    ensures AllUnits(items) == ReadAll(items)
    decreases |items|
  {
    if items != [] {
      assert Units(CodeOf(items[0])) == Read(items[0]);
      ReadsUnits(items[1..]);
    }
  }

  /** What a whole input comes to whose items are these: a byte order mark at its start left out where it is to be. */
  lemma WholeReads(cfg: Config, items: seq<Item>)
    requires forall i :: 0 <= i < |items| && items[i].Good? ==> items[i].c <= 0x10FFFF
    ensures AllUnits(Kept(cfg, items))
         == ReadAll(if !SingleByte(cfg.encoding) && !cfg.ignoreBom && items != [] && items[0] == Good(0xFEFF) then items[1..] else items)
  {
    ReadsUnits(Kept(cfg, items));
    hide AllUnits, ReadAll, Read;
  }

  /**
   What UTF-8 decodes to: in fatal mode a text exactly when the bytes are UTF-8, and otherwise always; the code points
   are those of the rule, U+FFFD for each maximal subpart that is ill-formed, less a first U+FEFF unless it is to be kept.
   */
  lemma Utf8Exactly(cfg: Config, d: Decoder, bytes: seq<Byte>)
    requires cfg.encoding.Utf8? && !d.doNotFlush
    ensures var m := Maximal(bytes);
            Decode(cfg, d, bytes, false).text
            == if cfg.fatal && !IsText(bytes) then None
               else Some(ReadAll(if !cfg.ignoreBom && m != [] && m[0] == Good(0xFEFF) then m[1..] else m))
  {
    hide Decode, Items, Maximal, IsText, AllUnits, Kept, ReadAll, IsScalar;
    WholeCall(cfg, d, bytes);
    DecodesMaximal(Fresh, bytes);
    NoErrorIffText(bytes);
    var m := Maximal(bytes);
    forall i | 0 <= i < |m| && m[i].Good?
      ensures m[i].c <= 0x10FFFF
    {
      ScalarsOnly(bytes, i);
      ScalarSize(m[i].c);
    }
    WholeReads(cfg, m);
  }

  lemma ScalarSize(c: nat)
    requires IsScalar(c)
    ensures c <= 0x10FFFF
  {
  }

  /** What UTF-16 decodes to. */
  lemma Utf16Exactly(cfg: Config, d: Decoder, bytes: seq<Byte>)
    requires (cfg.encoding.Utf16Le? || cfg.encoding.Utf16Be?) && !d.doNotFlush
    ensures var little := cfg.encoding.Utf16Le?;
            var m := Rule16(little, bytes);
            Decode(cfg, d, bytes, false).text
            == if cfg.fatal && !IsText16(little, bytes) then None
               else Some(ReadAll(if !cfg.ignoreBom && m != [] && m[0] == Good(0xFEFF) then m[1..] else m))
  {
    hide Decode, Items, Rule16, IsText16, AllUnits, Kept, ReadAll, IsScalar;
    var little := cfg.encoding.Utf16Le?;
    WholeCall(cfg, d, bytes);
    DecodesRule16(little, Fresh, bytes);
    NoErrorIffText16(little, bytes);
    var m := Rule16(little, bytes);
    forall i | 0 <= i < |m| && m[i].Good?
      ensures m[i].c <= 0x10FFFF
    {
      ScalarsOnly16(little, bytes, i);
      ScalarSize(m[i].c);
    }
    WholeReads(cfg, m);
  }

  lemma SingleIs(e: Encoding, b: Byte)
    requires SingleByte(e)
    ensures Single(e, b) < 0x1_0000 && Units(Single(e, b)) == [Single(e, b)]
  {
  }

  lemma {:induction false} SingleRun(e: Encoding, st: State, bytes: seq<Byte>)
    requires SingleByte(e)
    ensures var r := Run(e, st, bytes);
            && r.state == st && Bad !in r.items
            && AllUnits(r.items) == seq(|bytes|, i requires 0 <= i < |bytes| => Single(e, bytes[i]))
    decreases |bytes|
  {
    hide Single, Units;
    if bytes != [] {
      SingleRun(e, st, bytes[1..]);
      SingleIs(e, bytes[0]);
      var r := Run(e, st, bytes[1..]);
      var all := [Good(Single(e, bytes[0]))] + r.items;
      assert Run(e, st, bytes) == Moved(st, all);
      assert all[1..] == r.items;
    }
  }

  /** The code point of a byte of windows-1252: 27 bytes are characters from elsewhere, and every other is itself. */
  function Windows1252Code(b: Byte): nat {
    match b
    case 0x80 => 0x20AC case 0x82 => 0x201A case 0x83 => 0x0192 case 0x84 => 0x201E case 0x85 => 0x2026
    case 0x86 => 0x2020 case 0x87 => 0x2021 case 0x88 => 0x02C6 case 0x89 => 0x2030 case 0x8A => 0x0160
    case 0x8B => 0x2039 case 0x8C => 0x0152 case 0x8E => 0x017D case 0x91 => 0x2018 case 0x92 => 0x2019
    case 0x93 => 0x201C case 0x94 => 0x201D case 0x95 => 0x2022 case 0x96 => 0x2013 case 0x97 => 0x2014
    case 0x98 => 0x02DC case 0x99 => 0x2122 case 0x9A => 0x0161 case 0x9B => 0x203A case 0x9C => 0x0153
    case 0x9E => 0x017E case 0x9F => 0x0178
    case _ => b
  }

  lemma WindowsIs(b: Byte)
    ensures Single(Windows1252, b) == Windows1252Code(b)
  {
  }

  /**
   What the single-byte encodings decode to, with no byte order mark left out and no error: in windows-1252 each byte's code
   point; in x-user-defined a byte below 0x80 as itself, and the others from U+F780 on.
   */
  lemma SingleExactly(cfg: Config, d: Decoder, bytes: seq<Byte>)
    requires SingleByte(cfg.encoding) && !d.doNotFlush
    ensures var text := Decode(cfg, d, bytes, false).text;
            && text.Some? && |text.value| == |bytes|
            && forall i :: 0 <= i < |bytes| ==>
                 && (cfg.encoding.Windows1252? ==> text.value[i] == Windows1252Code(bytes[i]))
                 && (cfg.encoding.XUserDefined? && bytes[i] < 0x80 ==> text.value[i] == bytes[i])
                 && (cfg.encoding.XUserDefined? && bytes[i] >= 0x80 ==> text.value[i] == 0xF780 + (bytes[i] as int - 0x80))
  {
    WholeCall(cfg, d, bytes);
    SingleRun(cfg.encoding, Fresh, bytes);
    var r := Run(cfg.encoding, Fresh, bytes);
    assert Items(cfg.encoding, Fresh, bytes) == r.items + [] == r.items;
    hide Run, Decode, AllUnits, Windows1252Code, WINDOWS;
    forall i | 0 <= i < |bytes| && cfg.encoding.Windows1252?
      ensures Single(cfg.encoding, bytes[i]) == Windows1252Code(bytes[i])
    {
      WindowsIs(bytes[i]);
    }
  }

  /** A call that ends its stream, or that throws, leaves nothing to the next: that answers as the first of a new decoder would. */
  lemma CallsApart(cfg: Config, d: Decoder, bytes: seq<Byte>, stream: bool, more: seq<Byte>, goesOn: bool)
    ensures var a := Decode(cfg, d, bytes, stream);
            !stream || a.text.None? ==> Decode(cfg, a.decoder, more, goesOn) == Decode(cfg, Reset, more, goesOn)
  {
    hide CallItems, Emit;
  }
}
