/**
 TextDecoderObject (src/bindings/Binary.cpp): the decoder as it is, fields changed byte by byte. Each method is proved
 against the functions of TextItems and TextDecoding, so that all proved of those holds of the object.
 */
module TextDecoder {
  import opened Wrappers
  import opened ByteTypes
  import opened Utf8
  import opened TextItems
  import opened Utf16Exact
  import opened TextDecoding

  /** How a call ends. */
  datatype Final = Failed | Finished(bomSeen: bool, units: seq<Unit>, state: State)

  /** How a call ends that has written `out` and has these bytes still to read. */
  function Remains(cfg: Config, st: State, bomSeen: bool, bytes: seq<Byte>, stream: bool, out: seq<Unit>): Final {
    var m := CallItems(cfg.encoding, st, bytes, stream);
    Ends(Emit(cfg, bomSeen, m.items), out, m.state)
  }

  function Ends(o: Outcome, out: seq<Unit>, st: State): Final {
    match o
    case Thrown => Failed
    case Text(bom, units) => Finished(bom, out + units, st)
  }

  /** One item emitted. */
  function Put(cfg: Config, bomSeen: bool, out: seq<Unit>, x: Item): Outcome {
    if cfg.fatal && x.Bad? then Thrown else Text(bomSeen || cfg.SkipsBom(), out + Written(cfg, bomSeen, x))
  }

  lemma CallFirst(e: Encoding, st: State, s: seq<Byte>, stream: bool)
    requires s != []
    ensures var m := ByteMove(e, st, s[0]);
            var t := CallItems(e, m.state, s[1..], stream);
            CallItems(e, st, s, stream) == Moved(t.state, m.items + t.items)
  {
    hide ByteMove, End;
    var m := ByteMove(e, st, s[0]);
    if !stream {
      var r := Run(e, m.state, s[1..]);
      assert (m.items + r.items) + End(e, r.state).items == m.items + (r.items + End(e, r.state).items);
    }
  }

  lemma EmitFirst(cfg: Config, bomSeen: bool, x: Item, rest: seq<Item>, out: seq<Unit>, st: State)
    ensures var o := Put(cfg, bomSeen, out, x);
            Ends(Emit(cfg, bomSeen, [x] + rest), out, st)
            == if o.Thrown? then Failed else Ends(Emit(cfg, o.bomSeen, rest), o.units, st)
  {
    hide Written;
    assert ([x] + rest)[1..] == rest;
    var o := Put(cfg, bomSeen, out, x);
    if o.Text? {
      var e := Emit(cfg, o.bomSeen, rest);
      assert e.Text? ==> out + (Written(cfg, bomSeen, x) + e.units) == o.units + e.units;
    }
  }

  /** One step of UTF-8 and how the call goes on: with the same byte after it asks for that, else with the next. */
  lemma Goes8(cfg: Config, st: State, bomSeen: bool, bytes: seq<Byte>, stream: bool, out: seq<Unit>)
    requires cfg.encoding.Utf8? && bytes != []
    ensures var s := ByteStep8(st.utf8, bytes[0]);
            var anew := st.(utf8 := s.state);
            var next := if s.reprocess then bytes else bytes[1..];
            var o := if s.error then Put(cfg, bomSeen, out, Bad)
                     else if s.found.Some? then Put(cfg, bomSeen, out, Good(s.found.value)) else Text(bomSeen, out);
            && (s.error ==> s.found.None?)
            && Remains(cfg, st, bomSeen, bytes, stream, out)
               == if o.Thrown? then Failed else Remains(cfg, anew, o.bomSeen, next, stream, o.units)
  {
    var s := ByteStep8(st.utf8, bytes[0]);
    var anew := st.(utf8 := s.state);
    var next := if s.reprocess then bytes else bytes[1..];
    var t := CallItems(Encoding.Utf8, anew, next, stream);
    assert CallItems(Encoding.Utf8, st, bytes, stream) == Moved(t.state, StepItems(s) + t.items) by {
      Items8(st, bytes, stream);
    }
    assert s.error ==> s.found.None?;
    hide CallItems, ByteStep8, Emit;
    if s.error {
      EmitFirst(cfg, bomSeen, Bad, t.items, out, t.state);
      assert StepItems(s) == [Bad];
    } else if s.found.Some? {
      EmitFirst(cfg, bomSeen, Good(s.found.value), t.items, out, t.state);
      assert StepItems(s) == [Good(s.found.value)];
    } else {
      assert StepItems(s) + t.items == t.items;
    }
  }

  lemma Items8(st: State, bytes: seq<Byte>, stream: bool)
    requires bytes != []
    ensures var s := ByteStep8(st.utf8, bytes[0]);
            var t := CallItems(Encoding.Utf8, st.(utf8 := s.state), if s.reprocess then bytes else bytes[1..], stream);
            CallItems(Encoding.Utf8, st, bytes, stream) == Moved(t.state, StepItems(s) + t.items)
  {
    hide CallItems, FirstByte, NextByte;
    var b := bytes[0];
    var s := ByteStep8(st.utf8, b);
    CallFirst(Encoding.Utf8, st, bytes, stream);
    if s.reprocess {
      var anew := st.(utf8 := s.state);
      CallFirst(Encoding.Utf8, anew, bytes, stream);
      AskedOnce(st.utf8, b);
      var n := Byte8(anew, b);
      var t := CallItems(Encoding.Utf8, n.state, bytes[1..], stream);
      assert Byte8(st, b) == Moved(n.state, StepItems(s) + n.items);
      assert (StepItems(s) + n.items) + t.items == StepItems(s) + (n.items + t.items);
    }
  }

  /** A byte is offered twice at the most. */
  lemma AskedOnce(u: Utf8State, b: Byte)
    ensures var s := ByteStep8(u, b); s.reprocess ==> u.needed != 0 && s.state.needed == 0 && !ByteStep8(s.state, b).reprocess
  {
  }

  /** How a call ends with no byte left. */
  lemma GoesEnd(cfg: Config, st: State, bomSeen: bool, stream: bool, out: seq<Unit>)
    ensures var e := End(cfg.encoding, st);
            var o := Put(cfg, bomSeen, out, Bad);
            Remains(cfg, st, bomSeen, [], stream, out)
            == if stream || e.items == [] then Finished(bomSeen, out, st)
               else if o.Thrown? then Failed else Finished(o.bomSeen, o.units, e.state)
  {
    hide Put;
    var e := End(cfg.encoding, st);
    assert CallItems(cfg.encoding, st, [], stream) == if stream then Moved(st, []) else Moved(e.state, [] + e.items);
    assert [] + e.items == e.items && out + [] == out;
    assert e.items == [] || e.items == [Bad] + [];
    EmitFirst(cfg, bomSeen, Bad, [], out, e.state);
    var o := Put(cfg, bomSeen, out, Bad);
    assert o.Text? ==> o.units + [] == o.units;
  }

  /** How a call ends that has a unit to take and these bytes after it. */
  function RemainsUnit(cfg: Config, st: State, bomSeen: bool, u: Unit, bytes: seq<Byte>, stream: bool, out: seq<Unit>): Final {
    var m := UnitStep(st, u);
    var t := CallItems(cfg.encoding, m.state, bytes, stream);
    Ends(Emit(cfg, bomSeen, m.items + t.items), out, t.state)
  }

  predicate Is16(e: Encoding) { e.Utf16Le? || e.Utf16Be? }

  /** A first byte of a unit is kept; a second makes the unit. */
  lemma Goes16(cfg: Config, st: State, bomSeen: bool, bytes: seq<Byte>, stream: bool, out: seq<Unit>)
    requires Is16(cfg.encoding) && bytes != []
    ensures Remains(cfg, st, bomSeen, bytes, stream, out)
         == if st.leadByte.None? then Remains(cfg, st.(leadByte := Some(bytes[0])), bomSeen, bytes[1..], stream, out)
            else RemainsUnit(cfg, st.(leadByte := None), bomSeen,
                             UnitOf(cfg.encoding.Utf16Le?, st.leadByte.value, bytes[0]), bytes[1..], stream, out)
  {
    hide CallItems, UnitOf, UnitStep, Emit;
    CallFirst(cfg.encoding, st, bytes, stream);
    if st.leadByte.None? {
      var t := CallItems(cfg.encoding, st.(leadByte := Some(bytes[0])), bytes[1..], stream);
      assert [] + t.items == t.items;
    }
  }

  /** A unit with no high surrogate waiting. */
  lemma GoesLone(cfg: Config, st: State, bomSeen: bool, u: Unit, bytes: seq<Byte>, stream: bool, out: seq<Unit>)
    requires st.leadSurrogate.None?
    ensures var o := Put(cfg, bomSeen, out, if IsLow(u) then Bad else Good(u));
            RemainsUnit(cfg, st, bomSeen, u, bytes, stream, out)
            == if IsHigh(u) then Remains(cfg, st.(leadSurrogate := Some(u)), bomSeen, bytes, stream, out)
               else if o.Thrown? then Failed else Remains(cfg, st, o.bomSeen, bytes, stream, o.units)
  {
    hide CallItems, Emit, Put;
    var m := UnitStep(st, u);
    var t := CallItems(cfg.encoding, m.state, bytes, stream);
    assert [] + t.items == t.items;
    EmitFirst(cfg, bomSeen, if IsLow(u) then Bad else Good(u), t.items, out, t.state);
  }

  /** A unit with one waiting. */
  lemma GoesPair(cfg: Config, st: State, bomSeen: bool, u: Unit, bytes: seq<Byte>, stream: bool, out: seq<Unit>)
    requires st.leadSurrogate.Some?
    ensures var alone := st.(leadSurrogate := None);
            var o := Put(cfg, bomSeen, out, if IsLow(u) then Good(Pair(st.leadSurrogate.value, u)) else Bad);
            RemainsUnit(cfg, st, bomSeen, u, bytes, stream, out)
            == if o.Thrown? then Failed
               else if IsLow(u) then Remains(cfg, alone, o.bomSeen, bytes, stream, o.units)
               else RemainsUnit(cfg, alone, o.bomSeen, u, bytes, stream, o.units)
  {
    hide CallItems, Emit, Put, LoneUnit;
    var m := UnitStep(st, u);
    var t := CallItems(cfg.encoding, m.state, bytes, stream);
    var n := UnitStep(st.(leadSurrogate := None), u);
    if IsLow(u) {
      EmitFirst(cfg, bomSeen, Good(Pair(st.leadSurrogate.value, u)), t.items, out, t.state);
    } else {
      assert m == Moved(n.state, [Bad] + n.items);
      assert ([Bad] + n.items) + t.items == [Bad] + (n.items + t.items);
      EmitFirst(cfg, bomSeen, Bad, n.items + t.items, out, t.state);
    }
  }

  /** A byte that is a code point. */
  lemma GoesSingle(cfg: Config, st: State, bomSeen: bool, bytes: seq<Byte>, stream: bool, out: seq<Unit>)
    requires SingleByte(cfg.encoding) && bytes != []
    ensures var b := bytes[0];
            var o := Put(cfg, bomSeen, out, Good(Single(cfg.encoding, b)));
            o.Text? && Remains(cfg, st, bomSeen, bytes, stream, out) == Remains(cfg, st, o.bomSeen, bytes[1..], stream, o.units)
  {
    hide CallItems, Emit;
    var b := bytes[0];
    CallFirst(cfg.encoding, st, bytes, stream);
    var t := CallItems(cfg.encoding, st, bytes[1..], stream);
    EmitFirst(cfg, bomSeen, Good(Single(cfg.encoding, b)), t.items, out, t.state);
  }

  lemma PutGood(cfg: Config, bomSeen: bool, out: seq<Unit>, c: nat)
    ensures Put(cfg, bomSeen, out, Good(c)) == Text(bomSeen || cfg.SkipsBom(), out + Written(cfg, bomSeen, Good(c)))
  {
  }

  /** How a call ends, as the object and the answer. */
  lemma Answers(cfg: Config, d: Decoder, bytes: seq<Byte>, stream: bool)
    ensures var f := Remains(cfg, Opened(d).state, Opened(d).bomSeen, bytes, stream, []);
            Decode(cfg, d, bytes, stream)
            == if f.Failed? then Answer(TextDecoding.Reset, None)
               else Answer(Decoder(stream, f.bomSeen, f.state), Some(f.units))
  {
    hide CallItems, Emit, Opened;
    var o := Emit(cfg, Opened(d).bomSeen, CallItems(cfg.encoding, Opened(d).state, bytes, stream).items);
    assert o.Text? ==> [] + o.units == o.units;
  }

  class Decoding {
    const cfg: Config
    var doNotFlush: bool
    var bomSeen: bool
    var codePoint: nat
    var bytesSeen: nat
    var bytesNeeded: nat
    var lower: Byte
    var upper: Byte
    var leadByte: Option<Byte>
    var leadSurrogate: Option<High>

    constructor (cfg: Config)
      ensures this.cfg == cfg && Value() == TextDecoding.Reset
    {
      this.cfg := cfg;
      doNotFlush, bomSeen := false, false;
      codePoint, bytesSeen, bytesNeeded, lower, upper := 0, 0, 0, 0x80, 0xBF;
      leadByte, leadSurrogate := None, None;
    }

    function Vars8(): Utf8State
      reads this
    {
      Utf8State(codePoint, bytesSeen, bytesNeeded, lower, upper)
    }

    function Vars(): State
      reads this
    {
      State(Vars8(), leadByte, leadSurrogate)
    }

    function Value(): Decoder
      reads this
    {
      Decoder(doNotFlush, bomSeen, Vars())
    }

    method ResetUtf8()
      modifies `codePoint, `bytesSeen, `bytesNeeded, `lower, `upper
      ensures Vars8() == Fresh8
    {
      codePoint, bytesSeen, bytesNeeded, lower, upper := 0, 0, 0, 0x80, 0xBF;
    }

    method Reset()
      modifies this
      ensures Value() == TextDecoding.Reset.(doNotFlush := old(doNotFlush))
    {
      bomSeen := false;
      ResetUtf8();
      leadByte, leadSurrogate := None, None;
    }

    method Utf8Step(b: Byte) returns (found: Option<nat>, error: bool, reprocess: bool)
      modifies `codePoint, `bytesSeen, `bytesNeeded, `lower, `upper
      ensures Step8(Vars8(), found, error, reprocess) == ByteStep8(old(Vars8()), b)
      ensures reprocess ==> old(bytesNeeded) != 0 && bytesNeeded == 0
    {
      found, error, reprocess := None, false, false;
      if bytesNeeded == 0 {
        if b <= 0x7F {
          return Some(b), false, false;
        }
        if 0xC2 <= b <= 0xDF {
          bytesNeeded, codePoint := 1, b % 0x20;
        } else if 0xE0 <= b <= 0xEF {
          if b == 0xE0 {
            lower := 0xA0;
          }
          if b == 0xED {
            upper := 0x9F;
          }
          bytesNeeded, codePoint := 2, b % 0x10;
        } else if 0xF0 <= b <= 0xF4 {
          if b == 0xF0 {
            lower := 0x90;
          }
          if b == 0xF4 {
            upper := 0x8F;
          }
          bytesNeeded, codePoint := 3, b % 0x08;
        } else {
          error := true;
        }
        return;
      }
      if b < lower || b > upper {
        ResetUtf8();
        return None, true, true;
      }
      lower, upper := 0x80, 0xBF;
      codePoint := Push(codePoint, b);
      bytesSeen := bytesSeen + 1;
      if bytesSeen != bytesNeeded {
        return;
      }
      found := Some(codePoint);
      ResetUtf8();
    }

    /** Writes a code point, but for a first byte order mark that is to be skipped. */
    method Write(out: seq<Unit>, c: nat) returns (more: seq<Unit>)
      modifies `bomSeen
      ensures more == out + Written(cfg, old(bomSeen), Good(c)) && bomSeen == (old(bomSeen) || cfg.SkipsBom())
    {
      more := out;
      if cfg.SkipsBom() && !bomSeen {
        bomSeen := true;
        if c == 0xFEFF {
          return;
        }
      }
      more := out + Units(c);
    }

    /** An error: a failure, or U+FFFD. */
    method Fail(out: seq<Unit>) returns (more: seq<Unit>, failed: bool)
      modifies `bomSeen
      ensures var o := Put(cfg, old(bomSeen), out, Bad); if failed then o == Thrown else o == Text(bomSeen, more)
    {
      more, failed := out, cfg.fatal;
      if !failed {
        more := Write(out, 0xFFFD);
      }
    }

    method DecodeUtf8(bytes: seq<Byte>, flush: bool) returns (out: seq<Unit>, failed: bool)
      requires cfg.encoding.Utf8?
      modifies this
      ensures doNotFlush == old(doNotFlush)
      ensures Remains(cfg, old(Vars()), old(bomSeen), bytes, !flush, [])
           == if failed then Failed else Finished(bomSeen, out, Vars())
    {
      hide Remains, Written, FirstByte, NextByte, Put;
      out, failed := [], false;
      var i := 0;
      ghost var whole := Remains(cfg, Vars(), bomSeen, bytes, !flush, []);
      assert bytes[0..] == bytes;
      while i < |bytes| && !failed
        invariant 0 <= i <= |bytes| && doNotFlush == old(doNotFlush)
        invariant whole == if failed then Failed else Remains(cfg, Vars(), bomSeen, bytes[i..], !flush, out)
        decreases |bytes| - i, bytesNeeded, !failed
      {
        Goes8(cfg, Vars(), bomSeen, bytes[i..], !flush, out);
        assert bytes[i..][1..] == bytes[i + 1..];
        var found, error, reprocess := Utf8Step(bytes[i]);
        if found.Some? {
          PutGood(cfg, bomSeen, out, found.value);
          out := Write(out, found.value);
        }
        if error {
          out, failed := Fail(out);
          if failed {
            break;
          }
        }
        if !reprocess {
          i := i + 1;
        }
      }
      if !failed {
        assert bytes[i..] == [];
        GoesEnd(cfg, Vars(), bomSeen, !flush, out);
        if flush && bytesNeeded != 0 {
          ResetUtf8();
          out, failed := Fail(out);
        }
      }
    }

    method DecodeUtf16(bytes: seq<Byte>, flush: bool) returns (out: seq<Unit>, failed: bool)
      requires Is16(cfg.encoding)
      modifies this
      ensures doNotFlush == old(doNotFlush)
      ensures Remains(cfg, old(Vars()), old(bomSeen), bytes, !flush, [])
           == if failed then Failed else Finished(bomSeen, out, Vars())
    {
      hide Remains, RemainsUnit, Written, Put, UnitOf, Pair;
      out, failed := [], false;
      var little := cfg.encoding.Utf16Le?;
      ghost var whole := Remains(cfg, Vars(), bomSeen, bytes, !flush, []);
      var i := 0;
      assert bytes[0..] == bytes;
      while i < |bytes| && !failed
        invariant 0 <= i <= |bytes| && doNotFlush == old(doNotFlush)
        invariant whole == if failed then Failed else Remains(cfg, Vars(), bomSeen, bytes[i..], !flush, out)
      {
        Goes16(cfg, Vars(), bomSeen, bytes[i..], !flush, out);
        assert bytes[i..][1..] == bytes[i + 1..];
        if leadByte.None? {
          leadByte := Some(bytes[i]);
        } else {
          var first := leadByte.value;
          leadByte := None;
          var u := UnitOf(little, first, bytes[i]);
          out, failed := TakeUnit(u, out, bytes[i + 1..], flush);
        }
        i := i + 1;
      }
      if !failed {
        assert bytes[i..] == [];
        GoesEnd(cfg, Vars(), bomSeen, !flush, out);
        if flush && (leadByte.Some? || leadSurrogate.Some?) {
          leadByte, leadSurrogate := None, None;
          out, failed := Fail(out);
        }
      }
    }

    /** A unit, in at most two passes: first with the high surrogate that waits, then on its own. */
    method TakeUnit(u: Unit, before: seq<Unit>, ghost rest: seq<Byte>, ghost flush: bool) returns (out: seq<Unit>, failed: bool)
      modifies this
      ensures doNotFlush == old(doNotFlush)
      ensures RemainsUnit(cfg, old(Vars()), old(bomSeen), u, rest, !flush, before)
           == if failed then Failed else Remains(cfg, Vars(), bomSeen, rest, !flush, out)
    {
      hide Remains, RemainsUnit, Written, Put, Pair;
      out, failed := before, false;
      ghost var whole := RemainsUnit(cfg, Vars(), bomSeen, u, rest, !flush, out);
      var pass := 0;
      while pass < 2 && !failed
        invariant pass <= 2 && doNotFlush == old(doNotFlush) && (pass > 0 ==> leadSurrogate.None?) && !failed && pass < 2
        invariant whole == RemainsUnit(cfg, Vars(), bomSeen, u, rest, !flush, out)
        decreases 2 - pass
      {
        if leadSurrogate.Some? {
          GoesPair(cfg, Vars(), bomSeen, u, rest, !flush, out);
          var high := leadSurrogate.value;
          leadSurrogate := None;
          if IsLow(u) {
            PutGood(cfg, bomSeen, out, Pair(high, u));
            out := Write(out, Pair(high, u));
            break;
          }
          out, failed := Fail(out);
          if failed {
            break;
          }
          pass := pass + 1;
          continue;
        }
        GoesLone(cfg, Vars(), bomSeen, u, rest, !flush, out);
        if IsHigh(u) {
          leadSurrogate := Some(u);
        } else if IsLow(u) {
          out, failed := Fail(out);
        } else {
          PutGood(cfg, bomSeen, out, u);
          out := Write(out, u);
        }
        break;
      }
    }

    method DecodeSingle(bytes: seq<Byte>, flush: bool) returns (out: seq<Unit>)
      requires SingleByte(cfg.encoding)
      modifies this
      ensures doNotFlush == old(doNotFlush)
      ensures Remains(cfg, old(Vars()), old(bomSeen), bytes, !flush, []) == Finished(bomSeen, out, Vars())
    {
      hide Remains, Written, Put;
      out := [];
      ghost var whole := Remains(cfg, Vars(), bomSeen, bytes, !flush, []);
      assert bytes[0..] == bytes;
      for i := 0 to |bytes|
        invariant doNotFlush == old(doNotFlush)
        invariant whole == Remains(cfg, Vars(), bomSeen, bytes[i..], !flush, out)
      {
        GoesSingle(cfg, Vars(), bomSeen, bytes[i..], !flush, out);
        assert bytes[i..][1..] == bytes[i + 1..];
        var c := Single(cfg.encoding, bytes[i]);
        PutGood(cfg, bomSeen, out, c);
        out := Write(out, c);
      }
      assert bytes[|bytes|..] == [];
      GoesEnd(cfg, Vars(), bomSeen, !flush, out);
    }

    /** decode(input, { stream }): the text, or None for the TypeError; the object and the answer are those of the function. */
    method Decode(bytes: seq<Byte>, stream: bool) returns (text: Option<seq<Unit>>)
      modifies this
      ensures Answer(Value(), text) == TextDecoding.Decode(cfg, old(Value()), bytes, stream)
    {
      hide Remains, TextDecoding.Decode;
      Answers(cfg, Value(), bytes, stream);
      if !doNotFlush {
        Reset();
      }
      doNotFlush := stream;
      var out, failed := [], false;
      match cfg.encoding {
        case Utf8 => out, failed := DecodeUtf8(bytes, !stream);
        case Utf16Le => out, failed := DecodeUtf16(bytes, !stream);
        case Utf16Be => out, failed := DecodeUtf16(bytes, !stream);
        case Windows1252 => out := DecodeSingle(bytes, !stream);
        case XUserDefined => out := DecodeSingle(bytes, !stream);
      }
      if failed {
        Reset();
        doNotFlush := false;
        return None;
      }
      text := Some(out);
    }
  }
}
