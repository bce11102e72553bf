/**
 Whole runs of the arithmetic coder: decisions, each under a context that a key names, go in, and the decoder,
 told the same keys, gives the decisions back. Everything above the coder is proved against `Plays`.
 */
module MqTape {
  import opened ByteTypes
  import opened Powers
  import opened Mq
  import opened MqDecoder

  /** A decision and the context it is coded under. */
  datatype Event<K> = Event(key: K, bit: Bit)

  datatype Coder<!K(==)> = Coder(enc: Enc, cells: map<K, Cell>)

  datatype Tape<!K(==)> = Tape(dec: Dec, cells: map<K, Cell>)

  // ---- Encoding a run -------------------------------------------------------------------------

  predicate KeysIn<K>(events: seq<Event<K>>, cells: map<K, Cell>) {
    forall e <- events :: e.key in cells
  }

  predicate CanCode<K>(c: Coder<K>, key: K) {
    Ready(c.enc) && key in c.cells
  }

  function EncodeEvent<K>(c: Coder<K>, e: Event<K>): (r: Coder<K>)
    ensures r.cells.Keys == c.cells.Keys
  {
    if CanCode(c, e.key) then
      var (enc, cell) := Encode1(c.enc, c.cells[e.key], e.bit);
      Coder(enc, c.cells[e.key := cell])
    else c
  }

  function Encode<K>(c: Coder<K>, events: seq<Event<K>>): (r: Coder<K>)
    ensures r.cells.Keys == c.cells.Keys
    decreases |events|
  {
    if events == [] then c else Encode(EncodeEvent(c, events[0]), events[1..])
  }

  lemma {:induction false} EncodeConcat<K>(c: Coder<K>, a: seq<Event<K>>, b: seq<Event<K>>)
    ensures Encode(c, a + b) == Encode(Encode(c, a), b)
    decreases |a|
  {
    if a == [] {
      assert a + b == b;
    } else {
      assert (a + b)[1..] == a[1..] + b;
      EncodeConcat(EncodeEvent(c, a[0]), a[1..], b);
    }
  }

  lemma EncodeAppend<K>(c: Coder<K>, events: seq<Event<K>>, e: Event<K>)
    ensures Encode(c, events + [e]) == EncodeEvent(Encode(c, events), e)
  {
    EncodeConcat(c, events, [e]);
    var c' := Encode(c, events);
    assert Encode(c', [e]) == Encode(EncodeEvent(c', e), [e][1..]);
  }

  /** The coder is ready for the next decision. */
  lemma {:induction false} EncodeReady<K>(c: Coder<K>, events: seq<Event<K>>)
    requires Ready(c.enc)
    ensures Ready(Encode(c, events).enc)
    decreases |events|
  {
    if events != [] {
      if CanCode(c, events[0].key) {
        EncodeExact(c.enc, c.cells[events[0].key], events[0].bit);
      }
      EncodeReady(EncodeEvent(c, events[0]), events[1..]);
    }
  }

  // ---- The same run of the interval coder -----------------------------------------------------

  function Run<K>(iv: Interval, cells: map<K, Cell>, events: seq<Event<K>>): (r: (Interval, map<K, Cell>))
    requires iv.width >= 0x8000 && KeysIn(events, cells)
    ensures r.0.width >= 0x8000
    decreases |events|
  {
    if events == [] then (iv, cells)
    else
      var (iv', cell) := Step(iv, cells[events[0].key], events[0].bit);
      Run(iv', cells[events[0].key := cell], events[1..])
  }

  /** The registers with their bytes are, after any run, exactly the interval of unbounded integers. */
  lemma {:induction false} EncodeRefines<K>(c: Coder<K>, events: seq<Event<K>>)
    requires Ready(c.enc) && KeysIn(events, c.cells)
    ensures var r := Encode(c, events);
            Ready(r.enc) && (Abs(r.enc), r.cells) == Run(Abs(c.enc), c.cells, events) && r.enc.c < 0x1000_0000
    decreases |events|
  {
    if events == [] {
      RegisterBound(c.enc);
    } else {
      EncodeExact(c.enc, c.cells[events[0].key], events[0].bit);
      EncodeRefines(EncodeEvent(c, events[0]), events[1..]);
    }
  }

  /** The bytes of a run, continued with 1 bits, name a number in the run's last interval. */
  lemma RunInside<K>(cells: map<K, Cell>, events: seq<Event<K>>, j: nat)
    requires KeysIn(events, cells)
    ensures var e := Encode(Coder(START, cells), events).enc;
            Ready(e) && (j >= |e.out| ==> Inside(Drain(e).out, j, Run(WHOLE, cells, events).0))
  {
    StartIsWhole();
    EncodeRefines(Coder(START, cells), events);
    EncodeReady(Coder(START, cells), events);
    FlushInside(Encode(Coder(START, cells), events).enc);
  }

  // ---- Decoding -------------------------------------------------------------------------------

  function Open<K>(data: seq<Byte>, cells: map<K, Cell>): Tape<K> {
    Tape(InitDec(data), cells)
  }

  predicate CanRead<K>(t: Tape<K>, key: K) {
    t.dec.a >= 0x8000 && key in t.cells
  }

  function Read<K>(t: Tape<K>, key: K): (Bit, Tape<K>) {
    if CanRead(t, key) then
      var (bit, dec, cell) := Decode1(t.dec, t.cells[key]);
      (bit, Tape(dec, t.cells[key := cell]))
    else (0, t)
  }

  /** Reading under the keys of `events`, one after another, answers their decisions. */
  predicate Plays<K>(t: Tape<K>, events: seq<Event<K>>)
    decreases |events|
  {
    events == [] ||
    (CanRead(t, events[0].key) && Read(t, events[0].key).0 == events[0].bit
     && Plays(Read(t, events[0].key).1, events[1..]))
  }

  /** The tape once it has been read under the keys of `events`. */
  function After<K>(t: Tape<K>, events: seq<Event<K>>): Tape<K>
    decreases |events|
  {
    if events == [] then t else After(Read(t, events[0].key).1, events[1..])
  }

  lemma PlaysNext<K>(t: Tape<K>, e: Event<K>, rest: seq<Event<K>>)
    ensures Plays(t, [e] + rest) <==> CanRead(t, e.key) && Read(t, e.key).0 == e.bit && Plays(Read(t, e.key).1, rest)
    ensures After(t, [e] + rest) == After(Read(t, e.key).1, rest)
  {
    assert ([e] + rest)[1..] == rest;
  }

  // ---- The round trip -------------------------------------------------------------------------

  lemma {:induction false} CoversRun<K>(f: seq<Byte>, c: Coder<K>, events: seq<Event<K>>)
    requires Ready(c.enc) && KeysIn(events, c.cells) && Covers(f, Encode(c, events).enc)
    ensures Covers(f, c.enc)
    decreases |events|
  {
    if events != [] {
      EncodeExact(c.enc, c.cells[events[0].key], events[0].bit);
      CoversRun(f, EncodeEvent(c, events[0]), events[1..]);
      CoversEncode(f, c.enc, c.cells[events[0].key], events[0].bit);
    }
  }

  lemma {:induction false} Replay<K>(d: Dec, f: seq<Byte>, j: nat, c: Coder<K>, events: seq<Event<K>>)
    requires Ready(c.enc) && KeysIn(events, c.cells) && Covers(f, Encode(c, events).enc)
    requires NoMarker(f) && Sync(d, f, j, Abs(c.enc))
    ensures Plays(Tape(d, c.cells), events)
    decreases |events|
  {
    if events != [] {
      var e := events[0];
      var next := EncodeEvent(c, e);
      EncodeExact(c.enc, c.cells[e.key], e.bit);
      CoversRun(f, next, events[1..]);
      var j' := DecodeInStep(d, f, j, c.enc, c.cells[e.key], e.bit);
      var (_, d', _) := Decode1(d, c.cells[e.key]);
      Replay(d', f, j', next, events[1..]);
      assert Read(Tape(d, c.cells), e.key).1 == Tape(d', next.cells);
    }
  }

  /** For every sequence of decisions and contexts, decoding what was flushed answers exactly the decisions. */
  lemma RoundTrip<K>(cells: map<K, Cell>, events: seq<Event<K>>)
    requires KeysIn(events, cells)
    ensures Ready(Encode(Coder(START, cells), events).enc)
    ensures Plays(Open(Flush(Encode(Coder(START, cells), events).enc), cells), events)
  {
    StartIsWhole();
    var c := Coder(START, cells);
    var e := Encode(c, events).enc;
    EncodeReady(c, events);
    FlushInside(e);
    var f := Drain(e).out;
    InitSync(f);
    Replay(InitDec(Terminated(f)), f, 2, c, events);
  }

  // ---- One answer worked out --------------------------------------------------------------------

  const AFTER_ONE := Enc(0xA7FC, 0x1_5804, 10, [0])

  const AFTER_TWO := Enc(0xE7F6, 0x3_180A, 9, [0])

  lemma FirstOne()
    ensures Encode1(START, Cell(0, 0), 1) == (AFTER_ONE, Cell(1, 1))
  {
    assert QE[0] == QeRow(0x5601, 1, 1, 1);
    hide QE;
    assert Renorm(AFTER_ONE) == AFTER_ONE;
    assert Shift(Enc(0x53FE, 0xAC02, 11, [0])) == AFTER_ONE;
    assert Shift(Enc(0x29FF, 0x5601, 12, [0])) == Enc(0x53FE, 0xAC02, 11, [0]);
    assert Renorm(Enc(0x53FE, 0xAC02, 11, [0])) == AFTER_ONE;
    assert Renorm(Enc(0x29FF, 0x5601, 12, [0])) == AFTER_ONE;
  }

  lemma SecondOne()
    ensures Encode1(AFTER_ONE, Cell(1, 1), 1) == (AFTER_TWO, Cell(2, 1))
  {
    assert QE[1] == QeRow(0x3401, 2, 6, 0);
    hide QE;
    assert Renorm(AFTER_TWO) == AFTER_TWO;
    assert Shift(Enc(0x73FB, 0x1_8C05, 10, [0])) == AFTER_TWO;
    assert Renorm(Enc(0x73FB, 0x1_8C05, 10, [0])) == AFTER_TWO;
  }

  lemma FlushTwo()
    ensures Flush(AFTER_TWO) == [0xFF, 0x7F, 0xFF, 0xAC]
  {
    var e := AFTER_TWO;
    assert SetBits(e) == 0x3_FFFF;
    assert Pow2(9) == 0x200 && Pow2(8) == 0x100;
    var e1 := ByteOut(Enc(0x200, 0x7FF_FE00, 0, [0]));
    assert e1 == Enc(0x200, 0x7_FE00, 8, [0, 0xFF]);
    assert ByteOut(Enc(0x2_0000, 0x7FE_0000, 0, [0, 0xFF])) == Enc(0x2_0000, 0xE_0000, 7, [0, 0xFF, 0x7F]);
  }

  lemma OneEvent<K>(c: Coder<K>, e: Event<K>, enc: Enc, cell: Cell)
    requires CanCode(c, e.key) && Encode1(c.enc, c.cells[e.key], e.bit) == (enc, cell)
    ensures EncodeEvent(c, e) == Coder(enc, c.cells[e.key := cell])
  {
    hide Encode1, Ready;
  }

  /** Two decisions 1 under a fresh context: the less probable symbol first, which switches the sense, then the more probable. */
  lemma TwoOnes<K>(key: K, cells: map<K, Cell>)
    requires key in cells && cells[key] == Cell(0, 0)
    ensures var c := Encode(Coder(START, cells), [Event(key, 1)] + [Event(key, 1)]);
            c.cells == cells[key := Cell(2, 1)] && c.enc.out != [] && Flush(c.enc) == [0xFF, 0x7F, 0xFF, 0xAC]
  {
    hide *;
    StartIsWhole();
    FirstOne();
    SecondOne();
    FlushTwo();
    OneReady();
    var e := Event(key, 1);
    var c0, c1 := Coder(START, cells), Coder(AFTER_ONE, cells[key := Cell(1, 1)]);
    MayCode(c0, key);
    MayCode(c1, key);
    OneEvent(c0, e, AFTER_ONE, Cell(1, 1));
    OneEvent(c1, e, AFTER_TWO, Cell(2, 1));
    TwoEvents(c0, e, e);
    assert cells[key := Cell(1, 1)][key := Cell(2, 1)] == cells[key := Cell(2, 1)];
  }

  lemma OneReady()
    ensures Ready(AFTER_ONE) && AFTER_TWO.out != []
  {
    StartIsWhole();
    EncodeExact(START, Cell(0, 0), 1);
    FirstOne();
    hide Encode1, Step, Abs, Valid;
  }

  lemma TwoEvents<K>(c: Coder<K>, a: Event<K>, b: Event<K>)
    ensures Encode(c, [a] + [b]) == EncodeEvent(EncodeEvent(c, a), b)
  {
    hide EncodeEvent;
    EncodeAppend(c, [a], b);
    EncodeAppend(c, [], a);
    assert [] + [a] == [a];
  }

  lemma MayCode<K>(c: Coder<K>, key: K)
    requires Ready(c.enc) && key in c.cells
    ensures CanCode(c, key)
  {
  }

  /** No decision at all. */
  lemma FlushNone()
    ensures Flush(START) == [0xFF, 0x7F, 0xFF, 0xAC]
  {
    assert SetBits(START) == 0x7FFF;
    assert Pow2(12) == 0x1000 && Pow2(8) == 0x100;
    var e1 := ByteOut(Enc(0x1000, 0x7FF_F000, 0, [0]));
    assert e1 == Enc(0x1000, 0x7_F000, 8, [0, 0xFF]);
    assert ByteOut(Enc(0x10_0000, 0x7F0_0000, 0, [0, 0xFF])) == Enc(0x10_0000, 0, 7, [0, 0xFF, 0x7F]);
  }

  /** The data end with the marker 0xFF 0xAC, the first of them perhaps a byte's own, and hold no marker before it. */
  lemma FlushEnds(e: Enc)
    requires Ready(e)
    ensures var data, f := Flush(e), Drain(e).out;
            && |data| >= 2 && data[|data| - 2..] == [0xFF, 0xAC] && NoMarker(f)
            && data[..|data| - 2] == if Last(f) == 0xFF then f[1..|f| - 1] else f[1..]
  {
    hide *;
    FlushInside(e);
    FlushIs(e);
    TerminatedEnds(Drain(e).out);
  }

  lemma FlushIs(e: Enc)
    requires e.out != []
    ensures Flush(e) == Terminated(Drain(e).out)
  {
    hide Drain, Terminated;
  }

  lemma TerminatedEnds(f: seq<Byte>)
    requires |f| >= 3
    ensures var data := Terminated(f);
            && |data| >= 2 && data[|data| - 2..] == [0xFF, 0xAC]
            && data[..|data| - 2] == if Last(f) == 0xFF then f[1..|f| - 1] else f[1..]
  {
    assert Last(f) == 0xFF ==> f[1..] == f[1..|f| - 1] + [0xFF];
  }
}
