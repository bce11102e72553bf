/**
 The integer encoding procedures of ITU-T T.88 Annex A over the arithmetic coder
 (tools/pdf-make-jbig2-tests.py, `IntCtx` and `IaidCtx`), and the decoding procedures of the annex.
 */
module IntegerCodes {
  import opened Wrappers
  import opened ByteTypes
  import opened Powers
  import opened Mq
  import opened MqTape
  import opened MqEncoder
  import opened BitStrings

  // ---- Bits under contexts that follow the bits before ----------------------------------------

  /** PREV of section A.2: nine bits, with bit 8 kept once set. */
  function IntNext(prev: nat, b: Bit): nat {
    if prev < 256 then 2 * prev + b else (2 * prev + b) % 512 % 256 + 256
  }

  /** PREV of section A.3. */
  function IdNext(prev: nat, b: Bit): nat {
    2 * prev + b
  }

  /** Each bit under the context `wrap(PREV)`. */
  function BitEvents<K>(wrap: nat -> K, next: (nat, Bit) -> nat, prev: nat, bits: seq<Bit>): seq<Event<K>>
    decreases |bits|
  {
    if bits == [] then []
    else [Event(wrap(prev), bits[0])] + BitEvents(wrap, next, next(prev, bits[0]), bits[1..])
  }

  /** PREV after the bits. */
  function Prev(next: (nat, Bit) -> nat, prev: nat, bits: seq<Bit>): nat
    decreases |bits|
  {
    if bits == [] then prev else Prev(next, next(prev, bits[0]), bits[1..])
  }

  lemma BitEventsFirst<K>(wrap: nat -> K, next: (nat, Bit) -> nat, prev: nat, b: Bit, bits: seq<Bit>)
    ensures BitEvents(wrap, next, prev, [b] + bits)
         == [Event(wrap(prev), b)] + BitEvents(wrap, next, next(prev, b), bits)
    ensures Prev(next, prev, [b] + bits) == Prev(next, next(prev, b), bits)
  {
    assert ([b] + bits)[1..] == bits;
  }

  lemma {:induction false} BitEventsConcat<K>(wrap: nat -> K, next: (nat, Bit) -> nat, prev: nat, a: seq<Bit>, b: seq<Bit>)
    ensures BitEvents(wrap, next, prev, a + b)
         == BitEvents(wrap, next, prev, a) + BitEvents(wrap, next, Prev(next, prev, a), b)
    ensures Prev(next, prev, a + b) == Prev(next, Prev(next, prev, a), b)
    decreases |a|
  {
    if a == [] {
      assert a + b == b;
    } else {
      hide *;
      var tail := a[1..];
      BitEventsConcat(wrap, next, next(prev, a[0]), tail, b);
      BitEventsFirst(wrap, next, prev, a[0], tail);
      BitEventsFirst(wrap, next, prev, a[0], tail + b);
      assert a == [a[0]] + tail && a + b == [a[0]] + (tail + b);
    }
  }

  /** Every PREV on the way is a context of the array. */
  predicate PrevsBelow(next: (nat, Bit) -> nat, prev: nat, bits: seq<Bit>, limit: nat)
    decreases |bits|
  {
    bits == [] || (prev < limit && PrevsBelow(next, next(prev, bits[0]), bits[1..], limit))
  }

  lemma {:induction false} PrevKeys<K>(wrap: nat -> K, next: (nat, Bit) -> nat, prev: nat, bits: seq<Bit>, limit: nat,
                                       cells: map<K, Cell>)
    requires PrevsBelow(next, prev, bits, limit) && forall k :: 0 <= k < limit ==> wrap(k) in cells
    ensures KeysIn(BitEvents(wrap, next, prev, bits), cells)
    decreases |bits|
  {
    if bits != [] {
      PrevKeys(wrap, next, next(prev, bits[0]), bits[1..], limit, cells);
    }
  }

  /** PREV: 1 and the bits so far; once there are more than eight, 1 and the last eight of them. */
  function PrevAfter(bits: seq<Bit>): nat {
    if |bits| <= 8 then Append(1, bits) else 0x100 + Append(0, bits[|bits| - 8..])
  }

  lemma {:induction false} PrevExactly(bits: seq<Bit>)
    ensures Prev(IntNext, 1, bits) == PrevAfter(bits)
    decreases |bits|
  {
    if bits == [] {
      assert Append(1, []) == 1;
    } else {
      var n := |bits| - 1;
      var a, b := bits[..n], bits[n];
      assert bits == a + [b];
      PrevExactly(a);
      BitEventsConcat(Plain, IntNext, 1, a, [b]);
      PrevOne(PrevAfter(a), b);
      PrevMore(a, b);
    }
  }

  lemma PrevOne(prev: nat, b: Bit)
    ensures Prev(IntNext, prev, [b]) == IntNext(prev, b)
  {
    assert [b][1..] == [];
  }

  lemma PrevMore(a: seq<Bit>, b: Bit)
    ensures IntNext(PrevAfter(a), b) == PrevAfter(a + [b])
  {
    if |a| < 8 {
      assert Append(1, a) < 0x100 by {
        Pow2Small();
        AppendFrom(1, a);
        AppendBelow(a);
        Pow2Monotone(|a|, 7);
      }
      AppendLast(1, a, b);
    } else {
      var last := a[|a| - 8..];
      if |a| == 8 {
        Pow2Small();
        AppendFrom(1, a);
        assert last == a;
      }
      assert (a + [b])[|a| - 7..] == last[1..] + [b];
      EightKept(last, b);
    }
  }

  /** Of eight bits behind the 1, the first makes room for the next. */
  lemma EightKept(last: seq<Bit>, b: Bit)
    requires |last| == 8
    ensures IntNext(0x100 + Append(0, last), b) == 0x100 + Append(0, last[1..] + [b])
  {
    var rest := last[1..];
    assert Pow2(7) == 0x80 && Append(0, last) == Append(last[0], rest);
    hide Pow2, Append;
    AppendFrom(last[0], rest);
    AppendBelow(rest);
    AppendLast(0, rest, b);
    LowKept(last[0], 2 * Append(0, rest) + b);
  }

  lemma LowKept(top: Bit, low: nat)
    requires low < 0x100
    ensures (0x200 + 0x100 * top + low) % 512 % 256 + 256 == 0x100 + low
  {
    if top == 0 {
      DivModUnique(0x200 + low, 1, low, 512);
    } else {
      DivModUnique(0x300 + low, 1, 0x100 + low, 512);
      DivModUnique(0x100 + low, 1, low, 256);
    }
  }

  /** PREV is always a context of the 512. */
  lemma {:induction false} IntKeys(prev: nat, bits: seq<Bit>)
    requires prev < 512
    ensures PrevsBelow(IntNext, prev, bits, 512) && Prev(IntNext, prev, bits) < 512
    decreases |bits|
  {
    if bits != [] {
      IntKeys(IntNext(prev, bits[0]), bits[1..]);
    }
  }

  /** PREV of an identifier stays below twice the number of codes. */
  lemma {:induction false} IdKeys(prev: nat, bits: seq<Bit>, limit: nat)
    requires (prev + 1) * Pow2(|bits|) <= limit
    ensures PrevsBelow(IdNext, prev, bits, limit)
    decreases |bits|
  {
    if bits != [] {
      var p := Pow2(|bits| - 1);
      MulRegroup(prev + 1, 2, p);
      MulLess(2 * prev + bits[0] + 1, 2 * prev + 2, p);
      MulLess(1, 2 * p, prev + 1);
      IdKeys(IdNext(prev, bits[0]), bits[1..], limit);
    }
  }

  // ---- Integers (A.2) -------------------------------------------------------------------------

  type Range = r: nat | r < 6

  /** Table A.1: how many bits a range has, and where it starts; a range ends where the next one starts. */
  function RangeBits(r: Range): nat {
    [2, 4, 6, 8, 12, 32][r]
  }

  function RangeStart(r: Range): nat {
    [0, 4, 20, 84, 340, 4436][r]
  }

  function RangeOf(mag: nat): Range {
    if mag < 4 then 0 else if mag < 20 then 1 else if mag < 84 then 2 else if mag < 340 then 3
    else if mag < 4436 then 4 else 5
  }

  function Prefix(r: nat): (bits: seq<Bit>)
    requires r <= 5
    ensures |bits| == if r < 5 then r + 1 else 5
  {
    seq(r, _ => 1) + if r < 5 then [0] else []
  }

  function Magnitude(v: Option<int>): nat {
    match v
    case None => 0
    case Some(n) => if n < 0 then -n else n
  }

  function SignOf(v: Option<int>): Bit {
    if v == None || v.value < 0 then 1 else 0
  }

  /** The sign, the range's prefix, and the offset into the range; out-of-band is minus zero. */
  function IntBits(v: Option<int>): seq<Bit> {
    var mag := Magnitude(v);
    var r := RangeOf(mag);
    [SignOf(v)] + Prefix(r) + BitsOf(mag - RangeStart(r), RangeBits(r))
  }

  function IntEvents<K>(wrap: nat -> K, v: Option<int>): seq<Event<K>> {
    BitEvents(wrap, IntNext, 1, IntBits(v))
  }

  function ReadBits<K>(t: Tape<K>, wrap: nat -> K, next: (nat, Bit) -> nat, prev: nat, n: nat, acc: nat)
    : (nat, nat, Tape<K>)
    decreases n
  {
    if n == 0 then (acc, prev, t)
    else
      var (b, t') := Read(t, wrap(prev));
      ReadBits(t', wrap, next, next(prev, b), n - 1, 2 * acc + b)
  }

  /** The figure of Annex A below the sign: after r bits that are 1, how many bits of the value follow, and what is added to them. */
  const VALUES: seq<(nat, nat)> := [(2, 0), (4, 4), (6, 20), (8, 84), (12, 340), (32, 4436)]

  function ReadMagnitude<K>(t: Tape<K>, wrap: nat -> K, prev: nat, r: Range): (nat, Tape<K>)
    decreases 5 - r
  {
    if r < 5 && Read(t, wrap(prev)).0 == 1 then
      ReadMagnitude(Read(t, wrap(prev)).1, wrap, IntNext(prev, 1), r + 1)
    else
      var (t', prev') := if r < 5 then (Read(t, wrap(prev)).1, IntNext(prev, 0)) else (t, prev);
      var (v, _, t'') := ReadBits(t', wrap, IntNext, prev', VALUES[r].0, 0);
      (v + VALUES[r].1, t'')
  }

  /** Minus zero is out-of-band. */
  function Signed(sign: Bit, mag: nat): Option<int> {
    var m: int := mag;
    if sign == 0 then Some(m) else if m > 0 then Some(-m) else None
  }

  function ReadInt<K>(t: Tape<K>, wrap: nat -> K): (Option<int>, Tape<K>) {
    var start := Read(t, wrap(1));
    var body := ReadMagnitude(start.1, wrap, IntNext(1, start.0), 0);
    (Signed(start.0, body.0), body.1)
  }

  /** What thirty-two bits keep of an integer. */
  function Kept(v: Option<int>): Option<int> {
    match v
    case None => None
    case Some(n) =>
      var mag := Magnitude(v);
      var kept := if mag < 4436 then mag else 4436 + (mag - 4436) % Pow2(32);
      Some(if n < 0 then -kept else kept)
  }

  /** The integers Table A.1 has codes for. */
  predicate Codable(v: Option<int>) {
    v.Some? ==> -4436 - 0x1_0000_0000 < v.value < 4436 + 0x1_0000_0000
  }

  lemma KeptExactly(v: Option<int>)
    ensures Kept(v) == v <==> Codable(v)
  {
    Pow2Small();
    if v.Some? {
      var mag := Magnitude(v);
      if mag >= 4436 && Codable(v) {
        DivModUnique(mag - 4436, 0, mag - 4436, Pow2(32));
      }
    }
  }

  lemma {:induction false} ReadBitsBack<K>(t: Tape<K>, wrap: nat -> K, next: (nat, Bit) -> nat, prev: nat,
                                           bits: seq<Bit>, acc: nat, rest: seq<Event<K>>)
    requires Plays(t, BitEvents(wrap, next, prev, bits) + rest)
    ensures var (v, p, t') := ReadBits(t, wrap, next, prev, |bits|, acc);
            v == Append(acc, bits) && p == Prev(next, prev, bits) && Plays(t', rest)
    decreases |bits|
  {
    var events := BitEvents(wrap, next, prev, bits) + rest;
    if bits == [] {
      assert events == rest;
    } else {
      assert events[1..] == BitEvents(wrap, next, next(prev, bits[0]), bits[1..]) + rest;
      ReadBitsBack(Read(t, wrap(prev)).1, wrap, next, next(prev, bits[0]), bits[1..], 2 * acc + bits[0], rest);
    }
  }

  /** The prefix from `at` on: a 1 for each range passed over, and a 0 but after the last. */
  lemma PrefixFirst(r: Range, at: nat, bits: seq<Bit>)
    requires at <= r
    ensures at < r ==> Prefix(r)[at..] + bits == [1] + (Prefix(r)[at + 1..] + bits)
    ensures at == r < 5 ==> Prefix(r)[at..] + bits == [0] + bits
    ensures at == r == 5 ==> Prefix(r)[at..] + bits == bits
  {
  }

  lemma ReadMagnitudeParts<K>(t: Tape<K>, wrap: nat -> K, prev: nat, r: Range)
    ensures VALUES[r] == (RangeBits(r), RangeStart(r))
    ensures var (bit, t') := Read(t, wrap(prev));
            if r < 5 && bit == 1 then ReadMagnitude(t, wrap, prev, r) == ReadMagnitude(t', wrap, IntNext(prev, 1), r + 1)
            else
              var (v, _, t'') := if r < 5 then ReadBits(t', wrap, IntNext, IntNext(prev, 0), RangeBits(r), 0)
                                 else ReadBits(t, wrap, IntNext, prev, RangeBits(r), 0);
              ReadMagnitude(t, wrap, prev, r) == (v + RangeStart(r), t'')
  {
    hide Read, ReadBits, IntNext;
  }

  lemma {:induction false} ReadMagnitudeBack<K>(t: Tape<K>, wrap: nat -> K, prev: nat, at: nat, r: Range, bits: seq<Bit>,
                                                rest: seq<Event<K>>)
    requires at <= r && |bits| == RangeBits(r)
    requires Plays(t, BitEvents(wrap, IntNext, prev, Prefix(r)[at..] + bits) + rest)
    ensures var (v, t') := ReadMagnitude(t, wrap, prev, at);
            v == Append(0, bits) + RangeStart(r) && Plays(t', rest)
    decreases r - at
  {
    hide *;
    PrefixFirst(r, at, bits);
    ReadMagnitudeParts(t, wrap, prev, at);
    if at < r {
      NextBit(t, wrap, prev, 1, Prefix(r)[at + 1..] + bits, rest);
      ReadMagnitudeBack(Read(t, wrap(prev)).1, wrap, IntNext(prev, 1), at + 1, r, bits, rest);
    } else if at < 5 {
      NextBit(t, wrap, prev, 0, bits, rest);
      ReadBitsBack(Read(t, wrap(prev)).1, wrap, IntNext, IntNext(prev, 0), bits, 0, rest);
    } else {
      ReadBitsBack(t, wrap, IntNext, prev, bits, 0, rest);
    }
  }

  /** The next bit is read, and the bits after it are still to come. */
  lemma NextBit<K>(t: Tape<K>, wrap: nat -> K, prev: nat, b: Bit, bits: seq<Bit>, rest: seq<Event<K>>)
    requires Plays(t, BitEvents(wrap, IntNext, prev, [b] + bits) + rest)
    ensures var (bit, t') := Read(t, wrap(prev));
            bit == b && Plays(t', BitEvents(wrap, IntNext, IntNext(prev, b), bits) + rest)
  {
    hide *;
    BitEventsFirst(wrap, IntNext, prev, b, bits);
    var tail := BitEvents(wrap, IntNext, IntNext(prev, b), bits) + rest;
    assert BitEvents(wrap, IntNext, prev, [b] + bits) + rest == [Event(wrap(prev), b)] + tail;
    PlaysNext(t, Event(wrap(prev), b), tail);
  }

  lemma ReadIntParts<K>(t: Tape<K>, wrap: nat -> K)
    ensures var (sign, t') := Read(t, wrap(1));
            var (mag, t'') := ReadMagnitude(t', wrap, IntNext(1, sign), 0);
            ReadInt(t, wrap) == (Signed(sign, mag), t'')
  {
    hide Read, ReadMagnitude;
  }

  /** Decoding an integer gives what thirty-two bits keep of it, out-of-band included. */
  lemma ReadIntBack<K>(t: Tape<K>, wrap: nat -> K, v: Option<int>, rest: seq<Event<K>>)
    requires Plays(t, IntEvents(wrap, v) + rest)
    ensures var (r, t') := ReadInt(t, wrap);
            r == Kept(v) && Plays(t', rest)
  {
    hide *;
    var mag := Magnitude(v);
    var r := RangeOf(mag);
    RangeFits(mag);
    var bits := BitsOf(mag - RangeStart(r), RangeBits(r));
    var tail := BitEvents(wrap, IntNext, IntNext(1, SignOf(v)), Prefix(r)[0..] + bits) + rest;
    IntEventsSplit(wrap, v, rest);
    PlaysNext(t, Event(wrap(1), SignOf(v)), tail);
    ReadMagnitudeBack(Read(t, wrap(1)).1, wrap, IntNext(1, SignOf(v)), 0, r, bits, rest);
    RangeKept(mag);
    SignedKept(v);
    ReadIntParts(t, wrap);
  }

  lemma RangeFits(mag: nat)
    ensures RangeStart(RangeOf(mag)) <= mag
  {
  }

  /** The sign comes first, then the prefix and the offset. */
  lemma IntEventsSplit<K>(wrap: nat -> K, v: Option<int>, rest: seq<Event<K>>)
    ensures var mag := Magnitude(v);
            var r := RangeOf(mag);
            var tail := Prefix(r)[0..] + BitsOf(mag - RangeStart(r), RangeBits(r));
            IntEvents(wrap, v) + rest
            == [Event(wrap(1), SignOf(v))] + (BitEvents(wrap, IntNext, IntNext(1, SignOf(v)), tail) + rest)
  {
    hide Magnitude, RangeOf, Prefix, BitsOf, SignOf, BitEvents, IntNext;
    RangeFits(Magnitude(v));
    var r := RangeOf(Magnitude(v));
    var prefix, offset := Prefix(r), BitsOf(Magnitude(v) - RangeStart(r), RangeBits(r));
    BitEventsFirst(wrap, IntNext, 1, SignOf(v), prefix[0..] + offset);
    assert [SignOf(v)] + prefix + offset == [SignOf(v)] + (prefix[0..] + offset);
  }

  /** The offset into the range, cut to its bits, is what is kept of the magnitude. */
  lemma RangeKept(mag: nat)
    ensures var r := RangeOf(mag);
            Append(0, BitsOf(mag - RangeStart(r), RangeBits(r))) + RangeStart(r)
            == if mag < 4436 then mag else 4436 + (mag - 4436) % Pow2(32)
  {
    var r := RangeOf(mag);
    AppendBits(0, mag - RangeStart(r), RangeBits(r));
    Pow2Small();
    if r < 5 {
      DivModUnique(mag - RangeStart(r), 0, mag - RangeStart(r), Pow2(RangeBits(r)));
    }
  }

  lemma SignedKept(v: Option<int>)
    ensures var mag := Magnitude(v);
            Signed(SignOf(v), if mag < 4436 then mag else 4436 + (mag - 4436) % Pow2(32)) == Kept(v)
  {
  }

  // ---- Symbol identifiers (A.3) ---------------------------------------------------------------

  function IdEvents<K>(wrap: nat -> K, len: nat, code: nat): seq<Event<K>> {
    BitEvents(wrap, IdNext, 1, BitsOf(code, len))
  }

  function ReadId<K>(t: Tape<K>, wrap: nat -> K, len: nat): (int, Tape<K>) {
    var (_, prev, t') := ReadBits(t, wrap, IdNext, 1, len, 0);
    (prev - Pow2(len), t')
  }

  /** Decoding an identifier gives the code, cut to the code length. */
  lemma ReadIdBack<K>(t: Tape<K>, wrap: nat -> K, len: nat, code: nat, rest: seq<Event<K>>)
    requires Plays(t, IdEvents(wrap, len, code) + rest)
    ensures var (r, t') := ReadId(t, wrap, len);
            r == code % Pow2(len) && (r == code <==> code < Pow2(len)) && Plays(t', rest)
  {
    ReadBitsBack(t, wrap, IdNext, 1, BitsOf(code, len), 0, rest);
    IdPrev(1, BitsOf(code, len));
    AppendBits(1, code, len);
    if code < Pow2(len) {
      DivModUnique(code, 0, code, Pow2(len));
    }
  }

  lemma {:induction false} IdPrev(prev: nat, bits: seq<Bit>)
    ensures Prev(IdNext, prev, bits) == Append(prev, bits)
    decreases |bits|
  {
    if bits != [] {
      IdPrev(IdNext(prev, bits[0]), bits[1..]);
    }
  }

  // ---- End to end -----------------------------------------------------------------------------

  function IntsEvents(vs: seq<Option<int>>): seq<Event<nat>> {
    if vs == [] then [] else IntEvents(Plain, vs[0]) + IntsEvents(vs[1..])
  }

  function ReadInts(t: Tape<nat>, n: nat): seq<Option<int>>
    decreases n
  {
    if n == 0 then []
    else
      var (v, t') := ReadInt(t, Plain);
      [v] + ReadInts(t', n - 1)
  }

  lemma {:induction false} ReadIntsBack(t: Tape<nat>, vs: seq<Option<int>>, rest: seq<Event<nat>>)
    requires Plays(t, IntsEvents(vs) + rest)
    ensures |ReadInts(t, |vs|)| == |vs| && forall i :: 0 <= i < |vs| ==> ReadInts(t, |vs|)[i] == Kept(vs[i])
    decreases |vs|
  {
    hide Plays, IntEvents, ReadInt, Kept;
    if vs != [] {
      var below := IntsEvents(vs[1..]) + rest;
      assert IntsEvents(vs) + rest == IntEvents(Plain, vs[0]) + below;
      ReadIntBack(t, Plain, vs[0], below);
      ReadIntsBack(ReadInt(t, Plain).1, vs[1..], rest);
    }
  }

  lemma {:induction false} IntsKeys(vs: seq<Option<int>>)
    ensures KeysIn(IntsEvents(vs), Blank(512))
  {
    hide BitEvents, IntBits;
    if vs != [] {
      IntKeys(1, IntBits(vs[0]));
      PrevKeys(Plain, IntNext, 1, IntBits(vs[0]), 512, Blank(512));
      IntsKeys(vs[1..]);
    }
  }

  /** Integers coded one after another come back, out-of-band included, exactly where Table A.1 has codes for them. */
  lemma IntegersRoundTrip(vs: seq<Option<int>>)
    ensures var e := Encode(Coder(START, Blank(512)), IntsEvents(vs)).enc;
            && Ready(e)
            && (ReadInts(Open(Flush(e), Blank(512)), |vs|) == vs
                <==> forall i :: 0 <= i < |vs| ==> Codable(vs[i]))
  {
    hide IntsEvents, Encode, Plays, ReadInts, Kept, Codable, Open, Flush, NoMarker;
    IntsKeys(vs);
    RoundTrip(Blank(512), IntsEvents(vs));
    var t := Open(Flush(Encode(Coder(START, Blank(512)), IntsEvents(vs)).enc), Blank(512));
    assert IntsEvents(vs) + [] == IntsEvents(vs);
    ReadIntsBack(t, vs, []);
    forall i | 0 <= i < |vs|
      ensures Kept(vs[i]) == vs[i] <==> Codable(vs[i])
    {
      KeptExactly(vs[i]);
    }
  }

  lemma BeyondKept()
    ensures !Codable(Some(4436 + 0x1_0000_0000)) && Kept(Some(4436 + 0x1_0000_0000)) == Some(4436)
  {
    assert Pow2(32) == 0x1_0000_0000 by {
      Pow2Small();
    }
    hide Pow2;
  }

  /** The first integer without a code, 4436 + 2^32: it is coded all the same, and read as 4436. */
  lemma FirstBeyond()
    ensures var v := Some(4436 + 0x1_0000_0000);
            var e := Encode(Coder(START, Blank(512)), IntsEvents([v])).enc;
            !Codable(v) && Ready(e) && ReadInts(Open(Flush(e), Blank(512)), 1) == [Some(4436)]
  {
    var v := Some(4436 + 0x1_0000_0000);
    hide IntsEvents, Encode, Plays, ReadInts, Kept, Codable, Open, Flush, NoMarker;
    BeyondKept();
    var events := IntsEvents([v]);
    IntsKeys([v]);
    RoundTrip(Blank(512), events);
    assert events + [] == events && |[v]| == 1;
    ReadIntsBack(Open(Flush(Encode(Coder(START, Blank(512)), events).enc), Blank(512)), [v], []);
  }

  // ---- The encoders as they run ---------------------------------------------------------------

  /** A context array of its own names its contexts by their index. */
  function Plain(k: nat): nat { k }

  /** Bits, each under the context PREV names, PREV moving on with each. */
  method SendBits(mq: MQ, cx: Ctx, next: (nat, Bit) -> nat, prev: nat, bits: seq<Bit>) returns (prev': nat)
    requires Ready(mq.State()) && cx.Valid() && PrevsBelow(next, prev, bits, cx.i.Length)
    modifies mq, cx.i, cx.m
    ensures Ready(mq.State()) && prev' == Prev(next, prev, bits)
    ensures Coder(mq.State(), cx.Cells())
         == Encode(old(Coder(mq.State(), cx.Cells())), BitEvents(Plain, next, prev, bits))
    decreases |bits|
  {
    hide *;
    prev' := prev;
    ghost var goal := Encode(Coder(mq.State(), cx.Cells()), BitEvents(Plain, next, prev, bits));
    var k := 0;
    while k < |bits|
      invariant 0 <= k <= |bits| && Ready(mq.State())
      invariant PrevsBelow(next, prev', bits[k..], cx.i.Length)
      invariant Prev(next, prev', bits[k..]) == Prev(next, prev, bits)
      invariant Encode(Coder(mq.State(), cx.Cells()), BitEvents(Plain, next, prev', bits[k..])) == goal
    {
      assert bits[k..][1..] == bits[k + 1..];
      SendNext(Coder(mq.State(), cx.Cells()), cx.i.Length, next, prev', bits[k..]);
      mq.Code(cx, prev', bits[k]);
      prev' := next(prev', bits[k]);
      k := k + 1;
    }
    SendNone(Coder(mq.State(), cx.Cells()), next, prev');
    assert bits[k..] == [];
  }

  lemma SendNone(c: Coder<nat>, next: (nat, Bit) -> nat, prev: nat)
    ensures Encode(c, BitEvents(Plain, next, prev, [])) == c && Prev(next, prev, []) == prev
  {
  }

  lemma SendNext(c: Coder<nat>, limit: nat, next: (nat, Bit) -> nat, prev: nat, bits: seq<Bit>)
    requires bits != [] && PrevsBelow(next, prev, bits, limit)
    ensures var prev', rest := next(prev, bits[0]), bits[1..];
            && prev < limit && PrevsBelow(next, prev', rest, limit) && Prev(next, prev, bits) == Prev(next, prev', rest)
            && Encode(c, BitEvents(Plain, next, prev, bits))
               == Encode(EncodeEvent(c, Event(prev, bits[0])), BitEvents(Plain, next, prev', rest))
  {
    hide EncodeEvent;
    var tail := BitEvents(Plain, next, next(prev, bits[0]), bits[1..]);
    assert BitEvents(Plain, next, prev, bits)[1..] == tail;
  }

  class IntCtx {
    const cx: Ctx

    constructor ()
      ensures cx.Valid() && cx.i.Length == 512 && cx.Cells() == Blank(512) && fresh(cx) && fresh(cx.i) && fresh(cx.m)
    {
      cx := new Ctx(512);
    }

    /** The first range of the table whose end is above `mag`. */
    method FirstWithRoom(mag: nat) returns (r: Range)
      ensures r == RangeOf(mag)
    {
      r := 0;
      while r < 5 && mag >= RangeStart(r + 1)
        invariant 0 <= r <= RangeOf(mag)
      {
        r := r + 1;
      }
    }

    /** The decisions of an integer, in its own 512 contexts. */
    method Enc(mq: MQ, v: Option<int>)
      requires Ready(mq.State()) && cx.Valid() && cx.i.Length == 512
      modifies mq, cx.i, cx.m
      ensures Ready(mq.State())
      ensures Coder(mq.State(), cx.Cells()) == Encode(old(Coder(mq.State(), cx.Cells())), IntEvents(Plain, v))
    {
      hide *;
      var mag := Magnitude(v);
      var r := FirstWithRoom(mag);
      RangeFits(mag);
      IntEventsParts(v);
      SendParts(mq, [SignOf(v)], Prefix(r), BitsOf(mag - RangeStart(r), RangeBits(r)));
    }

    lemma IntEventsParts(v: Option<int>)
      ensures var mag := Magnitude(v);
              var r := RangeOf(mag);
              IntEvents(Plain, v)
              == BitEvents(Plain, IntNext, 1, [SignOf(v)] + Prefix(r) + BitsOf(mag - RangeStart(r), RangeBits(r)))
    {
    }

    method SendParts(mq: MQ, sign: seq<Bit>, prefix: seq<Bit>, offset: seq<Bit>)
      requires Ready(mq.State()) && cx.Valid() && cx.i.Length == 512
      modifies mq, cx.i, cx.m
      ensures Ready(mq.State())
      ensures Coder(mq.State(), cx.Cells())
           == Encode(old(Coder(mq.State(), cx.Cells())), BitEvents(Plain, IntNext, 1, sign + prefix + offset))
    {
      hide *;
      ghost var c := Coder(mq.State(), cx.Cells());
      IntKeys(1, sign);
      var prev := SendBits(mq, cx, IntNext, 1, sign);
      IntKeys(prev, prefix);
      prev := SendBits(mq, cx, IntNext, prev, prefix);
      IntKeys(prev, offset);
      prev := SendBits(mq, cx, IntNext, prev, offset);
      SentInParts(c, IntNext, sign, prefix, offset);
    }
  }

  /** Bits sent in three parts are bits sent at once. */
  lemma SentInParts(c: Coder<nat>, next: (nat, Bit) -> nat, x: seq<Bit>, y: seq<Bit>, z: seq<Bit>)
    ensures var c1 := Encode(c, BitEvents(Plain, next, 1, x));
            var c2 := Encode(c1, BitEvents(Plain, next, Prev(next, 1, x), y));
            Encode(c2, BitEvents(Plain, next, Prev(next, Prev(next, 1, x), y), z))
            == Encode(c, BitEvents(Plain, next, 1, x + y + z))
  {
    BitEventsConcat(Plain, next, 1, x, y);
    BitEventsConcat(Plain, next, 1, x + y, z);
    EncodeConcat(c, BitEvents(Plain, next, 1, x), BitEvents(Plain, next, Prev(next, 1, x), y));
    EncodeConcat(c, BitEvents(Plain, next, 1, x + y), BitEvents(Plain, next, Prev(next, 1, x + y), z));
  }

  class IaidCtx {
    const cx: Ctx
    const len: nat

    constructor (codelen: nat)
      ensures len == codelen && cx.Valid() && cx.i.Length == Pow2(codelen + 1) && cx.Cells() == Blank(Pow2(codelen + 1))
      ensures fresh(cx) && fresh(cx.i) && fresh(cx.m)
    {
      cx := new Ctx(Pow2(codelen + 1));
      len := codelen;
    }

    /** The decisions of an identifier, each under a context of the array. */
    method Enc(mq: MQ, code: nat)
      requires Ready(mq.State()) && cx.Valid() && cx.i.Length == Pow2(len + 1)
      modifies mq, cx.i, cx.m
      ensures Ready(mq.State())
      ensures Coder(mq.State(), cx.Cells()) == Encode(old(Coder(mq.State(), cx.Cells())), IdEvents(Plain, len, code))
    {
      IdKeys(1, BitsOf(code, len), Pow2(len + 1));
      var _ := SendBits(mq, cx, IdNext, 1, BitsOf(code, len));
    }
  }
}
