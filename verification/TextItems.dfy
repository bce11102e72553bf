/**
 The decoders of src/bindings/Binary.cpp as machines over bytes. Each byte gives code points and errors ("items") and
 a next state; what becomes of the items, replacement, failure or a skipped byte order mark, is decided elsewhere.
 */
module TextItems {
  import opened Wrappers
  import opened ByteTypes
  import opened Utf8

  datatype Encoding = Utf8 | Utf16Le | Utf16Be | Windows1252 | XUserDefined

  /** What a decoder says of its input: a code point, or an error. */
  datatype Item = Good(c: nat) | Bad

  /** The UTF-8 decoder's variables, by the names the Encoding Standard gives them. */
  datatype Utf8State = Utf8State(codePoint: nat, seen: nat, needed: nat, lower: Byte, upper: Byte)

  const Fresh8: Utf8State := Utf8State(0, 0, 0, 0x80, 0xBF)

  /** A unit that starts a pair. */
  type High = u: int | 0xD800 <= u <= 0xDBFF witness 0xD800

  /** All a decoder keeps between bytes: the UTF-8 variables, and the UTF-16 half unit and half pair. */
  datatype State = State(utf8: Utf8State, leadByte: Option<Byte>, leadSurrogate: Option<High>)

  const Fresh: State := State(Fresh8, None, None)

  /** One step of the UTF-8 decoder: a finished code point or an error, and whether to offer the byte once more. */
  datatype Step8 = Step8(state: Utf8State, found: Option<nat>, error: bool, reprocess: bool)

  function FirstByte(u: Utf8State, b: Byte): Step8 {
    if b <= 0x7F then Step8(u, Some(b), false, false)
    else if 0xC2 <= b <= 0xDF then Step8(u.(needed := 1, codePoint := b % 0x20), None, false, false)
    else if 0xE0 <= b <= 0xEF then
      Step8(u.(lower := if b == 0xE0 then 0xA0 else u.lower, upper := if b == 0xED then 0x9F else u.upper,
               needed := 2, codePoint := b % 0x10), None, false, false)
    else if 0xF0 <= b <= 0xF4 then
      Step8(u.(lower := if b == 0xF0 then 0x90 else u.lower, upper := if b == 0xF4 then 0x8F else u.upper,
               needed := 3, codePoint := b % 0x08), None, false, false)
    else Step8(u, None, true, false)
  }

  function NextByte(u: Utf8State, b: Byte): Step8 {
    if b < u.lower || b > u.upper then Step8(Fresh8, None, true, true)
    else
      var c := Push(u.codePoint, b);
      if u.seen + 1 != u.needed then Step8(Utf8State(c, u.seen + 1, u.needed, 0x80, 0xBF), None, false, false)
      else Step8(Fresh8, Some(c), false, false)
  }

  function ByteStep8(u: Utf8State, b: Byte): Step8 {
    if u.needed == 0 then FirstByte(u, b) else NextByte(u, b)
  }

  function StepItems(s: Step8): seq<Item> {
    (if s.found.Some? then [Good(s.found.value)] else []) + (if s.error then [Bad] else [])
  }

  /** A state and the items on the way to it. */
  datatype Moved = Moved(state: State, items: seq<Item>)

  /** A byte through the UTF-8 decoder, offered again where it asks for that: at most twice, as a fresh decoder never asks. */
  function Byte8(st: State, b: Byte): Moved {
    var s := ByteStep8(st.utf8, b);
    if s.reprocess then
      var t := ByteStep8(s.state, b);
      Moved(st.(utf8 := t.state), StepItems(s) + StepItems(t))
    else Moved(st.(utf8 := s.state), StepItems(s))
  }

  predicate IsHigh(u: nat) { 0xD800 <= u <= 0xDBFF }

  predicate IsLow(u: nat) { 0xDC00 <= u <= 0xDFFF }

  function Pair(high: nat, low: nat): nat
    requires IsHigh(high) && IsLow(low)
  {
    0x1_0000 + (high - 0xD800) * 0x400 + (low - 0xDC00)
  }

  /** A unit with no high surrogate waiting. */
  function LoneUnit(st: State, u: Unit): Moved {
    if IsHigh(u) then Moved(st.(leadSurrogate := Some(u)), [])
    else if IsLow(u) then Moved(st, [Bad])
    else Moved(st, [Good(u)])
  }

  /** One code unit, after the high surrogate that may wait for its other half. */
  function UnitStep(st: State, u: Unit): Moved {
    if st.leadSurrogate.None? then LoneUnit(st, u)
    else if IsLow(u) then
      Moved(st.(leadSurrogate := None), [Good(Pair(st.leadSurrogate.value, u))])
    else
      var m := LoneUnit(st.(leadSurrogate := None), u);
      Moved(m.state, [Bad] + m.items)
  }

  function UnitOf(little: bool, first: Byte, second: Byte): Unit {
    if little then second * 0x100 + first else first * 0x100 + second
  }

  function Byte16(little: bool, st: State, b: Byte): Moved {
    if st.leadByte.None? then Moved(st.(leadByte := Some(b)), [])
    else UnitStep(st.(leadByte := None), UnitOf(little, st.leadByte.value, b))
  }

  /** windows-1252 from 0x80 on; from 0xA0 on a byte is its own code point again. */
  const WINDOWS: seq<Unit> :=
    [0x20AC, 0x0081, 0x201A, 0x0192, 0x201E, 0x2026, 0x2020, 0x2021] + [0x02C6, 0x2030, 0x0160, 0x2039, 0x0152, 0x008D, 0x017D, 0x008F] +
    [0x0090, 0x2018, 0x2019, 0x201C, 0x201D, 0x2022, 0x2013, 0x2014] + [0x02DC, 0x2122, 0x0161, 0x203A, 0x0153, 0x009D, 0x017E, 0x0178]

  predicate SingleByte(e: Encoding) { e.Windows1252? || e.XUserDefined? }

  /** The code point of a byte that is one by itself. */
  function Single(e: Encoding, b: Byte): nat
    requires SingleByte(e)
  {
    if e.XUserDefined? then if b < 0x80 then b else 0xF780 + b - 0x80
    else if 0x80 <= b <= 0x9F then WINDOWS[b - 0x80] else b
  }

  function ByteMove(e: Encoding, st: State, b: Byte): Moved {
    match e
    case Utf8 => Byte8(st, b)
    case Utf16Le => Byte16(true, st, b)
    case Utf16Be => Byte16(false, st, b)
    case _ => Moved(st, [Good(Single(e, b))])
  }

  function Run(e: Encoding, st: State, bytes: seq<Byte>): Moved
    decreases |bytes|
  {
    if bytes == [] then Moved(st, [])
    else
      var m := ByteMove(e, st, bytes[0]);
      var r := Run(e, m.state, bytes[1..]);
      Moved(r.state, m.items + r.items)
  }

  /** Whether something unfinished waits. */
  predicate Pending(e: Encoding, st: State) {
    match e
    case Utf8 => st.utf8.needed != 0
    case Utf16Le => st.leadByte.Some? || st.leadSurrogate.Some?
    case Utf16Be => st.leadByte.Some? || st.leadSurrogate.Some?
    case _ => false
  }

  /** The end of the input: whatever waits is one error, a half unit after a half pair included. */
  function End(e: Encoding, st: State): Moved {
    if !Pending(e, st) then Moved(st, [])
    else if e.Utf8? then Moved(st.(utf8 := Fresh8), [Bad])
    else Moved(st.(leadByte := None, leadSurrogate := None), [Bad])
  }

  /** All the items of an input that ends. */
  function Items(e: Encoding, st: State, bytes: seq<Byte>): seq<Item> {
    var r := Run(e, st, bytes);
    r.items + End(e, r.state).items
  }

  lemma {:induction false} RunConcat(e: Encoding, st: State, a: seq<Byte>, b: seq<Byte>)
    ensures var r, s := Run(e, st, a), Run(e, Run(e, st, a).state, b); Run(e, st, a + b) == Moved(s.state, r.items + s.items)
    decreases |a|
  {
    hide ByteMove;
    if a == [] {
      assert a + b == b;
    } else {
      var m := ByteMove(e, st, a[0]);
      assert (a + b)[1..] == a[1..] + b && (a + b)[0] == a[0];
      RunConcat(e, m.state, a[1..], b);
      var r := Run(e, m.state, a[1..]);
      var s := Run(e, r.state, b);
      assert m.items + (r.items + s.items) == (m.items + r.items) + s.items;
    }
  }

  lemma ItemsOne(e: Encoding, st: State, s: seq<Byte>)
    requires s != []
    ensures var m := ByteMove(e, st, s[0]); Items(e, st, s) == m.items + Items(e, m.state, s[1..])
  {
    hide ByteMove, End;
  }

  lemma ItemsNone(e: Encoding, st: State)
    ensures Items(e, st, []) == End(e, st).items
  {
    hide End;
  }
}
