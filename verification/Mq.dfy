/**
 The MQ arithmetic coder of ITU-T T.88 Annex E: the encoder's registers and bytes as values,
 the interval coder over unbounded integers that they stand for, and the decoder of section E.3.
 */
module Mq {
  import opened ByteTypes
  import opened Powers

  type Index = i: nat | i < 47
  type Probability = q: nat | 1 <= q <= 0x5601 witness 1

  /** One row of Table E.1. */
  datatype QeRow = QeRow(qe: Probability, nmps: Index, nlps: Index, sw: Bit)

  /** Table E.1, the 47 probability states. */
  const QE: seq<QeRow> :=
    [QeRow(0x5601, 1, 1, 1), QeRow(0x3401, 2, 6, 0), QeRow(0x1801, 3, 9, 0), QeRow(0x0AC1, 4, 12, 0),
     QeRow(0x0521, 5, 29, 0), QeRow(0x0221, 38, 33, 0), QeRow(0x5601, 7, 6, 1), QeRow(0x5401, 8, 14, 0)] +
    [QeRow(0x4801, 9, 14, 0), QeRow(0x3801, 10, 14, 0), QeRow(0x3001, 11, 17, 0), QeRow(0x2401, 12, 18, 0),
     QeRow(0x1C01, 13, 20, 0), QeRow(0x1601, 29, 21, 0), QeRow(0x5601, 15, 14, 1), QeRow(0x5401, 16, 14, 0)] +
    [QeRow(0x5101, 17, 15, 0), QeRow(0x4801, 18, 16, 0), QeRow(0x3801, 19, 17, 0), QeRow(0x3401, 20, 18, 0),
     QeRow(0x3001, 21, 19, 0), QeRow(0x2801, 22, 19, 0), QeRow(0x2401, 23, 20, 0), QeRow(0x2201, 24, 21, 0)] +
    [QeRow(0x1C01, 25, 22, 0), QeRow(0x1801, 26, 23, 0), QeRow(0x1601, 27, 24, 0), QeRow(0x1401, 28, 25, 0),
     QeRow(0x1201, 29, 26, 0), QeRow(0x1101, 30, 27, 0), QeRow(0x0AC1, 31, 28, 0), QeRow(0x09C1, 32, 29, 0)] +
    [QeRow(0x08A1, 33, 30, 0), QeRow(0x0521, 34, 31, 0), QeRow(0x0441, 35, 32, 0), QeRow(0x02A1, 36, 33, 0),
     QeRow(0x0221, 37, 34, 0), QeRow(0x0141, 38, 35, 0), QeRow(0x0111, 39, 36, 0), QeRow(0x0085, 40, 37, 0)] +
    [QeRow(0x0049, 41, 38, 0), QeRow(0x0025, 42, 39, 0), QeRow(0x0015, 43, 40, 0), QeRow(0x0009, 44, 41, 0),
     QeRow(0x0005, 45, 42, 0), QeRow(0x0001, 45, 43, 0), QeRow(0x5601, 46, 46, 0)]

  /** A context: the probability state and the more probable symbol. */
  datatype Cell = Cell(i: Index, m: Bit)

  function Other(b: Bit): Bit { 1 - b }

  function Adapt(cell: Cell, mps: bool): Cell {
    var row := QE[cell.i];
    if mps then Cell(row.nmps, cell.m)
    else Cell(row.nlps, if row.sw == 1 then Other(cell.m) else cell.m)
  }

  // ---- Values of byte strings -----------------------------------------------------------------

  /** How many bits byte `j` of `out` carries beyond byte `j - 1`: seven after 0xFF (bit stuffing), else eight. */
  function Width(out: seq<Byte>, j: nat): (w: nat)
    ensures w == 7 || w == 8
  {
    if 0 < j < |out| && out[j - 1] == 0xFF then 7 else 8
  }

  /** Byte `j` of `out`, which 1 bits continue past its end. */
  function ByteAt(out: seq<Byte>, j: nat): Byte {
    if j < |out| then out[j] else 0xFF
  }

  /** The bits that bytes 1 to `j` add after byte 0. */
  function HeadBits(out: seq<Byte>, j: nat): nat {
    if j == 0 then 0 else HeadBits(out, j - 1) + Width(out, j)
  }

  /** The number bytes 0 to `j` spell; a stuffed byte overlaps the byte before it by its carry bit. */
  function HeadVal(out: seq<Byte>, j: nat): nat {
    if j == 0 then ByteAt(out, 0)
    else HeadVal(out, j - 1) * Pow2(Width(out, j)) + ByteAt(out, j)
  }

  lemma {:induction false} HeadAgree(f: seq<Byte>, g: seq<Byte>, j: nat)
    requires j < |f| && j < |g|
    requires forall i :: 0 <= i < j ==> f[i] == g[i]
    ensures HeadBits(f, j) == HeadBits(g, j)
    ensures HeadVal(f, j) - f[j] == HeadVal(g, j) - g[j]
  {
    if j > 0 {
      HeadAgree(f, g, j - 1);
    }
  }

  lemma {:induction false} HeadBitsMonotone(out: seq<Byte>, i: nat, j: nat)
    requires i <= j
    ensures HeadBits(out, i) <= HeadBits(out, j)
    decreases j
  {
    if i < j {
      HeadBitsMonotone(out, i, j - 1);
    }
  }

  // ---- The interval coder over unbounded integers ---------------------------------------------

  /** The numbers from `low` up to, but without, `low + width`, in units of 2^-scale. */
  datatype Interval = Interval(low: nat, width: nat, scale: nat)

  const WHOLE := Interval(0, 0x8000, 15)

  /** Annex E.1.2: the less probable symbol takes qe at the bottom, unless that is the larger part. */
  predicate TakesLower(width: nat, qe: nat, mps: bool)
    requires qe <= width
  {
    if width - qe < qe then mps else !mps
  }

  function Narrow(iv: Interval, qe: nat, mps: bool): Interval
    requires qe <= iv.width
  {
    if TakesLower(iv.width, qe, mps) then iv.(width := qe)
    else iv.(low := iv.low + qe, width := iv.width - qe)
  }

  function Double(iv: Interval): Interval {
    Interval(2 * iv.low, 2 * iv.width, iv.scale + 1)
  }

  function Normalize(iv: Interval): (r: Interval)
    requires iv.width > 0
    ensures r.width >= 0x8000
    decreases 0x8000 - iv.width
  {
    if iv.width >= 0x8000 then iv else Normalize(Double(iv))
  }

  function Step(iv: Interval, cell: Cell, d: Bit): (r: (Interval, Cell))
    requires iv.width >= 0x8000
    ensures r.0.width >= 0x8000
  {
    var mps := d == cell.m;
    var n := Narrow(iv, QE[cell.i].qe, mps);
    if mps && n.width >= 0x8000 then (n, cell) else (Normalize(n), Adapt(cell, mps))
  }

  // ---- The encoder of section E.2 -------------------------------------------------------------

  /** The registers, and the bytes so far; byte 0 is the one before the first. */
  datatype Enc = Enc(a: nat, c: nat, ct: nat, out: seq<Byte>)

  const START := Enc(0x8000, 0, 12, [0])

  function Last(out: seq<Byte>): Byte
    requires out != []
  {
    out[|out| - 1]
  }

  function ByteOut(e: Enc): (r: Enc)
    requires e.out != []
    ensures r.out != [] && 7 <= r.ct <= 8
  {
    if Last(e.out) == 0xFF then
      Enc(e.a, e.c % 0x10_0000, 7, e.out + [e.c / 0x10_0000 % 0x100])
    else if e.c < 0x800_0000 then
      Enc(e.a, e.c % 0x8_0000, 8, e.out + [e.c / 0x8_0000 % 0x100])
    else
      var carried := e.out[|e.out| - 1 := Last(e.out) + 1];
      if Last(carried) == 0xFF then
        var c := e.c % 0x800_0000;
        Enc(e.a, c % 0x10_0000, 7, carried + [c / 0x10_0000 % 0x100])
      else
        Enc(e.a, e.c % 0x8_0000, 8, carried + [e.c / 0x8_0000 % 0x100])
  }

  function Shift(e: Enc): (r: Enc)
    requires e.out != [] && e.ct >= 1
    ensures r.out != [] && r.a == 2 * e.a && r.ct >= 1
  {
    var s := Enc(2 * e.a, 2 * e.c, e.ct - 1, e.out);
    if s.ct == 0 then ByteOut(s) else s
  }

  function Renorm(e: Enc): (r: Enc)
    requires e.out != [] && e.ct >= 1 && e.a > 0
    decreases 0x8000 - e.a
  {
    if e.a >= 0x8000 then e else Renorm(Shift(e))
  }

  /** The interval part of CODEMPS and CODELPS. */
  function Split(e: Enc, qe: nat, mps: bool): Enc
    requires qe <= e.a
  {
    if TakesLower(e.a, qe, mps) then e.(a := qe) else e.(c := e.c + qe, a := e.a - qe)
  }

  function Encode1(e: Enc, cell: Cell, d: Bit): (r: (Enc, Cell))
    requires e.out != [] && e.ct >= 1 && e.a >= 0x8000
  {
    var mps := d == cell.m;
    var n := Split(e, QE[cell.i].qe, mps);
    if mps && n.a >= 0x8000 then (n, cell) else (Renorm(n), Adapt(cell, mps))
  }

  /** SETBITS: as many 1 bits at the end as the interval lets there be. */
  function SetBits(e: Enc): nat {
    var c := e.c - e.c % 0x1_0000 + 0xFFFF;
    if c >= e.c + e.a then c - 0x8000 else c
  }

  /** The two bytes FLUSH writes, the register `a` left to say how wide the interval still is. */
  function Drain(e: Enc): (r: Enc)
    requires e.out != []
    ensures r.out != []
  {
    var e1 := ByteOut(Enc(ShiftLeft(1, e.ct), ShiftLeft(SetBits(e), e.ct), 0, e.out));
    ByteOut(Enc(ShiftLeft(e1.a, e1.ct), ShiftLeft(e1.c, e1.ct), 0, e1.out))
  }

  /** The marker that ends the data; a last 0xFF serves as its first half. */
  function Terminated(out: seq<Byte>): seq<Byte>
    requires out != []
  {
    out[1..] + (if Last(out) == 0xFF then [0xAC] else [0xFF, 0xAC])
  }

  function Flush(e: Enc): seq<Byte>
    requires e.out != []
  {
    Terminated(Drain(e).out)
  }

  // ---- What the registers stand for -----------------------------------------------------------

  /** The weight of the last byte's low bit, against the register's. */
  function Unit(e: Enc): nat
    requires e.ct <= 27
  {
    Pow2(27 - e.ct)
  }

  function Abs(e: Enc): Interval
    requires e.out != [] && e.ct <= 27
  {
    var j := |e.out| - 1;
    Interval(HeadVal(e.out, j) * Unit(e) + e.c, e.a, HeadBits(e.out, j) + 27 - e.ct)
  }

  /** No byte after an 0xFF could be taken for a marker. */
  predicate NoMarker(out: seq<Byte>) {
    forall i :: 0 < i < |out| && out[i - 1] == 0xFF ==> out[i] <= 0x8F
  }

  /** What every step of the encoder keeps, the moment before BYTEOUT (ct == 0) included. */
  predicate Valid(e: Enc) {
    && e.out != [] && e.out[0] == 0 && NoMarker(e.out)
    && e.ct <= 12 && e.a > 0
    && e.c + e.a <= 9 * Pow2(24 - e.ct)
    && (|e.out| == 1 ==> e.c + e.a <= Unit(e))
    && (|e.out| > 1 && e.out[|e.out| - 2] == 0xFF ==> Last(e.out) * Unit(e) + e.c + e.a <= 0x90 * Unit(e))
  }

  /** `r` is `out` and one byte more, with a carry into the last byte of `out` at most. */
  predicate Grows(out: seq<Byte>, r: seq<Byte>) {
    && out != [] && |r| == |out| + 1
    && r[..|out| - 1] == out[..|out| - 1]
    && Last(out) <= r[|out| - 1] <= Last(out) + 1
  }

  lemma GrownHead(out: seq<Byte>, r: seq<Byte>)
    requires Grows(out, r)
    ensures HeadBits(r, |out|) == HeadBits(out, |out| - 1) + Width(r, |out|)
    ensures HeadVal(r, |out|) ==
            (HeadVal(out, |out| - 1) + r[|out| - 1] - Last(out)) * Pow2(Width(r, |out|)) + Last(r)
  {
    hide *;
    var n := |out| - 1;
    GrownSame(out, r);
    HeadAgree(out, r, n);
    HeadNext(r, |out|);
    assert HeadVal(r, n) == HeadVal(out, n) + r[n] - Last(out);
  }

  lemma GrownSame(out: seq<Byte>, r: seq<Byte>)
    requires Grows(out, r)
    ensures out != [] && |r| == |out| + 1 && Last(out) == out[|out| - 1] && Last(r) == r[|out|]
    ensures forall i :: 0 <= i < |out| - 1 ==> out[i] == r[i]
  {
    assert forall i :: 0 <= i < |out| - 1 ==> out[i] == out[..|out| - 1][i] == r[..|out| - 1][i] == r[i];
  }

  lemma HeadNext(out: seq<Byte>, j: nat)
    requires 0 < j < |out|
    ensures HeadBits(out, j) == HeadBits(out, j - 1) + Width(out, j)
    ensures HeadVal(out, j) == HeadVal(out, j - 1) * Pow2(Width(out, j)) + out[j]
  {
    hide Pow2, Width;
  }

  /** The register's content `c`, cut at a unit into a byte and what stays; `k` is the carry. */
  lemma Cut(v: int, k: int, width: nat, unit: nat, c: nat)
    requires (width == 7 && unit == 0x10_0000) || (width == 8 && unit == 0x8_0000)
    requires 0 <= c - k * 0x800_0000 < 0x100 * unit
    ensures var rest := c - k * 0x800_0000;
            ((v + k) * Pow2(width) + rest / unit) * unit + rest % unit == v * 0x800_0000 + c
  {
    var rest := c - k * 0x800_0000;
    SmallQuotient(rest, unit);
    assert Pow2(7) == 128 && Pow2(8) == 256;
  }

  /** BYTEOUT moves bits from the register to the bytes, and changes nothing of the number they spell. */
  lemma ByteOutExact(e: Enc)
    requires e.out != [] && e.ct == 0 && e.c < 0x1000_0000
    ensures var r := ByteOut(e);
            Abs(r) == Abs(e) && Grows(e.out, r.out) && r.c < Unit(r) && r.a == e.a
  {
    hide ByteOut, HeadVal, HeadBits, Width;
    var r := ByteOut(e);
    var carry := if Last(e.out) != 0xFF && e.c >= 0x800_0000 then 1 else 0;
    ByteOutGrows(e);
    ByteOutSplits(e);
    GrownHead(e.out, r.out);
    Pow2Small();
    Cut(HeadVal(e.out, |e.out| - 1), carry, r.ct, Unit(r), e.c);
  }

  lemma ByteOutGrows(e: Enc)
    requires e.out != [] && e.ct == 0
    ensures var r := ByteOut(e);
            && Grows(e.out, r.out) && Width(r.out, |e.out|) == r.ct && r.a == e.a
            && r.out[|e.out| - 1] == Last(e.out) + (if Last(e.out) != 0xFF && e.c >= 0x800_0000 then 1 else 0)
  {
  }

  /** What BYTEOUT takes and what it leaves is the register without the carry, cut at the new unit. */
  lemma ByteOutSplits(e: Enc)
    requires e.out != [] && e.ct == 0 && e.c < 0x1000_0000
    ensures var r := ByteOut(e);
            var carry := if Last(e.out) != 0xFF && e.c >= 0x800_0000 then 1 else 0;
            var unit := if r.ct == 7 then 0x10_0000 else 0x8_0000;
            var rest := e.c - carry * 0x800_0000;
            0 <= rest < 0x100 * unit && Last(r.out) == rest / unit && r.c == rest % unit
  {
    var c := e.c;
    if Last(e.out) == 0xFF {
      SmallQuotient(c, 0x10_0000);
    } else if c < 0x800_0000 {
      SmallQuotient(c, 0x8_0000);
    } else {
      var rest := c - 0x800_0000;
      DivModUnique(c, 1, rest, 0x800_0000);
      SmallQuotient(rest, 0x10_0000);
      SmallQuotient(rest, 0x8_0000);
      DivModUnique(c, rest / 0x8_0000 + 0x100, rest % 0x8_0000, 0x8_0000);
      DivModUnique(rest / 0x8_0000 + 0x100, 1, rest / 0x8_0000, 0x100);
    }
  }

  lemma SmallQuotient(x: nat, unit: nat)
    requires 0 < unit && x < 0x100 * unit
    ensures x == x / unit * unit + x % unit && 0 <= x / unit < 0x100 && x / unit % 0x100 == x / unit
  {
    MulLess(x / unit, 0x100, unit);
  }

  // ---- What every step keeps ------------------------------------------------------------------

  /** The encoder starts as the whole interval. */
  lemma StartIsWhole()
    ensures Ready(START) && Abs(START) == WHOLE
  {
    Pow2Small();
  }

  /**
   The register is below 2^28 when a byte is due, so a carry goes into one byte and fits there; the byte before the
   first stays 0; and the byte after an 0xFF is at most 0x8F, even after a later carry into it.
   */
  lemma ByteOutMarkers(e: Enc)
    requires Valid(e) && e.ct == 0
    ensures var r := ByteOut(e);
            && e.c < 0x1000_0000 && r.out[0] == 0 && NoMarker(r.out) && r.c < Unit(r)
            && (r.ct == 7 ==> Last(r.out) * Unit(r) + r.c + r.a <= 0x90 * Unit(r))
  {
    Pow2Small();
    var r := ByteOut(e);
    var n := |e.out|;
    ByteOutGrows(e);
    ByteOutSplits(e);
    assert forall i :: 0 <= i < n - 1 ==> e.out[i] == e.out[..n - 1][i] == r.out[i];
    assert r.ct == 7 ==> Last(r.out) * 0x10_0000 + r.c + 0x800_0000 * (r.out[n - 1] - Last(e.out)) == e.c;
  }

  lemma ByteOutValid(e: Enc)
    requires Valid(e) && e.ct == 0 && e.a <= 0x1_0000
    ensures e.c < 0x1000_0000 && Valid(ByteOut(e))
  {
    Pow2Small();
    ByteOutMarkers(e);
    ByteOutGrows(e);
  }

  /** `e` with `k` bits shifted into the register, none of them into a byte. */
  function Shifted(e: Enc, k: nat): Enc
    requires k <= e.ct
  {
    Enc(ShiftLeft(e.a, k), ShiftLeft(e.c, k), e.ct - k, e.out)
  }

  function Scale(iv: Interval, k: nat): Interval {
    Interval(ShiftLeft(iv.low, k), ShiftLeft(iv.width, k), iv.scale + k)
  }

  lemma ShiftedScale(e: Enc, k: nat)
    requires k <= e.ct <= 27 && e.out != []
    ensures Abs(Shifted(e, k)) == Scale(Abs(e), k)
  {
    var v, u, p := HeadVal(e.out, |e.out| - 1), Unit(e), Pow2(k);
    assert Unit(Shifted(e, k)) == u * p by {
      Pow2Add(27 - e.ct, k);
    }
    calc {
      Abs(Shifted(e, k)).low;
      v * (u * p) + e.c * p;
      { MulRegroup(v, u, p); }
      (v * u) * p + e.c * p;
      { MulDistribute(v * u, e.c, p); }
      (v * u + e.c) * p;
    }
  }

  /** Room in some unit is room in a smaller one, with everything scaled. */
  lemma RoomScales(last: nat, x: nat, top: nat, u: nat, p: nat)
    requires last * u + x <= top * u && p > 0
    ensures last * (u * p) + x * p <= top * (u * p)
  {
    MulLess(last * u + x, top * u, p);
    MulDistribute(last * u, x, p);
    MulRegroup(last, u, p);
    MulRegroup(top, u, p);
  }

  /** The content and its bounds shift alike. */
  lemma ShiftedRoom(e: Enc, k: nat)
    requires k <= e.ct <= 24
    ensures var s, p := Shifted(e, k), Pow2(k);
            && Unit(s) == Unit(e) * p && Pow2(24 - s.ct) == Pow2(24 - e.ct) * p && s.c + s.a == (e.c + e.a) * p
            && s.out == e.out && s.ct == e.ct - k && (e.a > 0 ==> s.a > 0)
  {
    Pow2Add(24 - e.ct, k);
    Pow2Add(27 - e.ct, k);
    hide Pow2;
    MulDistribute(e.c, e.a, Pow2(k));
  }

  lemma ShiftedValid(e: Enc, k: nat)
    requires Valid(e) && k <= e.ct
    ensures Valid(Shifted(e, k))
  {
    var s, p, u, w := Shifted(e, k), Pow2(k), Unit(e), Pow2(24 - e.ct);
    ShiftedRoom(e, k);
    hide Shifted, Pow2, Unit, NoMarker, Last;
    RoomScales(0, e.c + e.a, 9, w, p);
    if |e.out| == 1 {
      RoomScales(0, e.c + e.a, 1, u, p);
    } else if e.out[|e.out| - 2] == 0xFF {
      RoomScales(Last(e.out), e.c + e.a, 0x90, u, p);
    }
  }

  lemma ShiftExact(e: Enc)
    requires Valid(e) && e.ct >= 1 && e.a < 0x8000
    ensures Valid(Shift(e)) && Abs(Shift(e)) == Double(Abs(e))
  {
    var s := Enc(2 * e.a, 2 * e.c, e.ct - 1, e.out);
    assert s == Shifted(e, 1) && Scale(Abs(e), 1) == Double(Abs(e)) by {
      assert Pow2(1) == 2;
    }
    ShiftedValid(e, 1);
    ShiftedScale(e, 1);
    if s.ct == 0 {
      ByteOutValid(s);
      ByteOutExact(s);
    }
  }

  /** RENORME, byte by byte, doubles the interval until it is wide enough. */
  lemma {:induction false} RenormExact(e: Enc)
    requires Valid(e) && e.ct >= 1 && e.a <= 0xFFFF
    ensures var r := Renorm(e); Ready(r) && Abs(r) == Normalize(Abs(e))
    decreases 0x8000 - e.a
  {
    if e.a < 0x8000 {
      ShiftExact(e);
      RenormExact(Shift(e));
    }
  }

  lemma SplitExact(e: Enc, qe: Probability, mps: bool)
    requires Valid(e) && qe < e.a
    ensures Valid(Split(e, qe, mps)) && Abs(Split(e, qe, mps)) == Narrow(Abs(e), qe, mps)
  {
  }

  /** Between decisions. */
  predicate Ready(e: Enc) {
    Valid(e) && e.ct >= 1 && 0x8000 <= e.a <= 0xFFFF
  }

  /** One decision coded in the registers is one decision of the interval coder. */
  lemma EncodeExact(e: Enc, cell: Cell, d: Bit)
    requires Ready(e)
    ensures var (r, after) := Encode1(e, cell, d);
            Ready(r) && r.c < 0x1000_0000 && (Abs(r), after) == Step(Abs(e), cell, d)
  {
    var mps := d == cell.m;
    var qe := QE[cell.i].qe;
    SplitExact(e, qe, mps);
    RenormExact(Split(e, qe, mps));
    RegisterBound(Encode1(e, cell, d).0);
  }

  lemma RegisterBound(e: Enc)
    requires Valid(e)
    ensures e.c < 0x1000_0000
  {
    Pow2Monotone(24 - e.ct, 24);
    Pow2Small();
  }
}
