/**
 The decoder of ITU-T T.88 section E.3, and the proof that it reads back what the encoder of section E.2 coded.
 */
module MqDecoder {
  import opened ByteTypes
  import opened Powers
  import opened Mq

  // ---- Table E.1, column by column ------------------------------------------------------------

  /** The probability of the less probable symbol. */
  const LPS_SIZE: seq<Probability> :=
    [0x5601, 0x3401, 0x1801, 0x0AC1, 0x0521, 0x0221, 0x5601, 0x5401] +
    [0x4801, 0x3801, 0x3001, 0x2401, 0x1C01, 0x1601, 0x5601, 0x5401] +
    [0x5101, 0x4801, 0x3801, 0x3401, 0x3001, 0x2801, 0x2401, 0x2201] +
    [0x1C01, 0x1801, 0x1601, 0x1401, 0x1201, 0x1101, 0x0AC1, 0x09C1] +
    [0x08A1, 0x0521, 0x0441, 0x02A1, 0x0221, 0x0141, 0x0111, 0x0085] +
    [0x0049, 0x0025, 0x0015, 0x0009, 0x0005, 0x0001, 0x5601]

  function NextMps(i: Index): Index {
    if i == 5 then 38 else if i == 13 then 29 else if i >= 45 then i else i + 1
  }

  function NextLps(i: Index): Index {
    if i < 7 then [1, 6, 9, 12, 29, 33, 6][i]
    else if i < 14 then [14, 14, 14, 17, 18, 20, 21][i - 7]
    else if i == 14 || i == 46 then i
    else if i <= 20 then i - 1
    else i - 2
  }

  /** The states in which a less probable symbol changes which symbol is the more probable. */
  predicate Switches(i: Index) { i == 0 || i == 6 || i == 14 }

  // ---- The decoder ----------------------------------------------------------------------------

  datatype Dec = Dec(a: nat, c: nat, ct: nat, data: seq<Byte>, bp: nat)

  function ByteIn(d: Dec): (r: Dec)
    ensures r.ct == 7 || r.ct == 8
  {
    var next := ByteAt(d.data, d.bp + 1);
    if ByteAt(d.data, d.bp) == 0xFF then
      if next > 0x8F then d.(c := d.c + 0xFF00, ct := 8)
      else d.(c := d.c + next * 0x200, ct := 7, bp := d.bp + 1)
    else d.(c := d.c + next * 0x100, ct := 8, bp := d.bp + 1)
  }

  function InitDec(data: seq<Byte>): Dec {
    var d := ByteIn(Dec(0x8000, ByteAt(data, 0) * 0x1_0000, 0, data, 0));
    d.(c := d.c * 0x80, ct := d.ct - 7)
  }

  function ShiftIn(d: Dec): Dec {
    var r := if d.ct == 0 then ByteIn(d) else d;
    r.(a := 2 * r.a, c := 2 * r.c, ct := r.ct - 1)
  }

  function RenormD(d: Dec): Dec
    requires d.a > 0
    decreases 0x8000 - d.a
  {
    if d.a >= 0x8000 then d else RenormD(ShiftIn(d))
  }

  /** The answer and the context where the more probable symbol was meant; the sense may switch the other way round. */
  function AfterMps(cell: Cell): (Bit, Cell) { (cell.m, Cell(NextMps(cell.i), cell.m)) }

  function AfterLps(cell: Cell): (Bit, Cell) {
    (1 - cell.m, Cell(NextLps(cell.i), if Switches(cell.i) then 1 - cell.m else cell.m))
  }

  /** MPS_EXCHANGE, figure E.16, with A reduced already. */
  function MpsExchange(a: nat, cell: Cell): (Bit, Cell) {
    if a < LPS_SIZE[cell.i] then AfterLps(cell) else AfterMps(cell)
  }

  /** LPS_EXCHANGE, figure E.17. */
  function LpsExchange(a: nat, cell: Cell): (Bit, Cell) {
    if a < LPS_SIZE[cell.i] then AfterMps(cell) else AfterLps(cell)
  }

  /** DECODE, figure E.14. */
  function Decode1(d: Dec, cell: Cell): (r: (Bit, Dec, Cell))
    requires d.a >= 0x8000
  {
    var qe: nat := LPS_SIZE[cell.i];
    var a := d.a - qe;
    if d.c / 0x1_0000 < qe then
      var (bit, after) := LpsExchange(a, cell);
      (bit, RenormD(d.(a := qe)), after)
    else
      var n := d.(a := a, c := d.c - qe * 0x1_0000);
      if a >= 0x8000 then (cell.m, n, cell)
      else
        var (bit, after) := MpsExchange(a, cell);
        (bit, RenormD(n), after)
  }

  /** The encoder's table is this one. */
  lemma SameTable(i: Index)
    ensures QE[i] == QeRow(LPS_SIZE[i], NextMps(i), NextLps(i), if Switches(i) then 1 else 0)
  {
    SameSizes(i);
    SameNextMps(i);
    SameNextLps(i);
    SameSwitches(i);
    hide QE, LPS_SIZE;
  }

  lemma SameSizes(i: Index)
    ensures QE[i].qe == LPS_SIZE[i]
  {
  }

  lemma SameNextMps(i: Index)
    ensures QE[i].nmps == NextMps(i)
  {
  }

  lemma SameNextLps(i: Index)
    ensures QE[i].nlps == NextLps(i)
  {
  }

  lemma SameSwitches(i: Index)
    ensures QE[i].sw == if Switches(i) then 1 else 0
  {
  }

  /** A context after a decision: the more probable symbol stays, but after the other in states 0, 6 and 14, where it changes. */
  lemma AdaptExactly(cell: Cell)
    ensures Adapt(cell, true) == Cell(NextMps(cell.i), cell.m)
    ensures Adapt(cell, false).i == NextLps(cell.i)
    ensures Adapt(cell, false).m == 1 - cell.m <==> cell.i in {0, 6, 14}
    ensures Adapt(cell, false).m == cell.m <==> cell.i !in {0, 6, 14}
  {
    SameTable(cell.i);
    hide QE;
  }

  // ---- Where the finished bytes lie -----------------------------------------------------------

  /** What bytes 0 to `j` of `f` spell lies in the interval, as far as their bits reach. */
  predicate Inside(f: seq<Byte>, j: nat, iv: Interval) {
    && iv.low * Pow2(HeadBits(f, j)) < (HeadVal(f, j) + 1) * Pow2(iv.scale)
    && HeadVal(f, j) * Pow2(iv.scale) < (iv.low + iv.width) * Pow2(HeadBits(f, j))
  }

  /** The finished bytes `f` keep what `e` has written, and all that follows lies in its interval. */
  ghost predicate Covers(f: seq<Byte>, e: Enc) {
    && e.out != [] && e.ct <= 27 && |f| >= |e.out|
    && f[..|e.out| - 1] == e.out[..|e.out| - 1]
    && Last(e.out) <= f[|e.out| - 1] <= Last(e.out) + 1
    && forall j: nat :: j >= |e.out| ==> Inside(f, j, Abs(e))
  }

  lemma InsideScale(f: seq<Byte>, j: nat, iv: Interval, k: nat)
    ensures Inside(f, j, Scale(iv, k)) <==> Inside(f, j, iv)
  {
    var b, v, p, s := Pow2(HeadBits(f, j)), HeadVal(f, j), Pow2(k), Pow2(iv.scale);
    Pow2Add(iv.scale, k);
    MulDistribute(iv.low, iv.width, p);
    CrossScale(iv.low, b, v + 1, s, p);
    CrossScale(iv.low + iv.width, b, v, s, p);
  }

  /** What lies in a part lies in the whole. */
  lemma InsidePart(f: seq<Byte>, j: nat, part: Interval, iv: Interval)
    requires part.scale == iv.scale
    requires iv.low <= part.low && part.low + part.width <= iv.low + iv.width
    requires Inside(f, j, part)
    ensures Inside(f, j, iv)
  {
    var b := Pow2(HeadBits(f, j));
    MulLess(iv.low, part.low, b);
    MulLess(part.low + part.width, iv.low + iv.width, b);
  }

  /** Fewer bytes spell no more than more bytes do. */
  lemma InsideTop(f: seq<Byte>, j: nat, iv: Interval)
    requires Inside(f, j + 1, iv)
    ensures HeadVal(f, j) * Pow2(iv.scale) < (iv.low + iv.width) * Pow2(HeadBits(f, j))
  {
    var w := Pow2(Width(f, j + 1));
    var v, s, top, b := HeadVal(f, j), Pow2(iv.scale), iv.low + iv.width, Pow2(HeadBits(f, j));
    Pow2Add(HeadBits(f, j), Width(f, j + 1));
    MulLess(v * w, HeadVal(f, j + 1), s);
    CrossScale(v, s, top, b, w);
  }

  // ---- From the finished bytes back through the encoder's steps -------------------------------

  lemma InsideBy(f: seq<Byte>, j: nat, iv: Interval)
    requires iv.low * Pow2(HeadBits(f, j)) < (HeadVal(f, j) + 1) * Pow2(iv.scale)
    requires HeadVal(f, j) * Pow2(iv.scale) < (iv.low + iv.width) * Pow2(HeadBits(f, j))
    ensures Inside(f, j, iv)
  {
  }

  lemma CoversByteOut(f: seq<Byte>, e: Enc)
    requires e.out != [] && e.ct == 0 && e.c < 0x1000_0000 && Covers(f, ByteOut(e))
    ensures Covers(f, e)
  {
    hide *;
    var r := ByteOut(e);
    var m := |e.out|;
    ByteOutExact(e);
    CoveredBytes(f, e, r);
    forall j: nat | j >= m
      ensures Inside(f, j, Abs(e))
    {
      if j == m {
        InsideTop(f, m, Abs(r));
        NewByteInside(f, r);
        InsideBy(f, m, Abs(r));
      } else {
        CoversInside(f, r, j);
      }
    }
    CoversBy(f, e);
  }

  /** The bytes before the one just put out are as they were, the last of them with a carry at most. */
  lemma CoveredBytes(f: seq<Byte>, e: Enc, r: Enc)
    requires e.out != [] && Grows(e.out, r.out) && Covers(f, r)
    ensures var m := |e.out|;
            && |r.out| == m + 1 && |f| > m && r.ct <= 27 && (forall i :: 0 <= i < m ==> f[i] == r.out[i])
            && f[..m - 1] == e.out[..m - 1] && Last(e.out) <= f[m - 1] <= Last(e.out) + 1 && Last(r.out) <= f[m]
            && Inside(f, m + 1, Abs(r))
  {
    hide Inside, Abs;
    var m := |e.out|;
    assert forall i :: 0 <= i < m ==> f[i] == f[..m][i] == r.out[..m][i] == r.out[i];
    assert forall i :: 0 <= i < m - 1 ==> f[i] == r.out[..m - 1][i] == e.out[..m - 1][i];
  }

  lemma CoversInside(f: seq<Byte>, e: Enc, j: nat)
    requires Covers(f, e) && j >= |e.out|
    ensures Inside(f, j, Abs(e))
  {
    hide Inside, Abs;
  }

  lemma CoversBy(f: seq<Byte>, e: Enc)
    requires e.out != [] && e.ct <= 27 && |f| >= |e.out|
    requires f[..|e.out| - 1] == e.out[..|e.out| - 1] && Last(e.out) <= f[|e.out| - 1] <= Last(e.out) + 1
    requires forall j: nat :: j >= |e.out| ==> Inside(f, j, Abs(e))
    ensures Covers(f, e)
  {
    hide Inside, Abs;
  }

  /** The byte just written is at least the interval's low end, cut at that byte. */
  lemma NewByteInside(f: seq<Byte>, r: Enc)
    requires r.out != [] && r.ct <= 27 && r.c < Unit(r) && |f| >= |r.out|
    requires forall i :: 0 <= i < |r.out| - 1 ==> f[i] == r.out[i]
    requires Last(r.out) <= f[|r.out| - 1]
    ensures var j := |r.out| - 1;
            Abs(r).low * Pow2(HeadBits(f, j)) < (HeadVal(f, j) + 1) * Pow2(Abs(r).scale)
  {
    var j := |r.out| - 1;
    HeadAgree(f, r.out, j);
    var v, u, b := HeadVal(f, j), Unit(r), Pow2(HeadBits(f, j));
    MulLess(HeadVal(r.out, j), v, u);
    MulDistribute(v, 1, u);
    MulLess(Abs(r).low, (v + 1) * u, b);
    Pow2Add(HeadBits(f, j), 27 - r.ct);
    MulRegroup(v + 1, u, b);
  }

  lemma CoversShifted(f: seq<Byte>, e: Enc, k: nat)
    requires k <= e.ct <= 27 && e.out != [] && Covers(f, Shifted(e, k))
    ensures Covers(f, e)
  {
    ShiftedScale(e, k);
    forall j: nat | j >= |e.out|
      ensures Inside(f, j, Abs(e))
    {
      InsideScale(f, j, Abs(e), k);
    }
  }

  lemma CoversPart(f: seq<Byte>, part: Enc, e: Enc)
    requires e.out == part.out && e.ct == part.ct
    requires e.c <= part.c && part.c + part.a <= e.c + e.a
    requires Covers(f, part)
    ensures Covers(f, e)
  {
    forall j: nat | j >= |e.out|
      ensures Inside(f, j, Abs(e))
    {
      InsidePart(f, j, Abs(part), Abs(e));
    }
  }

  lemma CoversShift(f: seq<Byte>, e: Enc)
    requires Valid(e) && e.ct >= 1 && e.a < 0x8000 && Covers(f, Shift(e))
    ensures Covers(f, e)
  {
    assert Pow2(1) == 2;
    var s := Enc(2 * e.a, 2 * e.c, e.ct - 1, e.out);
    assert s == Shifted(e, 1);
    if s.ct == 0 {
      DoubledRegister(e);
      CoversByteOut(f, s);
    }
    CoversShifted(f, e, 1);
  }

  lemma DoubledRegister(e: Enc)
    requires Valid(e) && e.ct == 1
    ensures 2 * e.c < 0x1000_0000
  {
    Pow2Small();
  }

  lemma {:induction false} CoversRenorm(f: seq<Byte>, e: Enc)
    requires Valid(e) && e.ct >= 1 && e.a <= 0xFFFF && Covers(f, Renorm(e))
    ensures Covers(f, e)
    decreases 0x8000 - e.a
  {
    if e.a < 0x8000 {
      ShiftExact(e);
      CoversRenorm(f, Shift(e));
      CoversShift(f, e);
    }
  }

  /** Bytes that finish the encoder after a decision finish it before that decision, in the right part. */
  lemma CoversEncode(f: seq<Byte>, e: Enc, cell: Cell, d: Bit)
    requires Ready(e) && Covers(f, Encode1(e, cell, d).0)
    ensures Covers(f, Split(e, QE[cell.i].qe, d == cell.m)) && Covers(f, e)
  {
    var n := Split(e, QE[cell.i].qe, d == cell.m);
    SplitExact(e, QE[cell.i].qe, d == cell.m);
    CoversRenorm(f, n);
    CoversPart(f, n, e);
  }

  // ---- FLUSH ----------------------------------------------------------------------------------

  /** SETBITS stays in the interval, and leaves fifteen 1 bits at the end. */
  lemma SetBitsInside(e: Enc)
    requires Ready(e)
    ensures e.c <= SetBits(e) && SetBits(e) + 1 <= e.c + e.a
    ensures (SetBits(e) + 1) % 0x8000 == 0
  {
    var high := e.c / 0x1_0000;
    assert e.c == high * 0x1_0000 + e.c % 0x1_0000;
    var n := if SetBits(e) == high * 0x1_0000 + 0xFFFF then 2 * high + 2 else 2 * high + 1;
    assert SetBits(e) + 1 == n * 0x8000;
    DivModUnique(SetBits(e) + 1, n, 0, 0x8000);
  }

  /** BYTEOUT takes multiples of its unit from the register, and so leaves what it was a multiple of. */
  lemma ByteOutTakes(e: Enc) returns (n: int)
    requires e.out != [] && e.ct == 0 && e.c < 0x1000_0000
    ensures ByteOut(e).c + ByteOut(e).a == e.c + e.a - n * Unit(ByteOut(e))
  {
    hide ByteOut, Pow2;
    var r := ByteOut(e);
    var carry := if Last(e.out) != 0xFF && e.c >= 0x800_0000 then 1 else 0;
    var rest := e.c - carry * 0x800_0000;
    Pow2Small();
    ByteOutSplits(e);
    ByteOutGrows(e);
    if r.ct == 7 {
      SmallQuotient(rest, 0x10_0000);
      n := rest / 0x10_0000 + 0x80 * carry;
    } else {
      SmallQuotient(rest, 0x8_0000);
      n := rest / 0x8_0000 + 0x100 * carry;
    }
  }

  /** The interval narrowed to the number SETBITS chose. */
  function Chosen(e: Enc): Enc {
    Enc(1, SetBits(e), e.ct, e.out)
  }

  function FirstDue(e: Enc): Enc {
    Shifted(Chosen(e), e.ct)
  }

  function SecondDue(e: Enc): Enc
    requires e.out != []
  {
    var e1 := ByteOut(FirstDue(e));
    Shifted(e1, e1.ct)
  }

  lemma FirstDueFacts(e: Enc)
    requires Ready(e)
    ensures Valid(FirstDue(e)) && FirstDue(e).a <= 0x1000 && (FirstDue(e).c + FirstDue(e).a) % 0x1_0000 == 0
  {
    SetBitsInside(e);
    ShiftedValid(Chosen(e), e.ct);
    Pow2Small();
    Pow2Monotone(e.ct, 12);
    FirstDueEven(e);
  }

  lemma FirstDueEven(e: Enc)
    requires e.ct >= 1 && (SetBits(e) + 1) % 0x8000 == 0
    ensures (FirstDue(e).c + FirstDue(e).a) % 0x1_0000 == 0
  {
    var t, h := SetBits(e) + 1, Pow2(e.ct - 1);
    assert FirstDue(e).c + FirstDue(e).a == t * (2 * h) by {
      MulDistribute(SetBits(e), 1, Pow2(e.ct));
    }
    hide Pow2, SetBits, FirstDue;
    EvenTimes(t, h);
  }

  lemma EvenTimes(t: nat, h: nat)
    requires t % 0x8000 == 0
    ensures t * (2 * h) % 0x1_0000 == 0
  {
    var q := t / 0x8000;
    assert t == q * 0x8000;
    MulRegroup(q, 0x8000, 2 * h);
    MulRegroup(q, h, 0x1_0000);
    assert t * (2 * h) == (q * h) * 0x1_0000;
    DivModUnique(t * (2 * h), q * h, 0, 0x1_0000);
  }

  lemma SecondDueFacts(e: Enc)
    requires Ready(e)
    ensures Valid(SecondDue(e)) && FirstDue(e).c < 0x1000_0000
    ensures (SecondDue(e).c + SecondDue(e).a) % 0x80_0000 == 0
  {
    var d := FirstDue(e);
    var e1 := ByteOut(d);
    FirstDueFacts(e);
    ByteOutValid(d);
    ShiftedValid(e1, e1.ct);
    Pow2Small();
    var n := ByteOutTakes(d);
    SecondMultiple(d.c + d.a, e1.c + e1.a, n, e1.ct);
    MulDistribute(e1.c, e1.a, Pow2(e1.ct));
  }

  lemma SecondMultiple(x: nat, y: nat, n: int, ct: nat)
    requires x % 0x1_0000 == 0
    requires (ct == 7 && y == x - n * 0x10_0000) || (ct == 8 && y == x - n * 0x8_0000)
    ensures y * Pow2(ct) % 0x80_0000 == 0
  {
    var q := x / 0x1_0000;
    Pow2Small();
    if ct == 7 {
      DivModUnique(y * 0x80, q - 0x10 * n, 0, 0x80_0000);
    } else {
      DivModUnique(y * 0x100, 2 * (q - 8 * n), 0, 0x80_0000);
    }
  }

  /** The two bytes of FLUSH leave out only 1 bits of the number SETBITS chose. */
  lemma DrainRest(e: Enc)
    requires Ready(e)
    ensures var r := Drain(e);
            && r == ByteOut(SecondDue(e)) && SecondDue(e).c < 0x1000_0000
            && r.out[0] == 0 && NoMarker(r.out) && r.c < Unit(r) <= r.c + r.a
  {
    var d := SecondDue(e);
    var r := ByteOut(d);
    SecondDueFacts(e);
    ByteOutMarkers(d);
    ByteOutGrows(d);
    var n := ByteOutTakes(d);
    assert Unit(r) == (if r.ct == 7 then 0x10_0000 else 0x8_0000) by {
      Pow2Small();
    }
    MultipleAbove(r.c + r.a, (d.c + d.a) / 0x80_0000, n, Unit(r));
  }

  /** A positive multiple of the unit is at least the unit. */
  lemma MultipleAbove(x: nat, q: int, n: int, unit: nat)
    requires unit == 0x10_0000 || unit == 0x8_0000
    requires x > 0 && x == q * 0x80_0000 - n * unit
    ensures x >= unit
  {
    if unit == 0x10_0000 {
      assert x == (8 * q - n) * 0x10_0000;
    } else {
      assert x == (16 * q - n) * 0x8_0000;
    }
  }

  /** Past its end, `f` goes on in 1 bits. */
  lemma {:induction false} Filled(f: seq<Byte>, j: nat)
    requires f != [] && j >= |f| - 1
    ensures HeadBits(f, j) == HeadBits(f, |f| - 1) + 8 * (j - |f| + 1)
    ensures HeadVal(f, j) + 1 == (HeadVal(f, |f| - 1) + 1) * Pow2(8 * (j - |f| + 1))
  {
    if j > |f| - 1 {
      Filled(f, j - 1);
      var k := 8 * (j - |f|);
      Pow2Add(k, 8);
      assert Pow2(8) == 256;
      MulRegroup(HeadVal(f, |f| - 1) + 1, Pow2(k), 256);
    }
  }

  lemma FilledInside(r: Enc, j: nat)
    requires r.out != [] && r.ct <= 27 && r.c < Unit(r) <= r.c + r.a && j >= |r.out|
    ensures Inside(r.out, j, Abs(r))
  {
    var f, n := r.out, |r.out| - 1;
    var v, u, k := HeadVal(f, n), Unit(r), Pow2(8 * (j - n));
    var b, iv := Pow2(HeadBits(f, n)), Abs(r);
    assert iv == Interval(v * u + r.c, r.a, HeadBits(f, n) + 27 - r.ct) && u == Pow2(27 - r.ct);
    hide HeadVal, HeadBits, Pow2, Abs, Unit, Inside;
    Filled(f, j);
    assert Pow2(HeadBits(f, j)) == b * k by {
      Pow2Add(HeadBits(f, n), 8 * (j - n));
    }
    assert Pow2(iv.scale) == b * u by {
      Pow2Add(HeadBits(f, n), 27 - r.ct);
    }
    MulDistribute(v, 1, u);
    BetweenUnits(v, u, b, k, iv.low, r.a, HeadVal(f, j));
    InsideBy(f, j, iv);
  }

  /** A number within one unit of `v`, and the bits that fill the unit. */
  lemma BetweenUnits(v: nat, u: nat, b: nat, k: nat, low: nat, width: nat, filled: nat)
    requires u > 0 && b > 0 && k > 0 && low < (v + 1) * u <= low + width && filled + 1 == (v + 1) * k
    ensures low * (b * k) < (filled + 1) * (b * u) && filled * (b * u) < (low + width) * (b * k)
  {
    MulPositive(b, k);
    MulPositive(b, u);
    MulFour(v + 1, u, b, k);
    MulLess(low, (v + 1) * u, b * k);
    MulLess((v + 1) * u, low + width, b * k);
    MulLess(filled, filled + 1, b * u);
  }

  lemma MulFour(v: int, u: int, b: int, k: int)
    ensures (v * u) * (b * k) == (v * k) * (b * u)
  {
    calc {
      (v * u) * (b * k);
      { MulRegroup(v, u, b * k); }
      (v * (b * k)) * u;
      { MulRegroup(v, k, b); }
      ((v * k) * b) * u;
      { MulRegroup(v * k, b, u); }
      (v * k) * (b * u);
    }
  }

  /** What FLUSH leaves, continued with 1 bits, lies in the encoder's last interval. */
  lemma FlushInside(e: Enc)
    requires Ready(e)
    ensures var f := Drain(e).out; Covers(f, e) && f[0] == 0 && NoMarker(f) && |f| >= 3
  {
    var r := Drain(e);
    DrainRest(e);
    forall j: nat | j >= |r.out|
      ensures Inside(r.out, j, Abs(r))
    {
      FilledInside(r, j);
    }
    var e1 := ByteOut(FirstDue(e));
    SecondDueFacts(e);
    ByteOutGrows(FirstDue(e));
    ByteOutGrows(SecondDue(e));
    CoversByteOut(r.out, SecondDue(e));
    CoversShifted(r.out, e1, e1.ct);
    CoversByteOut(r.out, FirstDue(e));
    CoversShifted(r.out, Chosen(e), e.ct);
    SetBitsInside(e);
    CoversPart(r.out, Chosen(e), e);
  }

  // ---- The decoder in step with the encoder ---------------------------------------------------

  /** Where the decoder points once it has taken in bytes 0 to `j`: never past the marker. */
  function ReadingAt(f: seq<Byte>, j: nat): int
    requires f != []
  {
    if j < |f| then j - 1 else if Last(f) == 0xFF then |f| - 2 else |f| - 1
  }

  /** The decoder's register is what bytes 0 to `j` spell, less the low end of the interval. */
  predicate Sync(d: Dec, f: seq<Byte>, j: nat, iv: Interval) {
    && j >= 1 && |f| >= 3 && d.data == Terminated(f) && d.bp == ReadingAt(f, j)
    && d.a == iv.width && d.ct <= 8
    && HeadBits(f, j) == iv.scale + d.ct
    && d.c == (HeadVal(f, j) - iv.low * Pow2(d.ct)) * Pow2(16 - d.ct)
  }

  /** Bytes that are not yet written when the interval is `Abs(e)` are the ones a decoder in step reads. */
  lemma ReadsAhead(d: Dec, f: seq<Byte>, j: nat, e: Enc)
    requires Valid(e) && Sync(d, f, j, Abs(e)) && Covers(f, e)
    ensures j >= |e.out|
  {
    var m := |e.out| - 1;
    assert forall i :: 0 <= i < m ==> f[i] == f[..m][i] == e.out[..m][i] == e.out[i];
    HeadAgree(f, e.out, m);
    if j <= m {
      HeadBitsMonotone(f, j, m);
    }
  }

  /** An edge of the interval at or below the bytes read is at or below the register. */
  lemma RegisterEdge(v: nat, low: nat, k: nat, r: nat, x: nat)
    requires k > 0 && r > 0 && k * r == 0x1_0000
    ensures x * k <= v <==> (x - low) * 0x1_0000 <= (v - low * k) * r
  {
    MulDistribute(x, 0 - low as int, k);
    MulLess((x - low) * k, v - low * k, r);
    MulRegroup(x - low, k, r);
  }

  /** The register tells how far above the low end the bytes are. */
  lemma RegisterInside(d: Dec, f: seq<Byte>, j: nat, iv: Interval, part: Interval)
    requires Sync(d, f, j, iv) && part.scale == iv.scale && Inside(f, j, part)
    ensures (part.low - iv.low) * 0x1_0000 <= d.c < (part.low - iv.low + part.width) * 0x1_0000
  {
    var v, k, r, s := HeadVal(f, j), Pow2(d.ct), Pow2(16 - d.ct), Pow2(iv.scale);
    assert k * r == 0x1_0000 by {
      Pow2Add(d.ct, 16 - d.ct);
      Pow2Small();
    }
    assert part.low * k <= v < (part.low + part.width) * k by {
      Pow2Add(iv.scale, d.ct);
      MulRegroup(part.low, s, k);
      MulRegroup(part.low + part.width, s, k);
      MulLess(part.low * k, v + 1, s);
      MulLess(v, (part.low + part.width) * k, s);
    }
    RegisterEdge(v, iv.low, k, r, part.low);
    RegisterEdge(v, iv.low, k, r, part.low + part.width);
  }

  lemma ByteInBytes(d: Dec, f: seq<Byte>, j: nat)
    requires j >= 1 && |f| >= 3 && NoMarker(f) && d.data == Terminated(f) && d.bp == ReadingAt(f, j)
    ensures var r := ByteIn(d);
            && r == d.(c := d.c + ByteAt(f, j + 1) * Pow2(16 - r.ct), ct := r.ct, bp := r.bp)
            && r.ct == Width(f, j + 1) && r.bp == ReadingAt(f, j + 1)
  {
    Pow2Small();
    assert Pow2(9) == 0x200;
    assert forall i :: 0 <= i < |f| - 1 ==> d.data[i] == f[i + 1];
    if j + 1 < |f| {
      assert ByteAt(d.data, d.bp) == f[j] && ByteAt(d.data, d.bp + 1) == f[j + 1];
    } else if j < |f| {
      assert ByteAt(d.data, d.bp) == Last(f);
    }
  }

  lemma ByteInSync(d: Dec, f: seq<Byte>, j: nat, iv: Interval)
    requires Sync(d, f, j, iv) && NoMarker(f) && d.ct == 0
    ensures Sync(ByteIn(d), f, j + 1, iv)
  {
    ByteInBytes(d, f, j);
    var r := ByteIn(d);
    var w := r.ct;
    Pow2Small();
    NextHead(f, j + 1);
    hide HeadVal, HeadBits, ByteIn, Pow2, ByteAt, ReadingAt, NoMarker;
    var v, k, t := HeadVal(f, j), Pow2(w), Pow2(16 - w);
    assert k * t == 0x1_0000 by {
      Pow2Add(w, 16 - w);
    }
    assert Pow2(d.ct) == 1 && Pow2(16 - d.ct) == 0x1_0000 by {
      OneOf16();
    }
    NextByte(v, iv.low, k, t, ByteAt(f, j + 1));
  }

  lemma OneOf16()
    ensures Pow2(0) == 1 && Pow2(16) == 0x1_0000
  {
    Pow2Small();
  }

  lemma NextHead(f: seq<Byte>, j: nat)
    requires j > 0
    ensures HeadBits(f, j) == HeadBits(f, j - 1) + Width(f, j)
    ensures HeadVal(f, j) == HeadVal(f, j - 1) * Pow2(Width(f, j)) + ByteAt(f, j)
  {
    hide Pow2, Width, ByteAt;
  }

  /** A byte taken in, behind what the interval leaves of those before. */
  lemma NextByte(v: nat, low: nat, k: nat, t: nat, x: nat)
    requires k * t == 0x1_0000
    ensures (v * k + x - low * k) * t == (v - low) * 0x1_0000 + x * t
  {
    MulDistribute(v, 0 - low as int, k);
    assert v * k + x - low * k == (v - low) * k + x;
    MulDistribute((v - low) * k, x, t);
    MulRegroup(v - low, k, t);
  }

  lemma ShiftInSync(d: Dec, f: seq<Byte>, j: nat, iv: Interval) returns (next: nat)
    requires Sync(d, f, j, iv) && NoMarker(f)
    ensures Sync(ShiftIn(d), f, next, Double(iv))
  {
    if d.ct == 0 {
      ByteInSync(d, f, j, iv);
      DoubleSync(ByteIn(d), f, j + 1, iv);
      next := j + 1;
    } else {
      DoubleSync(d, f, j, iv);
      next := j;
    }
  }

  lemma DoubleSync(d: Dec, f: seq<Byte>, j: nat, iv: Interval)
    requires Sync(d, f, j, iv) && d.ct > 0
    ensures Sync(d.(a := 2 * d.a, c := 2 * d.c, ct := d.ct - 1), f, j, Double(iv))
  {
    var k, r, v := Pow2(d.ct - 1), Pow2(16 - d.ct), HeadVal(f, j);
    assert Pow2(d.ct) == 2 * k && Pow2(17 - d.ct) == 2 * r;
    MulRegroup(iv.low, 2, k);
    assert (v - iv.low * (2 * k)) * (2 * r) == 2 * ((v - iv.low * (2 * k)) * r) by {
      MulRegroup(v - iv.low * (2 * k), 2, r);
    }
  }

  lemma {:induction false} RenormSync(d: Dec, f: seq<Byte>, j: nat, iv: Interval) returns (next: nat)
    requires Sync(d, f, j, iv) && NoMarker(f) && iv.width > 0
    ensures Sync(RenormD(d), f, next, Normalize(iv))
    decreases 0x8000 - iv.width
  {
    if d.a >= 0x8000 {
      next := j;
    } else {
      next := ShiftInSync(d, f, j, iv);
      next := RenormSync(ShiftIn(d), f, next, Double(iv));
    }
  }

  /** The decoder starts on the whole interval. */
  lemma InitSync(f: seq<Byte>)
    requires |f| >= 3 && f[0] == 0 && NoMarker(f)
    ensures Sync(InitDec(Terminated(f)), f, 2, WHOLE)
  {
    var data := Terminated(f);
    var first: nat := f[1];
    var d := Dec(0x8000, first * 0x1_0000, 0, data, 0);
    FirstByte(f);
    ByteInSync(d, f, 1, Interval(0, 0x8000, 8));
    var r := ByteIn(d);
    var p := Pow2(16 - r.ct);
    assert Pow2(23 - r.ct) == p * 0x80 by {
      Pow2Add(16 - r.ct, 7);
      Pow2Small();
    }
    MulRegroup(HeadVal(f, 2), p, 0x80);
  }

  lemma FirstByte(f: seq<Byte>)
    requires |f| >= 3 && f[0] == 0
    ensures HeadVal(f, 1) == f[1] && HeadBits(f, 1) == 8 && Pow2(0) == 1 && Pow2(16) == 0x1_0000
    ensures ByteAt(Terminated(f), 0) == f[1]
  {
    Pow2Small();
    assert HeadVal(f, 0) == 0 && Width(f, 1) == 8;
  }

  /** The register moves down with the low end. */
  lemma NarrowSync(d: Dec, f: seq<Byte>, j: nat, iv: Interval, qe: nat)
    requires Sync(d, f, j, iv) && qe <= iv.width && d.c >= qe * 0x1_0000
    ensures Sync(d.(a := d.a - qe, c := d.c - qe * 0x1_0000), f, j, Interval(iv.low + qe, iv.width - qe, iv.scale))
  {
    hide HeadVal, HeadBits, Pow2;
    Pow2Add(d.ct, 16 - d.ct);
    Pow2Small();
    LowerRegister(HeadVal(f, j), iv.low, qe, Pow2(d.ct), Pow2(16 - d.ct));
  }

  lemma LowerRegister(v: int, low: int, qe: int, k: int, r: int)
    requires k * r == 0x1_0000
    ensures (v - (low + qe) * k) * r == (v - low * k) * r - qe * 0x1_0000
  {
    MulDistribute(low, qe, k);
    MulDistribute(v - (low + qe) * k, qe * k, r);
    MulRegroup(qe, k, r);
  }

  /** The decoder on its way into one part of the interval. */
  function Into(d: Dec, qe: nat, lower: bool): Dec
    requires qe <= d.a && (lower || qe * 0x1_0000 <= d.c)
  {
    if lower then d.(a := qe) else d.(a := d.a - qe, c := d.c - qe * 0x1_0000)
  }

  /** ENCODE and DECODE, by the part of the interval taken. */
  lemma CodeByPart(e: Enc, d: Dec, cell: Cell, bit: Bit)
    requires Ready(e) && d.a == e.a
    requires d.c / 0x1_0000 < QE[cell.i].qe <==> TakesLower(d.a, QE[cell.i].qe, bit == cell.m)
    ensures var qe, mps := QE[cell.i].qe, bit == cell.m;
            var n := Split(e, qe, mps);
            var after := if mps && n.a >= 0x8000 then cell else Adapt(cell, mps);
            && Encode1(e, cell, bit) == (Renorm(n), after)
            && Decode1(d, cell) == (bit, RenormD(Into(d, qe, TakesLower(d.a, qe, mps))), after)
  {
    hide QE, Valid, Adapt, Renorm, RenormD, Encode1, Decode1;
    EncodeByPart(e, cell, bit);
    DecodeByPart(d, cell, bit);
  }

  lemma EncodeByPart(e: Enc, cell: Cell, bit: Bit)
    requires Ready(e)
    ensures QE[cell.i].qe < e.a && e.out != []
    ensures var mps := bit == cell.m;
            var n := Split(e, QE[cell.i].qe, mps);
            Encode1(e, cell, bit) == (Renorm(n), if mps && n.a >= 0x8000 then cell else Adapt(cell, mps))
  {
    var qe := QE[cell.i].qe;
    assert e.out != [] && e.ct >= 1;
    hide QE, Valid, Adapt;
    RenormDone(Split(e, qe, bit == cell.m));
    hide Renorm;
  }

  lemma DecodeByPart(d: Dec, cell: Cell, bit: Bit)
    requires 0x8000 <= d.a
    requires d.c / 0x1_0000 < QE[cell.i].qe <==> TakesLower(d.a, QE[cell.i].qe, bit == cell.m)
    ensures var qe, mps := QE[cell.i].qe, bit == cell.m;
            var n := Into(d, qe, TakesLower(d.a, qe, mps));
            Decode1(d, cell) == (bit, RenormD(n), if mps && n.a >= 0x8000 then cell else Adapt(cell, mps))
  {
    var qe := QE[cell.i].qe;
    SameTable(cell.i);
    AdaptExactly(cell);
    hide QE, Adapt, LPS_SIZE, NextMps, NextLps;
    RenormDDone(Into(d, qe, TakesLower(d.a, qe, bit == cell.m)));
    hide RenormD;
  }

  lemma RenormDone(e: Enc)
    requires e.out != [] && e.ct >= 1
    ensures e.a >= 0x8000 ==> Renorm(e) == e
  {
    hide ByteOut;
  }

  lemma RenormDDone(d: Dec)
    ensures d.a >= 0x8000 ==> RenormD(d) == d
  {
  }

  /** The register points into the part the encoder chose. */
  lemma PartInStep(d: Dec, f: seq<Byte>, j: nat, e: Enc, qe: Probability, mps: bool)
    requires Ready(e) && Sync(d, f, j, Abs(e)) && Covers(f, e) && Covers(f, Split(e, qe, mps))
    ensures var lower := TakesLower(e.a, qe, mps);
            (lower <==> d.c / 0x1_0000 < qe) && Sync(Into(d, qe, lower), f, j, Abs(Split(e, qe, mps)))
  {
    var iv, part := Abs(e), Abs(Split(e, qe, mps));
    assert iv.width == e.a && Valid(e) && qe < e.a;
    SplitExact(e, qe, mps);
    ReadsAhead(d, f, j, e);
    assert Inside(f, j, part) && d.a == e.a;
    hide HeadVal, HeadBits, Pow2, Abs, Inside, Covers, Split, Valid, Sync;
    RegisterInside(d, f, j, iv, part);
    WholeQuotient(d.c, qe);
    if TakesLower(e.a, qe, mps) {
      LowerSync(d, f, j, iv, qe);
    } else {
      NarrowSync(d, f, j, iv, qe);
    }
  }

  lemma WholeQuotient(c: int, q: nat)
    ensures c < q * 0x1_0000 <==> c / 0x1_0000 < q
  {
  }

  /** The lower part keeps the register. */
  lemma LowerSync(d: Dec, f: seq<Byte>, j: nat, iv: Interval, qe: nat)
    requires Sync(d, f, j, iv)
    ensures Sync(d.(a := qe), f, j, iv.(width := qe))
  {
    hide HeadVal, HeadBits, Pow2;
  }

  /** DECODE answers the decision ENCODE was given, changes the context alike, and stays in step. */
  lemma DecodeInStep(d: Dec, f: seq<Byte>, j: nat, e: Enc, cell: Cell, bit: Bit) returns (next: nat)
    requires Ready(e) && NoMarker(f) && Sync(d, f, j, Abs(e)) && Covers(f, Encode1(e, cell, bit).0)
    ensures var (e', cell') := Encode1(e, cell, bit);
            var (b, d', c') := Decode1(d, cell);
            b == bit && c' == cell' && Sync(d', f, next, Abs(e'))
  {
    var qe := QE[cell.i].qe;
    var mps := bit == cell.m;
    CoversEncode(f, e, cell, bit);
    PartInStep(d, f, j, e, qe, mps);
    CodeByPart(e, d, cell, bit);
    var n := Split(e, qe, mps);
    assert Valid(n) && Abs(Renorm(n)) == Normalize(Abs(n)) by {
      SplitExact(e, qe, mps);
      RenormExact(n);
    }
    next := RenormSync(Into(d, qe, TakesLower(e.a, qe, mps)), f, j, Abs(Split(e, qe, mps)));
  }
}
