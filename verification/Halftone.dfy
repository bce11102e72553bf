/**
 The gray-scale image of a halftone region, ITU-T T.88 Annex C (tools/pdf-make-jbig2-tests.py, `halftone_data`): its bit
 planes, Gray-coded, one after another through one arithmetic coder and one set of contexts; and the decoding procedure.
 */
module Halftone {
  import opened Wrappers
  import opened ByteTypes
  import opened Powers
  import opened Mq
  import opened MqTape
  import opened MqEncoder
  import opened Bitmaps
  import opened IntegerCodes
  import opened GenericRegion

  /** Gray values, row by row. */
  datatype Gray = Gray(w: nat, h: nat, rows: seq<seq<nat>>) {
    predicate Valid() {
      |rows| == h && forall row <- rows :: |row| == w
    }
  }

  function BitAt(v: nat, j: nat): Bit { v / Pow2(j) % 2 }

  /** What is coded of a value in plane j: its bit, against the bit above it. */
  function Coded(v: nat, j: nat, nbits: nat): Bit {
    if j + 1 < nbits then Xor(BitAt(v, j), BitAt(v, j + 1)) else BitAt(v, j)
  }

  function PlaneRow(row: seq<nat>, j: nat, nbits: nat): (r: Row)
    ensures |r| == |row| && forall x :: 0 <= x < |row| ==> r[x] == Coded(row[x], j, nbits)
  {
    seq(|row|, x requires 0 <= x < |row| => Coded(row[x], j, nbits))
  }

  function Plane(g: Gray, j: nat, nbits: nat): (b: Bitmap)
    requires g.Valid()
    ensures b.Valid() && b.w == g.w && b.h == g.h
  {
    Bitmap(g.w, g.h, seq(g.h, y requires 0 <= y < g.h => PlaneRow(g.rows[y], j, nbits)))
  }

  /** The decisions of the planes below j, from the highest. */
  function PlanesEvents<K>(wrap: nat -> K, g: Gray, offs: seq<Offset>, j: nat, nbits: nat): seq<Event<K>>
    requires g.Valid()
    decreases j
  {
    if j == 0 then []
    else RegionEvents(wrap, Plane(g, j - 1, nbits), offs, None, 0, 0) + PlanesEvents(wrap, g, offs, j - 1, nbits)
  }

  // The decoding procedure (C.5).

  /** A value with its next bit: what was coded, against the bit before. */
  function Grown(v: nat, coded: Bit): nat { 2 * v + (coded + v) % 2 }

  function GrownRow(row: seq<nat>, plane: Row): (r: seq<nat>)
    requires |row| == |plane|
    ensures |r| == |row| && forall x :: 0 <= x < |row| ==> r[x] == Grown(row[x], plane[x])
  {
    seq(|row|, x requires 0 <= x < |row| => Grown(row[x], plane[x]))
  }

  function GrownAll(rows: seq<seq<nat>>, planes: seq<Row>): (r: seq<seq<nat>>)
    ensures |r| == |rows|
  {
    seq(|rows|, y requires 0 <= y < |rows| =>
      if y < |planes| && |planes[y]| == |rows[y]| then GrownRow(rows[y], planes[y]) else rows[y])
  }

  function Zeros(w: nat, h: nat): (r: seq<seq<nat>>)
    ensures |r| == h && forall y :: 0 <= y < h ==> |r[y]| == w && forall x :: 0 <= x < w ==> r[y][x] == 0
  {
    seq(h, _ => seq(w, _ => 0))
  }

  function ReadPlanes<K>(t: Tape<K>, wrap: nat -> K, w: nat, h: nat, rows: seq<seq<nat>>, offs: seq<Offset>, j: nat)
    : (seq<seq<nat>>, Tape<K>)
    decreases j
  {
    if j == 0 then (rows, t)
    else
      var (plane, t') := ReadRegion(t, wrap, w, h, [], offs, None, 0);
      ReadPlanes(t', wrap, w, h, GrownAll(rows, plane), offs, j - 1)
  }

  // The round trip.

  /** The bits of a value from bit j up to bit nbits. */
  function High(v: nat, j: nat, nbits: nat): nat { ShiftRight(v % Pow2(nbits), j) }

  function HighRows(g: Gray, j: nat, nbits: nat): (r: seq<seq<nat>>)
    requires g.Valid()
    ensures |r| == g.h && forall y :: 0 <= y < g.h ==> |r[y]| == g.w
  {
    seq(g.h, y requires 0 <= y < g.h => seq(g.w, x requires 0 <= x < g.w => High(g.rows[y][x], j, nbits)))
  }

  lemma HalfAgain(u: nat, j: nat)
    ensures ShiftRight(u, j) == 2 * ShiftRight(u, j + 1) + BitAt(u, j)
  {
    var p := Pow2(j);
    var a := u / p;
    var low := a % 2;
    assert u == a * p + u % p && a == 2 * (a / 2) + low;
    MulDistribute(a / 2 * 2, low, p);
    MulRegroup(a / 2, 2, p);
    MulLess(low, 2, p);
    if low == 1 {
      assert low * p == p;
    } else {
      assert low * p == 0;
    }
    DivModUnique(u, a / 2, low * p + u % p, 2 * p);
    assert Pow2(j + 1) == 2 * p;
  }

  lemma EvenMore(k: nat, q: nat, x: int)
    ensures (k * (2 * q) + x) % 2 == x % 2
  {
    MulRegroup(k, 2, q);
    var m := k * q;
    assert k * (2 * q) == 2 * m;
    DivModUnique(2 * m + x, m + x / 2, x % 2, 2);
  }

  /** A multiple of a higher power added moves the quotient by an even number. */
  lemma QuotientMoves(k: nat, q: nat, p: nat, u: nat)
    requires p > 0
    ensures (k * (2 * q) * p + u) / p == k * (2 * q) + u / p
  {
    var m := k * (2 * q);
    MulDistribute(m, u / p, p);
    assert u == u / p * p + u % p;
    DivModUnique(m * p + u, m + u / p, u % p, p);
  }

  lemma LowBit(v: nat, n: nat, q: nat, p: nat)
    requires p > 0 && n > 0 && n == 2 * q * p
    ensures (v % n) / p % 2 == v / p % 2
  {
    var k, u := v / n, v % n;
    assert v == k * n + u;
    MulRegroup(k, 2 * q, p);
    assert v == k * (2 * q) * p + u;
    QuotientMoves(k, q, p, u);
    EvenMore(k, q, u / p);
  }

  /** Cutting bits above does not change a bit below. */
  lemma BitOfLow(v: nat, j: nat, n: nat)
    requires j < n
    ensures BitAt(v % Pow2(n), j) == BitAt(v, j)
  {
    Pow2Add(n - j, j);
    assert Pow2(n - j) == 2 * Pow2(n - j - 1);
    LowBit(v, Pow2(n), Pow2(n - j - 1), Pow2(j));
  }

  lemma Undone(h: nat, b: Bit, t: Bit)
    requires h % 2 == t
    ensures Grown(h, Xor(b, t)) == 2 * h + b
  {
    assert (Xor(b, t) + h) % 2 == (Xor(b, t) + t) % 2 by {
      DivModUnique(Xor(b, t) + h, h / 2 + (Xor(b, t) + t) / 2, (Xor(b, t) + t) % 2, 2);
    }
  }

  /** One plane read gives one bit more of each value. */
  lemma GrownHigh(v: nat, j: nat, nbits: nat)
    requires j < nbits
    ensures Grown(High(v, j + 1, nbits), Coded(v, j, nbits)) == High(v, j, nbits)
  {
    var u := v % Pow2(nbits);
    HalfAgain(u, j);
    BitOfLow(v, j, nbits);
    if j + 1 < nbits {
      HalfAgain(u, j + 1);
      BitOfLow(v, j + 1, nbits);
      var h := ShiftRight(u, j + 1);
      hide ShiftRight, BitAt, Grown, Xor, Pow2;
      LowOf(ShiftRight(u, j + 2), BitAt(u, j + 1));
      Undone(h, BitAt(v, j), BitAt(v, j + 1));
    } else {
      TopNone(v, nbits);
      hide ShiftRight, BitAt;
    }
  }

  lemma LowOf(h: nat, b: Bit)
    ensures (2 * h + b) % 2 == b
  {
  }

  lemma TopNone(v: nat, nbits: nat)
    ensures High(v, nbits, nbits) == 0
  {
    var u := v % Pow2(nbits);
    DivModUnique(u, 0, u, Pow2(nbits));
  }

  lemma GrownRows(g: Gray, j: nat, nbits: nat)
    requires g.Valid() && j < nbits
    ensures GrownAll(HighRows(g, j + 1, nbits), Plane(g, j, nbits).rows) == HighRows(g, j, nbits)
  {
    hide High, Coded, Grown;
    var rows, planes := HighRows(g, j + 1, nbits), Plane(g, j, nbits).rows;
    forall y | 0 <= y < g.h
      ensures GrownAll(rows, planes)[y] == HighRows(g, j, nbits)[y]
    {
      assert planes[y] == PlaneRow(g.rows[y], j, nbits) && |rows[y]| == g.w;
      forall x | 0 <= x < g.w
        ensures GrownRow(rows[y], planes[y])[x] == High(g.rows[y][x], j, nbits)
      {
        GrownHigh(g.rows[y][x], j, nbits);
      }
    }
  }

  lemma {:induction false} ReadPlanesBack<K>(t: Tape<K>, wrap: nat -> K, g: Gray, offs: seq<Offset>, j: nat, nbits: nat,
                                             rest: seq<Event<K>>)
    requires g.Valid() && j <= nbits && AllCausal(offs)
    requires Plays(t, PlanesEvents(wrap, g, offs, j, nbits) + rest)
    ensures var (rows, t') := ReadPlanes(t, wrap, g.w, g.h, HighRows(g, j, nbits), offs, j);
            rows == HighRows(g, 0, nbits) && Plays(t', rest)
    decreases j
  {
    hide Plays, ReadRegion, RegionEvents, HighRows, GrownAll, Plane;
    if j == 0 {
      assert PlanesEvents(wrap, g, offs, j, nbits) + rest == rest;
    } else {
      var b := Plane(g, j - 1, nbits);
      var tail := PlanesEvents(wrap, g, offs, j - 1, nbits) + rest;
      assert PlanesEvents(wrap, g, offs, j, nbits) + rest == RegionEvents(wrap, b, offs, None, 0, 0) + tail;
      assert b.rows[..0] == [];
      ReadRegionBack(t, wrap, b, offs, None, 0, 0, tail);
      GrownRows(g, j - 1, nbits);
      ReadPlanesBack(ReadRegion(t, wrap, g.w, g.h, [], offs, None, 0).1, wrap, g, offs, j - 1, nbits, rest);
    }
  }

  lemma {:induction false} PlanesKeys(g: Gray, offs: seq<Offset>, j: nat, nbits: nat)
    requires g.Valid() && |offs| <= 16
    ensures KeysIn(PlanesEvents(Plain, g, offs, j, nbits), MqEncoder.Blank(0x1_0000))
    decreases j
  {
    hide RegionEvents, Plane;
    if j > 0 {
      RegionKeys(Plane(g, j - 1, nbits), offs, None, 0, 0);
      PlanesKeys(g, offs, j - 1, nbits);
    }
  }

  /** The values that nbits planes can hold. */
  ghost predicate Fits(g: Gray, nbits: nat) {
    forall y, x :: 0 <= y < |g.rows| && 0 <= x < |g.rows[y]| ==> g.rows[y][x] < Pow2(nbits)
  }

  lemma HighAll(g: Gray, nbits: nat)
    requires g.Valid()
    ensures HighRows(g, 0, nbits) == g.rows <==> Fits(g, nbits)
  {
    hide High;
    var r := HighRows(g, 0, nbits);
    forall y, x | 0 <= y < g.h && 0 <= x < g.w
      ensures r[y][x] == g.rows[y][x] <==> g.rows[y][x] < Pow2(nbits)
    {
      WholeValue(g.rows[y][x], nbits);
    }
    if Fits(g, nbits) {
      assert forall y :: 0 <= y < g.h ==> r[y] == g.rows[y];
    }
  }

  lemma WholeValue(v: nat, nbits: nat)
    ensures High(v, 0, nbits) == v <==> v < Pow2(nbits)
  {
    var u := v % Pow2(nbits);
    DivModUnique(u, u, 0, 1);
    if v < Pow2(nbits) {
      DivModUnique(v, 0, v, Pow2(nbits));
    }
  }

  lemma NoBitsYet(g: Gray, nbits: nat)
    requires g.Valid()
    ensures HighRows(g, nbits, nbits) == Zeros(g.w, g.h)
  {
    hide High;
    forall y, x | 0 <= y < g.h && 0 <= x < g.w
      ensures HighRows(g, nbits, nbits)[y][x] == 0
    {
      TopNone(g.rows[y][x], nbits);
    }
    assert forall y :: 0 <= y < g.h ==> HighRows(g, nbits, nbits)[y] == Zeros(g.w, g.h)[y];
  }

  /** Where the adaptive pixels of the planes are. */
  function PlaneAt(t: TemplateId): (at: seq<Offset>)
    ensures AtFor(t, at) && WithinPadding(at) && AllCausal(at)
  {
    if t == 0 then [(3, -1), (-3, -1), (2, -2), (-2, -2)] else if t == 1 then [(3, -1)] else [(2, -1)]
  }

  /** The templates of the planes, whose rows have no gaps (C.5). */
  function PlaneFigure(t: TemplateId): seq<Offset> {
    if t == 0 then Across(-2, 2, -2) + Across(-3, 3, -1) + Across(-4, -1, 0)
    else if t == 1 then Across(-1, 2, -2) + Across(-2, 3, -1) + Across(-3, -1, 0)
    else if t == 2 then Across(-1, 1, -2) + Across(-2, 2, -1) + Across(-2, -1, 0)
    else Across(-3, 2, -1) + Across(-4, -1, 0)
  }

  lemma PlaneFigureIs(t: TemplateId)
    ensures Template(t, PlaneAt(t)) == PlaneFigure(t)
  {
    TemplateIsFigure(t, PlaneAt(t));
    assert Across(-2, 2, -2) == [(-2, -2)] + Across(-1, 1, -2) + [(2, -2)];
    assert Across(-3, 3, -1) == [(-3, -1)] + Across(-2, 2, -1) + [(3, -1)];
    assert Across(-2, 3, -1) == Across(-2, 2, -1) + [(3, -1)];
    assert Across(-2, 2, -1) == Across(-2, 1, -1) + [(2, -1)];
    assert Across(-3, 2, -1) == Across(-3, 1, -1) + [(2, -1)];
    hide Across, Template;
  }

  /** From the bytes, the decoding procedure makes the gray values again, exactly if the planes are enough to hold them. */
  lemma HalftoneRoundTrip(g: Gray, t: TemplateId, nbits: nat)
    requires g.Valid()
    ensures var offs := Template(t, PlaneAt(t));
            var cells := MqEncoder.Blank(0x1_0000);
            var e := Encode(Coder(START, cells), PlanesEvents(Plain, g, offs, nbits, nbits)).enc;
            && Ready(e)
            && (ReadPlanes(Open(Flush(e), cells), Plain, g.w, g.h, Zeros(g.w, g.h), PlaneFigure(t), nbits).0 == g.rows
                <==> Fits(g, nbits))
  {
    PlaneFigureIs(t);
    hide PlaneFigure;
    hide PlanesEvents, RegionEvents, Encode, ReadPlanes, Plays, Template, Open, Flush, NoMarker, HighRows, Fits, PlaneAt;
    var offs := Template(t, PlaneAt(t));
    var cells := MqEncoder.Blank(0x1_0000);
    var events := PlanesEvents(Plain, g, offs, nbits, nbits);
    PlanesKeys(g, offs, nbits, nbits);
    TemplateCausal(t, PlaneAt(t));
    RoundTrip(cells, events);
    assert events + [] == events;
    NoBitsYet(g, nbits);
    ReadPlanesBack(Open(Flush(Encode(Coder(START, cells), events).enc), cells), Plain, g, offs, nbits, nbits, []);
    HighAll(g, nbits);
  }

  lemma PlanesNext(c: Coder<nat>, g: Gray, offs: seq<Offset>, j: nat, nbits: nat)
    requires g.Valid()
    ensures var all := Encode(c, PlanesEvents(Plain, g, offs, j, nbits));
            if j == 0 then all == c
            else
              var first := Encode(c, RegionEvents(Plain, Plane(g, j - 1, nbits), offs, None, 0, 0));
              all == Encode(first, PlanesEvents(Plain, g, offs, j - 1, nbits))
  {
    hide RegionEvents, Plane;
    if j > 0 {
      EncodeConcat(c, RegionEvents(Plain, Plane(g, j - 1, nbits), offs, None, 0, 0), PlanesEvents(Plain, g, offs, j - 1, nbits));
    }
  }

  /** A plane, pixel by pixel. */
  method MakePlane(g: Gray, j: nat, nbits: nat) returns (b: Bitmap)
    requires g.Valid() && j < nbits
    ensures b == Plane(g, j, nbits)
  {
    hide BitAt;
    var rows: seq<Row> := [];
    for y := 0 to g.h
      invariant rows == Plane(g, j, nbits).rows[..y]
    {
      var row: Row := [];
      for x := 0 to g.w
        invariant row == PlaneRow(g.rows[y], j, nbits)[..x]
      {
        var v := BitAt(g.rows[y][x], j);
        if j < nbits - 1 {
          v := Xor(v, BitAt(g.rows[y][x], j + 1));
        }
        row := row + [v];
      }
      assert row == PlaneRow(g.rows[y], j, nbits) == Plane(g, j, nbits).rows[y];
      rows := rows + [row];
    }
    b := Bitmap(g.w, g.h, rows);
  }

  /** The planes from the most significant, through one coder and one set of contexts. */
  method EncodePlanes(mq: MQ, cx: Ctx, g: Gray, t: TemplateId, nbits: nat)
    requires Ready(mq.State()) && cx.Valid() && cx.i.Length == 0x1_0000 && g.Valid()
    modifies mq, cx.i, cx.m
    ensures Ready(mq.State())
    ensures Coder(mq.State(), cx.Cells())
         == Encode(old(Coder(mq.State(), cx.Cells())), PlanesEvents(Plain, g, Template(t, PlaneAt(t)), nbits, nbits))
  {
    hide *;
    var offs := Template(t, PlaneAt(t));
    ghost var goal := Encode(Coder(mq.State(), cx.Cells()), PlanesEvents(Plain, g, offs, nbits, nbits));
    var j := nbits;
    while j > 0
      invariant 0 <= j <= nbits && Ready(mq.State())
      invariant Encode(Coder(mq.State(), cx.Cells()), PlanesEvents(Plain, g, offs, j, nbits)) == goal
    {
      PlanesNext(Coder(mq.State(), cx.Cells()), g, offs, j, nbits);
      j := j - 1;
      var p := MakePlane(g, j, nbits);
      EncodeGeneric(mq, cx, p, t, PlaneAt(t), false);
    }
    PlanesNext(Coder(mq.State(), cx.Cells()), g, offs, 0, nbits);
  }
}
