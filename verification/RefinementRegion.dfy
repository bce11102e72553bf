/**
 Generic refinement region coding, ITU-T T.88 section 6.3 (tools/pdf-make-jbig2-tests.py, `gr_template` and
 `encode_refine`), and its decoding procedure.
 */
module RefinementRegion {
  import opened Wrappers
  import opened ByteTypes
  import opened Powers
  import opened Mq
  import opened MqTape
  import opened MqEncoder
  import opened Bitmaps
  import opened IntegerCodes
  import GenericRegion

  /** A context pixel: of the bitmap being coded, or of the reference. */
  datatype Offset = Cur(x: int, y: int) | Ref(x: int, y: int)

  /** The reference bitmap, and where it lies against the one being coded (6.3.5.3). */
  datatype Reference = Reference(bitmap: Bitmap, dx: int, dy: int)

  function RefGet(ref: Reference, x: int, y: int): Bit
    requires ref.bitmap.Valid()
  {
    Get(ref.bitmap, x - ref.dx, y - ref.dy)
  }

  type TemplateId = t: nat | t < 2

  /** Context pixels, the most significant first (figures 12 and 13). */
  function Template(t: TemplateId, a1: (int, int), a2: (int, int)): (offs: seq<Offset>)
    ensures |offs| <= 13
  {
    if t == 0 then
      [Cur(0, -1), Cur(1, -1), Cur(-1, 0), Cur(a1.0, a1.1), Ref(1, 1), Ref(0, 1), Ref(-1, 1), Ref(1, 0), Ref(0, 0),
       Ref(-1, 0), Ref(1, -1), Ref(0, -1), Ref(a2.0, a2.1)]
    else
      [Cur(-1, -1), Cur(0, -1), Cur(1, -1), Cur(-1, 0), Ref(1, 1), Ref(0, 1), Ref(1, 0), Ref(0, 0), Ref(-1, 0),
       Ref(0, -1)]
  }

  /** Section 6.3.5.6: the context in which only the reference's center is set. */
  function SltpContext(offs: seq<Offset>, acc: nat): nat
    decreases |offs|
  {
    if offs == [] then acc else SltpContext(offs[1..], 2 * acc + Flag(offs[0] == Ref(0, 0)))
  }

  predicate AllCausal(offs: seq<Offset>) {
    forall i :: 0 <= i < |offs| && offs[i].Cur? ==> Causal(offs[i].x, offs[i].y)
  }

  function Pixel(b: Bitmap, ref: Reference, o: Offset, x: int, y: int): Bit
    requires b.Valid() && ref.bitmap.Valid()
  {
    if o.Cur? then Get(b, x + o.x, y + o.y) else RefGet(ref, x + o.x, y + o.y)
  }

  function Context(b: Bitmap, ref: Reference, offs: seq<Offset>, x: int, y: int, acc: nat): nat
    requires b.Valid() && ref.bitmap.Valid()
    decreases |offs|
  {
    if offs == [] then acc else Context(b, ref, offs[1..], x, y, 2 * acc + Pixel(b, ref, offs[0], x, y))
  }

  function Around(ref: Reference, x: int, y: int, i: int, j: int): Bit
    requires ref.bitmap.Valid()
  {
    RefGet(ref, x + i, y + j)
  }

  /** The one value of the 3x3 reference neighborhood, if it has only one (6.3.5.6). */
  function Uniform(ref: Reference, x: int, y: int): Option<Bit>
    requires ref.bitmap.Valid()
  {
    var v := RefGet(ref, x, y);
    if forall i, j :: -1 <= i <= 1 && -1 <= j <= 1 ==> Around(ref, x, y, i, j) == v then Some(v) else None
  }

  /** Whether every uniform neighborhood of a row tells its pixel. */
  function Typical(b: Bitmap, ref: Reference, y: nat): Bit
    requires b.Valid() && ref.bitmap.Valid() && y < b.h
  {
    Flag(forall x: nat :: x < b.w ==> Uniform(ref, x, y) in {None, Some(b.rows[y][x])})
  }

  // ---- The decisions of a region --------------------------------------------------------------

  function RowEvents<K>(wrap: nat -> K, b: Bitmap, ref: Reference, offs: seq<Offset>, y: nat, x: nat, ltp: Bit): seq<Event<K>>
    requires b.Valid() && ref.bitmap.Valid() && y < b.h && x <= b.w
    decreases b.w - x
  {
    if x == b.w then []
    else if ltp == 1 && Uniform(ref, x, y).Some? then RowEvents(wrap, b, ref, offs, y, x + 1, ltp)
    else
      [Event(wrap(Context(b, ref, offs, x, y, 0)), b.rows[y][x])] + RowEvents(wrap, b, ref, offs, y, x + 1, ltp)
  }

  function RowCode<K>(wrap: nat -> K, b: Bitmap, ref: Reference, offs: seq<Offset>, tpgron: bool, y: nat, ltp: Bit)
    : seq<Event<K>>
    requires b.Valid() && ref.bitmap.Valid() && y < b.h
  {
    if tpgron then
      [Event(wrap(SltpContext(offs, 0)), Xor(Typical(b, ref, y), ltp))]
      + RowEvents(wrap, b, ref, offs, y, 0, Typical(b, ref, y))
    else RowEvents(wrap, b, ref, offs, y, 0, 0)
  }

  function RegionEvents<K>(wrap: nat -> K, b: Bitmap, ref: Reference, offs: seq<Offset>, tpgron: bool, y: nat, ltp: Bit)
    : seq<Event<K>>
    requires b.Valid() && ref.bitmap.Valid() && y <= b.h
    decreases b.h - y
  {
    if y == b.h then []
    else
      RowCode(wrap, b, ref, offs, tpgron, y, ltp)
      + RegionEvents(wrap, b, ref, offs, tpgron, y + 1, if tpgron then Typical(b, ref, y) else ltp)
  }

  // ---- The decoding procedure (6.3.5.6) -------------------------------------------------------

  /** The reference laid over the region with its upper left pixel at its offset; nothing outside it. */
  function Laid(ref: Reference, x: int, y: int): Bit
    requires ref.bitmap.Valid()
  {
    if ref.dx <= x < ref.dx + ref.bitmap.w && ref.dy <= y < ref.dy + ref.bitmap.h then ref.bitmap.rows[y - ref.dy][x - ref.dx] else 0
  }

  /** TPGRPIX and TPGRVAL: what a pixel is told to be, if the reference is all alike around it. */
  function Told(ref: Reference, x: int, y: int): Option<Bit>
    requires ref.bitmap.Valid()
  {
    var above := [Laid(ref, x - 1, y - 1), Laid(ref, x, y - 1), Laid(ref, x + 1, y - 1)];
    var level := [Laid(ref, x - 1, y), Laid(ref, x, y), Laid(ref, x + 1, y)];
    var below := [Laid(ref, x - 1, y + 1), Laid(ref, x, y + 1), Laid(ref, x + 1, y + 1)];
    if above == level == below == [0, 0, 0] then Some(0)
    else if above == level == below == [1, 1, 1] then Some(1)
    else None
  }

  lemma LaidIs(ref: Reference, x: int, y: int)
    requires ref.bitmap.Valid()
    ensures Laid(ref, x, y) == RefGet(ref, x, y)
  {
  }

  lemma ToldIs(ref: Reference, x: int, y: int)
    requires ref.bitmap.Valid()
    ensures Told(ref, x, y) == Uniform(ref, x, y)
  {
    forall i, j | -1 <= i <= 1 && -1 <= j <= 1
      ensures Around(ref, x, y, i, j) == Laid(ref, x + i, y + j)
    {
      LaidIs(ref, x + i, y + j);
    }
    LaidIs(ref, x, y);
    hide Laid, RefGet;
    assert Around(ref, x, y, -1, -1) == Laid(ref, x - 1, y - 1) && Around(ref, x, y, 0, -1) == Laid(ref, x, y - 1);
    assert Around(ref, x, y, 1, -1) == Laid(ref, x + 1, y - 1) && Around(ref, x, y, -1, 0) == Laid(ref, x - 1, y);
    assert Around(ref, x, y, 1, 0) == Laid(ref, x + 1, y) && Around(ref, x, y, -1, 1) == Laid(ref, x - 1, y + 1);
    assert Around(ref, x, y, 0, 1) == Laid(ref, x, y + 1) && Around(ref, x, y, 1, 1) == Laid(ref, x + 1, y + 1);
    NineAlike(ref, x, y);
  }

  lemma NineAlike(ref: Reference, x: int, y: int)
    requires ref.bitmap.Valid()
    ensures Told(ref, x, y) == (
              var v := Laid(ref, x, y);
              if Laid(ref, x - 1, y - 1) == Laid(ref, x, y - 1) == Laid(ref, x + 1, y - 1) == v
                 && Laid(ref, x - 1, y) == Laid(ref, x + 1, y) == v
                 && Laid(ref, x - 1, y + 1) == Laid(ref, x, y + 1) == Laid(ref, x + 1, y + 1) == v then Some(v) else None)
  {
    hide Laid;
  }

  /** The templates as their figures have them (12 and 13): the bitmap being coded, then the reference from its last pixel back. */
  function Figure(t: TemplateId, a1: (int, int), a2: (int, int)): seq<Offset> {
    if t == 0 then
      [Cur(0, -1), Cur(1, -1)] + [Cur(-1, 0)] + [Cur(a1.0, a1.1)]
      + BackRow(1, -1, 1) + BackRow(1, -1, 0) + (BackRow(1, 0, -1) + [Ref(a2.0, a2.1)])
    else
      [Cur(-1, -1), Cur(0, -1), Cur(1, -1)] + [Cur(-1, 0)]
      + BackRow(1, 0, 1) + BackRow(1, -1, 0) + BackRow(0, 0, -1)
  }

  /** Pixels of a row of the reference, from right to left. */
  function BackRow(first: int, last: int, y: int): (s: seq<Offset>)
    requires last <= first
    ensures |s| == first - last + 1
  {
    seq(first - last + 1, i requires 0 <= i < first - last + 1 => Ref(first - i, y))
  }

  lemma TemplateIsFigure(t: TemplateId, a1: (int, int), a2: (int, int))
    ensures Template(t, a1, a2) == Figure(t, a1, a2)
  {
    assert BackRow(1, -1, 1) == [Ref(1, 1), Ref(0, 1), Ref(-1, 1)] && BackRow(1, -1, 0) == [Ref(1, 0), Ref(0, 0), Ref(-1, 0)];
    assert BackRow(1, 0, -1) == [Ref(1, -1), Ref(0, -1)] && BackRow(1, 0, 1) == [Ref(1, 1), Ref(0, 1)];
    assert BackRow(0, 0, -1) == [Ref(0, -1)];
    hide BackRow;
  }

  /**
   The context of LTP (figures 14 and 15): of all pixels just the one of the reference at the place itself is set; and with it
   the adaptive one, where that is the same pixel.
   */
  function LtpContext(t: TemplateId, a2: (int, int)): nat {
    if t == 1 then 0x04 else if a2 == (0, 0) then 0x11 else 0x10
  }

  lemma SltpIs(t: TemplateId, a1: (int, int), a2: (int, int))
    ensures SltpContext(Template(t, a1, a2), 0) == LtpContext(t, a2)
  {
    var offs := Template(t, a1, a2);
    if t == 0 {
      SltpSkips(offs, 8, 0);
      SltpTakes(offs[8..], 0);
      SltpSkips(offs[9..], 3, 1);
      assert Pow2(3) == 8;
      assert offs[8..][1..] == offs[9..] && offs[9..][3..] == [Ref(a2.0, a2.1)];
      SltpLast(Ref(a2.0, a2.1), 8);
    } else {
      SltpSkips(offs, 7, 0);
      SltpTakes(offs[7..], 0);
      SltpSkips(offs[8..], 2, 1);
      assert Pow2(2) == 4;
      assert offs[7..][1..] == offs[8..] && offs[8..][2..] == [];
    }
  }

  lemma SltpLast(o: Offset, acc: nat)
    ensures SltpContext([o], acc) == 2 * acc + Flag(o == Ref(0, 0))
  {
    assert [o][1..] == [];
  }

  lemma SltpTakes(offs: seq<Offset>, acc: nat)
    requires offs != [] && offs[0] == Ref(0, 0)
    ensures SltpContext(offs, acc) == SltpContext(offs[1..], 2 * acc + 1)
  {
  }

  /** Pixels elsewhere are left out of it. */
  lemma {:induction false} SltpSkips(offs: seq<Offset>, k: nat, acc: nat)
    requires k <= |offs| && forall i :: 0 <= i < k ==> offs[i] != Ref(0, 0)
    ensures SltpContext(offs, acc) == SltpContext(offs[k..], acc * Pow2(k))
    decreases k
  {
    if k > 0 {
      SltpSkips(offs[1..], k - 1, 2 * acc);
      assert offs[1..][k - 1..] == offs[k..];
      MulRegroup(acc, 2, Pow2(k - 1));
    } else {
      assert offs[0..] == offs;
    }
  }

  function KnownContext(w: nat, done: seq<Row>, cur: Row, ref: Reference, offs: seq<Offset>, acc: nat): nat
    requires ref.bitmap.Valid() && forall row <- done :: |row| == w
    decreases |offs|
  {
    if offs == [] then acc
    else
      var x, y := |cur| + offs[0].x, |done| + offs[0].y;
      var pixel := if offs[0].Cur? then Known(w, done, cur, x, y) else Laid(ref, x, y);
      KnownContext(w, done, cur, ref, offs[1..], 2 * acc + pixel)
  }

  function ReadRow<K>(t: Tape<K>, wrap: nat -> K, w: nat, done: seq<Row>, cur: Row, ref: Reference, offs: seq<Offset>, ltp: Bit)
    : (r: (Row, Tape<K>))
    requires ref.bitmap.Valid() && |cur| <= w && forall row <- done :: |row| == w
    ensures |r.0| == w
    decreases w - |cur|
  {
    if |cur| == w then (cur, t)
    else
      var u := Told(ref, |cur|, |done|);
      if ltp == 1 && u.Some? then ReadRow(t, wrap, w, done, cur + [u.value], ref, offs, ltp)
      else
        var (pixel, t') := Read(t, wrap(KnownContext(w, done, cur, ref, offs, 0)));
        ReadRow(t', wrap, w, done, cur + [pixel], ref, offs, ltp)
  }

  /** A row, and LTP after it. */
  function ReadCodedRow<K>(t: Tape<K>, wrap: nat -> K, w: nat, done: seq<Row>, ref: Reference, offs: seq<Offset>,
                           tpgr: Option<nat>, ltp: Bit): (r: (Row, Bit, Tape<K>))
    requires ref.bitmap.Valid() && forall row <- done :: |row| == w
    ensures |r.0| == w
  {
    var (toggle, t') := if tpgr.Some? then Read(t, wrap(tpgr.value)) else (0, t);
    var ltp': Bit := (toggle + ltp) % 2;
    var (row, t'') := ReadRow(t', wrap, w, done, [], ref, offs, ltp');
    (row, ltp', t'')
  }

  function ReadRegion<K>(t: Tape<K>, wrap: nat -> K, w: nat, h: nat, done: seq<Row>, ref: Reference, offs: seq<Offset>,
                         tpgr: Option<nat>, ltp: Bit): (seq<Row>, Tape<K>)
    requires ref.bitmap.Valid() && |done| <= h && forall row <- done :: |row| == w
    decreases h - |done|
  {
    if |done| == h then (done, t)
    else
      var (row, ltp', t') := ReadCodedRow(t, wrap, w, done, ref, offs, tpgr, ltp);
      ReadRegion(t', wrap, w, h, done + [row], ref, offs, tpgr, ltp')
  }

  /**
   A row is typical exactly if the reference, where it is all alike around a pixel, tells that pixel; such a row is coded without
   the pixels that are told, and another pixel by pixel.
   */
  lemma RowSpends<K>(wrap: nat -> K, b: Bitmap, ref: Reference, offs: seq<Offset>, tpgron: bool, y: nat, ltp: Bit)
    requires b.Valid() && ref.bitmap.Valid() && y < b.h
    ensures Typical(b, ref, y) == 1 <==> forall x: nat :: x < b.w && Told(ref, x, y).Some? ==> Told(ref, x, y).value == b.rows[y][x]
    ensures |RowCode(wrap, b, ref, offs, tpgron, y, ltp)|
         == if !tpgron then b.w else if Typical(b, ref, y) == 1 then 1 + Untold(ref, b.w, y, 0) else 1 + b.w
  {
    forall x: nat | x < b.w
      ensures Told(ref, x, y) == Uniform(ref, x, y)
    {
      ToldIs(ref, x, y);
    }
    RowLength(wrap, b, ref, offs, y, 0, Typical(b, ref, y));
    RowLength(wrap, b, ref, offs, y, 0, 0);
    hide RowEvents, Told, Uniform, Untold, SltpContext;
  }

  /** How many pixels of a row from x on the reference does not tell. */
  function Untold(ref: Reference, w: nat, y: nat, x: nat): nat
    requires ref.bitmap.Valid() && x <= w
    decreases w - x
  {
    if x == w then 0 else (if Told(ref, x, y).Some? then 0 else 1) + Untold(ref, w, y, x + 1)
  }

  lemma {:induction false} RowLength<K>(wrap: nat -> K, b: Bitmap, ref: Reference, offs: seq<Offset>, y: nat, x: nat, ltp: Bit)
    requires b.Valid() && ref.bitmap.Valid() && y < b.h && x <= b.w
    ensures |RowEvents(wrap, b, ref, offs, y, x, ltp)| == if ltp == 1 then Untold(ref, b.w, y, x) else b.w - x
    decreases b.w - x
  {
    hide Context, Told, Uniform;
    if x < b.w {
      ToldIs(ref, x, y);
      RowLength(wrap, b, ref, offs, y, x + 1, ltp);
    }
  }

  // ---- The round trip -------------------------------------------------------------------------

  /** The context LTP is read under, if typical prediction is on. */
  function LtpRead(offs: seq<Offset>, tpgron: bool): Option<nat> { if tpgron then Some(SltpContext(offs, 0)) else None }

  lemma {:induction false} ContextKnown(b: Bitmap, ref: Reference, offs: seq<Offset>, x: nat, y: nat, acc: nat)
    requires b.Valid() && ref.bitmap.Valid() && x < b.w && y < b.h && AllCausal(offs)
    ensures KnownContext(b.w, b.rows[..y], b.rows[y][..x], ref, offs, acc) == Context(b, ref, offs, x, y, acc)
    decreases |offs|
  {
    hide Get, Known, Laid, RefGet;
    if offs != [] {
      if offs[0].Cur? {
        CausalKnown(b, x, y, offs[0].x, offs[0].y);
      } else {
        LaidIs(ref, x + offs[0].x, y + offs[0].y);
      }
      ContextKnown(b, ref, offs[1..], x, y, 2 * acc + Pixel(b, ref, offs[0], x, y));
    }
  }

  lemma {:induction false} ReadRowBack<K>(t: Tape<K>, wrap: nat -> K, b: Bitmap, ref: Reference, offs: seq<Offset>, y: nat,
                                          x: nat, ltp: Bit, rest: seq<Event<K>>)
    requires b.Valid() && ref.bitmap.Valid() && y < b.h && x <= b.w && AllCausal(offs)
    requires ltp == 1 ==> Typical(b, ref, y) == 1
    requires Plays(t, RowEvents(wrap, b, ref, offs, y, x, ltp) + rest)
    ensures var (row, t') := ReadRow(t, wrap, b.w, b.rows[..y], b.rows[y][..x], ref, offs, ltp);
            row == b.rows[y] && Plays(t', rest)
    decreases b.w - x
  {
    hide Read, Plays, KnownContext, Context, Uniform, Told;
    var events := RowEvents(wrap, b, ref, offs, y, x, ltp);
    if x == b.w {
      assert events + rest == rest && b.rows[y][..x] == b.rows[y];
    } else {
      assert b.rows[y][..x] + [b.rows[y][x]] == b.rows[y][..x + 1];
      ToldIs(ref, x, y);
      if ltp == 1 && Uniform(ref, x, y).Some? {
        ReadRowBack(t, wrap, b, ref, offs, y, x + 1, ltp, rest);
      } else {
        ContextKnown(b, ref, offs, x, y, 0);
        var tail := RowEvents(wrap, b, ref, offs, y, x + 1, ltp) + rest;
        assert events + rest == [events[0]] + tail;
        PlaysNext(t, events[0], tail);
        ReadRowBack(Read(t, events[0].key).1, wrap, b, ref, offs, y, x + 1, ltp, rest);
      }
    }
  }

  lemma ReadCodedRowBack<K>(t: Tape<K>, wrap: nat -> K, b: Bitmap, ref: Reference, offs: seq<Offset>, tpgron: bool, y: nat,
                            ltp: Bit, rest: seq<Event<K>>)
    requires b.Valid() && ref.bitmap.Valid() && y < b.h && AllCausal(offs) && (!tpgron ==> ltp == 0)
    requires Plays(t, RowCode(wrap, b, ref, offs, tpgron, y, ltp) + rest)
    ensures var (row, ltp', t') := ReadCodedRow(t, wrap, b.w, b.rows[..y], ref, offs, LtpRead(offs, tpgron), ltp);
            row == b.rows[y] && ltp' == (if tpgron then Typical(b, ref, y) else ltp) && Plays(t', rest)
  {
    hide Read, ReadRow, RowEvents, Plays, Typical, SltpContext;
    assert b.rows[y][..0] == [];
    if tpgron {
      var typical := Typical(b, ref, y);
      var e := Event(wrap(SltpContext(offs, 0)), Xor(typical, ltp));
      var tail := RowEvents(wrap, b, ref, offs, y, 0, typical) + rest;
      assert RowCode(wrap, b, ref, offs, tpgron, y, ltp) + rest == [e] + tail;
      PlaysNext(t, e, tail);
      ReadRowBack(Read(t, e.key).1, wrap, b, ref, offs, y, 0, typical, rest);
    } else {
      ReadRowBack(t, wrap, b, ref, offs, y, 0, 0, rest);
    }
  }

  /** Decoding a region gives back every pixel, coded or told by the reference. */
  lemma {:induction false} ReadRegionBack<K>(t: Tape<K>, wrap: nat -> K, b: Bitmap, ref: Reference, offs: seq<Offset>,
                                             tpgron: bool, y: nat, ltp: Bit, rest: seq<Event<K>>)
    requires b.Valid() && ref.bitmap.Valid() && y <= b.h && AllCausal(offs) && (!tpgron ==> ltp == 0)
    requires Plays(t, RegionEvents(wrap, b, ref, offs, tpgron, y, ltp) + rest)
    ensures var (rows, t') := ReadRegion(t, wrap, b.w, b.h, b.rows[..y], ref, offs, LtpRead(offs, tpgron), ltp);
            rows == b.rows && Plays(t', rest)
    decreases b.h - y
  {
    hide ReadCodedRow, RowCode, Plays, Typical, Causal, LtpRead;
    if y == b.h {
      assert RegionEvents(wrap, b, ref, offs, tpgron, y, ltp) + rest == rest && b.rows[..y] == b.rows;
    } else {
      var ltp' := if tpgron then Typical(b, ref, y) else ltp;
      var row := RowCode(wrap, b, ref, offs, tpgron, y, ltp);
      var below := RegionEvents(wrap, b, ref, offs, tpgron, y + 1, ltp');
      assert (row + below) + rest == row + (below + rest);
      ReadCodedRowBack(t, wrap, b, ref, offs, tpgron, y, ltp, below + rest);
      assert b.rows[..y] + [b.rows[y]] == b.rows[..y + 1];
      ReadRegionBack(ReadCodedRow(t, wrap, b.w, b.rows[..y], ref, offs, LtpRead(offs, tpgron), ltp).2, wrap, b, ref, offs,
                     tpgron, y + 1, ltp', rest);
    }
  }

  // ---- The encoder as it runs -----------------------------------------------------------------

  function Abs(x: int): nat {
    if x < 0 then -x else x
  }

  /** The padding of both bitmaps. */
  function Padding(b: Bitmap, ref: Reference): (p: nat)
    ensures p >= 40
  {
    40 + Abs(ref.dx) + Abs(ref.dy) + Abs(b.w - ref.bitmap.w) + Abs(b.h - ref.bitmap.h)
  }

  /** The index from which an offset is read, of n pixels across or down. */
  predicate Reads(i: int, n: nat, p: nat) { 0 <= i + p && i < n + 2 * p }

  /** Where a pixel's context finds what is at an offset; farther it would find another pixel or run off the end. */
  predicate Finds(b: Bitmap, ref: Reference, p: nat, o: Offset, x: int, y: int) {
    match o
    case Cur(dx, dy) => Reads(x + p + dx, b.w, p) && Reads(y + p + dy, b.h, p)
    case Ref(dx, dy) => Reads(x - ref.dx + p + dx, ref.bitmap.w, p) && Reads(y - ref.dy + p + dy, ref.bitmap.h, p)
  }

  /** The offsets that can be read from every pixel. */
  predicate InReach(b: Bitmap, ref: Reference, o: Offset) {
    var p := Padding(b, ref);
    match o
    case Cur(dx, dy) => -2 * p <= dx <= p && -2 * p <= dy <= p
    case Ref(dx, dy) =>
      && ref.dx - 2 * p <= dx <= ref.dx + p + ref.bitmap.w - b.w
      && ref.dy - 2 * p <= dy <= ref.dy + p + ref.bitmap.h - b.h
  }

  lemma InReachExactly(b: Bitmap, ref: Reference, o: Offset)
    requires b.w > 0 && b.h > 0
    ensures InReach(b, ref, o) <==> forall x, y :: 0 <= x < b.w && 0 <= y < b.h ==> Finds(b, ref, Padding(b, ref), o, x, y)
  {
    hide Padding;
    if forall x, y :: 0 <= x < b.w && 0 <= y < b.h ==> Finds(b, ref, Padding(b, ref), o, x, y) {
      assert Finds(b, ref, Padding(b, ref), o, 0, 0) && Finds(b, ref, Padding(b, ref), o, b.w - 1, b.h - 1);
    }
  }

  predicate WithinPadding(b: Bitmap, ref: Reference, offs: seq<Offset>) {
    forall i :: 0 <= i < |offs| ==> InReach(b, ref, offs[i])
  }

  /** A reference pixel near the bitmap, without a bounds test. */
  lemma PaddedReference(b: Bitmap, ref: Reference, p: nat, x: int, y: int)
    requires ref.bitmap.Valid() && p == Padding(b, ref)
    requires -40 <= x < b.w + 40 && -40 <= y < b.h + 40
    ensures 0 <= y - ref.dy + p < ref.bitmap.h + 2 * p && 0 <= x - ref.dx + p < ref.bitmap.w + 2 * p
    ensures Padded(ref.bitmap, p)[y - ref.dy + p][x - ref.dx + p] == RefGet(ref, x, y)
  {
    hide Padded, Get;
    PaddedGet(ref.bitmap, p, x - ref.dx, y - ref.dy);
  }

  lemma WrappedReference(b: Bitmap, ref: Reference, p: nat, x: int, y: int)
    requires ref.bitmap.Valid() && Reads(x - ref.dx + p, ref.bitmap.w, p) && Reads(y - ref.dy + p, ref.bitmap.h, p)
    ensures Wrapped(Wrapped(Padded(ref.bitmap, p), y - ref.dy + p), x - ref.dx + p) == RefGet(ref, x, y)
  {
    hide Padded, Get, Wrapped;
    PaddedWrapped(ref.bitmap, p, x - ref.dx, y - ref.dy);
  }

  /** A context pixel, without a bounds test. */
  method PaddedPixel(b: Bitmap, ref: Reference, p: nat, cur: seq<Row>, rf: seq<Row>, o: Offset, x: nat, y: nat) returns (v: Bit)
    requires b.Valid() && ref.bitmap.Valid() && x < b.w && y < b.h && p == Padding(b, ref)
    requires cur == Padded(b, p) && rf == Padded(ref.bitmap, p) && InReach(b, ref, o)
    ensures v == Pixel(b, ref, o, x, y)
  {
    hide Get, Padded, RefGet, Padding, Wrapped;
    if o.Cur? {
      PaddedWrapped(b, p, x + o.x, y + o.y);
      v := Wrapped(Wrapped(cur, y + p + o.y), x + p + o.x);
    } else {
      WrappedReference(b, ref, p, x + o.x, y + o.y);
      v := Wrapped(Wrapped(rf, y - ref.dy + p + o.y), x - ref.dx + p + o.x);
    }
  }

  method PaddedContext(b: Bitmap, ref: Reference, p: nat, cur: seq<Row>, rf: seq<Row>, offs: seq<Offset>, x: nat, y: nat)
    returns (c: nat)
    requires b.Valid() && ref.bitmap.Valid() && x < b.w && y < b.h && p == Padding(b, ref)
    requires cur == Padded(b, p) && rf == Padded(ref.bitmap, p) && WithinPadding(b, ref, offs)
    ensures c == Context(b, ref, offs, x, y, 0)
  {
    hide Padded, Pixel, Padding, InReach;
    c := 0;
    for i := 0 to |offs|
      invariant Context(b, ref, offs[i..], x, y, c) == Context(b, ref, offs, x, y, 0)
    {
      assert offs[i..][1..] == offs[i + 1..];
      var v := PaddedPixel(b, ref, p, cur, rf, offs[i], x, y);
      c := 2 * c + v;
    }
  }

  method PaddedUniform(b: Bitmap, ref: Reference, p: nat, rf: seq<Row>, x: nat, y: nat) returns (u: Option<Bit>)
    requires b.Valid() && ref.bitmap.Valid() && x < b.w && y < b.h && p == Padding(b, ref)
    requires rf == Padded(ref.bitmap, p)
    ensures u == Uniform(ref, x, y)
  {
    hide Padded, RefGet;
    PaddedReference(b, ref, p, x, y);
    var v := rf[y - ref.dy + p][x - ref.dx + p];
    for j := -1 to 2
      invariant forall i', j' :: -1 <= i' <= 1 && -1 <= j' < j ==> Around(ref, x, y, i', j') == v
    {
      for i := -1 to 2
        invariant forall i', j' :: -1 <= i' <= 1 && -1 <= j' < j ==> Around(ref, x, y, i', j') == v
        invariant forall i' :: -1 <= i' < i ==> Around(ref, x, y, i', j) == v
      {
        PaddedReference(b, ref, p, x + i, y + j);
        assert rf[y - ref.dy + j + p][x - ref.dx + i + p] == Around(ref, x, y, i, j);
        if rf[y - ref.dy + j + p][x - ref.dx + i + p] != v {
          return None;
        }
      }
    }
    return Some(v);
  }

  /** Whether every uniform neighborhood of row `y` tells its pixel. */
  method PaddedTypical(b: Bitmap, ref: Reference, p: nat, rf: seq<Row>, y: nat) returns (ok: Bit)
    requires b.Valid() && ref.bitmap.Valid() && y < b.h && p == Padding(b, ref) && rf == Padded(ref.bitmap, p)
    ensures ok == Typical(b, ref, y)
  {
    hide Padded, RefGet, Uniform;
    for x := 0 to b.w
      invariant forall x': nat :: x' < x ==> Uniform(ref, x', y) in {None, Some(b.rows[y][x'])}
    {
      var u := PaddedUniform(b, ref, p, rf, x, y);
      if u != None && u != Some(b.rows[y][x]) {
        return 0;
      }
    }
    return 1;
  }

  lemma {:induction false} ContextBound(b: Bitmap, ref: Reference, offs: seq<Offset>, x: int, y: int, acc: nat)
    requires b.Valid() && ref.bitmap.Valid()
    ensures Context(b, ref, offs, x, y, acc) < (acc + 1) * Pow2(|offs|)
    decreases |offs|
  {
    hide Pixel;
    if offs != [] {
      var next := 2 * acc + Pixel(b, ref, offs[0], x, y);
      ContextBound(b, ref, offs[1..], x, y, next);
      MulLess(next + 1, 2 * acc + 2, Pow2(|offs| - 1));
      MulRegroup(acc + 1, 2, Pow2(|offs| - 1));
    }
  }

  lemma {:induction false} SltpBound(offs: seq<Offset>, acc: nat)
    ensures SltpContext(offs, acc) < (acc + 1) * Pow2(|offs|)
    decreases |offs|
  {
    if offs != [] {
      var next := 2 * acc + Flag(offs[0] == Ref(0, 0));
      SltpBound(offs[1..], next);
      MulLess(next + 1, 2 * acc + 2, Pow2(|offs| - 1));
      MulRegroup(acc + 1, 2, Pow2(|offs| - 1));
    }
  }

  /** A context is an index into the 8192. */
  lemma ContextIndex(b: Bitmap, ref: Reference, offs: seq<Offset>, x: int, y: int)
    requires b.Valid() && ref.bitmap.Valid() && |offs| <= 13
    ensures Context(b, ref, offs, x, y, 0) < 0x2000 && SltpContext(offs, 0) < 0x2000
  {
    hide Context, SltpContext;
    ContextBound(b, ref, offs, x, y, 0);
    SltpBound(offs, 0);
    Pow2Monotone(|offs|, 13);
    Pow2Add(12, 1);
    Pow2Small();
  }

  function PixelEvent(b: Bitmap, ref: Reference, offs: seq<Offset>, y: nat, x: nat): Event<nat>
    requires b.Valid() && ref.bitmap.Valid() && y < b.h && x < b.w
  {
    Event(Context(b, ref, offs, x, y, 0), b.rows[y][x])
  }

  lemma RowNext(c: Coder<nat>, b: Bitmap, ref: Reference, offs: seq<Offset>, y: nat, x: nat, ltp: Bit)
    requires b.Valid() && ref.bitmap.Valid() && y < b.h && x < b.w
    ensures var told := ltp == 1 && Uniform(ref, x, y).Some?;
            var c' := if told then c else EncodeEvent(c, PixelEvent(b, ref, offs, y, x));
            Encode(c, RowEvents(Plain, b, ref, offs, y, x, ltp))
            == Encode(c', RowEvents(Plain, b, ref, offs, y, x + 1, ltp))
  {
    hide EncodeEvent, Context, Uniform;
    var events := RowEvents(Plain, b, ref, offs, y, x, ltp);
    if !(ltp == 1 && Uniform(ref, x, y).Some?) {
      assert events[1..] == RowEvents(Plain, b, ref, offs, y, x + 1, ltp);
    }
  }

  lemma RowEnd(b: Bitmap, ref: Reference, offs: seq<Offset>, y: nat, ltp: Bit)
    requires b.Valid() && ref.bitmap.Valid() && y < b.h
    ensures RowEvents(Plain, b, ref, offs, y, b.w, ltp) == []
  {
  }

  method EncodeRow(mq: MQ, cx: Ctx, b: Bitmap, ref: Reference, p: nat, cur: seq<Row>, rf: seq<Row>, offs: seq<Offset>, y: nat,
                   ltp: Bit)
    requires Ready(mq.State()) && cx.Valid() && cx.i.Length == 0x2000
    requires b.Valid() && ref.bitmap.Valid() && y < b.h && p == Padding(b, ref)
    requires cur == Padded(b, p) && rf == Padded(ref.bitmap, p) && WithinPadding(b, ref, offs) && |offs| <= 13
    modifies mq, cx.i, cx.m
    ensures Ready(mq.State())
    ensures Coder(mq.State(), cx.Cells())
         == Encode(old(Coder(mq.State(), cx.Cells())), RowEvents(Plain, b, ref, offs, y, 0, ltp))
  {
    hide Ready, EncodeEvent, Context, Padded, Encode, Uniform, RowEvents;
    ghost var goal := Encode(Coder(mq.State(), cx.Cells()), RowEvents(Plain, b, ref, offs, y, 0, ltp));
    for x := 0 to b.w
      invariant Ready(mq.State())
      invariant Encode(Coder(mq.State(), cx.Cells()), RowEvents(Plain, b, ref, offs, y, x, ltp)) == goal
    {
      RowNext(Coder(mq.State(), cx.Cells()), b, ref, offs, y, x, ltp);
      if ltp == 1 {
        var u := PaddedUniform(b, ref, p, rf, x, y);
        if u != None {
          continue;
        }
      }
      var c := PaddedContext(b, ref, p, cur, rf, offs, x, y);
      ContextIndex(b, ref, offs, x, y);
      mq.Code(cx, c, b.rows[y][x]);
    }
    RowEnd(b, ref, offs, y, ltp);
    GenericRegion.EncodeNothing(Coder(mq.State(), cx.Cells()));
  }

  lemma RegionNext(c: Coder<nat>, b: Bitmap, ref: Reference, offs: seq<Offset>, tpgron: bool, y: nat, ltp: Bit)
    requires b.Valid() && ref.bitmap.Valid() && y < b.h && (!tpgron ==> ltp == 0)
    ensures var typical := Typical(b, ref, y);
            var ltp' := if tpgron then typical else ltp;
            var c1 := if tpgron then EncodeEvent(c, Event(SltpContext(offs, 0), Xor(typical, ltp))) else c;
            Encode(c, RegionEvents(Plain, b, ref, offs, tpgron, y, ltp))
            == Encode(Encode(c1, RowEvents(Plain, b, ref, offs, y, 0, ltp')),
                      RegionEvents(Plain, b, ref, offs, tpgron, y + 1, ltp'))
  {
    hide EncodeEvent, RowEvents, Typical, SltpContext;
    var typical := Typical(b, ref, y);
    var ltp' := if tpgron then typical else ltp;
    var row := RowEvents(Plain, b, ref, offs, y, 0, ltp');
    EncodeConcat(c, RowCode(Plain, b, ref, offs, tpgron, y, ltp), RegionEvents(Plain, b, ref, offs, tpgron, y + 1, ltp'));
    if tpgron {
      var e := Event(SltpContext(offs, 0), Xor(typical, ltp));
      EncodeConcat(c, [e], row);
      EncodeAppend(c, [], e);
      assert [] + [e] == [e];
    }
  }

  lemma RegionEnd(b: Bitmap, ref: Reference, offs: seq<Offset>, tpgron: bool, ltp: Bit)
    requires b.Valid() && ref.bitmap.Valid()
    ensures RegionEvents(Plain, b, ref, offs, tpgron, b.h, ltp) == []
  {
  }

  /** Only the adaptive pixels can be out of reach. */
  lemma TemplateWithin(b: Bitmap, ref: Reference, t: TemplateId, a1: (int, int), a2: (int, int))
    requires t == 0 ==> InReach(b, ref, Cur(a1.0, a1.1)) && InReach(b, ref, Ref(a2.0, a2.1))
    ensures WithinPadding(b, ref, Template(t, a1, a2))
  {
    var offs := Template(t, a1, a2);
    hide InReach, Template;
    TemplateNear(t, a1, a2);
    forall i | 0 <= i < |offs|
      ensures InReach(b, ref, offs[i])
    {
      if Near(offs[i]) {
        NearInReach(b, ref, offs[i]);
      }
    }
  }

  predicate Near(o: Offset) { -1 <= o.x <= 1 && -1 <= o.y <= 1 }

  lemma TemplateNear(t: TemplateId, a1: (int, int), a2: (int, int))
    ensures var offs := Template(t, a1, a2);
            forall i :: 0 <= i < |offs| ==> Near(offs[i]) || (t == 0 && offs[i] in {Cur(a1.0, a1.1), Ref(a2.0, a2.1)})
  {
  }

  lemma NearInReach(b: Bitmap, ref: Reference, o: Offset)
    requires Near(o)
    ensures InReach(b, ref, o)
  {
  }

  /** Every row, coded or told by the reference, as the region's decisions. */
  method EncodeRefine(mq: MQ, cx: Ctx, b: Bitmap, ref: Reference, t: TemplateId, tpgron: bool, a1: (int, int), a2: (int, int))
    requires Ready(mq.State()) && cx.Valid() && cx.i.Length == 0x2000
    requires b.Valid() && ref.bitmap.Valid()
    requires t == 0 ==> InReach(b, ref, Cur(a1.0, a1.1)) && InReach(b, ref, Ref(a2.0, a2.1))
    modifies mq, cx.i, cx.m
    ensures Ready(mq.State())
    ensures Coder(mq.State(), cx.Cells())
         == Encode(old(Coder(mq.State(), cx.Cells())), RegionEvents(Plain, b, ref, Template(t, a1, a2), tpgron, 0, 0))
  {
    hide *;
    TemplateWithin(b, ref, t, a1, a2);
    var p := Padding(b, ref);
    var cur, rf := Padded(b, p), Padded(ref.bitmap, p);
    var offs := Template(t, a1, a2);
    ghost var goal := Encode(Coder(mq.State(), cx.Cells()), RegionEvents(Plain, b, ref, offs, tpgron, 0, 0));
    var ltp: Bit := 0;
    for y := 0 to b.h
      invariant Ready(mq.State()) && (!tpgron ==> ltp == 0)
      invariant Encode(Coder(mq.State(), cx.Cells()), RegionEvents(Plain, b, ref, offs, tpgron, y, ltp)) == goal
    {
      RegionNext(Coder(mq.State(), cx.Cells()), b, ref, offs, tpgron, y, ltp);
      if tpgron {
        var ok := PaddedTypical(b, ref, p, rf, y);
        ContextIndex(b, ref, offs, 0, y);
        mq.Code(cx, SltpContext(offs, 0), Xor(ok, ltp));
        ltp := ok;
      }
      EncodeRow(mq, cx, b, ref, p, cur, rf, offs, y, ltp);
    }
    RegionEnd(b, ref, offs, tpgron, ltp);
    GenericRegion.EncodeNothing(Coder(mq.State(), cx.Cells()));
  }

  // ---- End to end -----------------------------------------------------------------------------

  lemma {:induction false} RowKeys(b: Bitmap, ref: Reference, offs: seq<Offset>, y: nat, x: nat, ltp: Bit)
    requires b.Valid() && ref.bitmap.Valid() && y < b.h && x <= b.w && |offs| <= 13
    ensures KeysIn(RowEvents(Plain, b, ref, offs, y, x, ltp), MqEncoder.Blank(0x2000))
    decreases b.w - x
  {
    hide Context, Uniform;
    if x < b.w {
      ContextIndex(b, ref, offs, x, y);
      RowKeys(b, ref, offs, y, x + 1, ltp);
    }
  }

  lemma {:induction false} RegionKeys(b: Bitmap, ref: Reference, offs: seq<Offset>, tpgron: bool, y: nat, ltp: Bit)
    requires b.Valid() && ref.bitmap.Valid() && y <= b.h && |offs| <= 13
    ensures KeysIn(RegionEvents(Plain, b, ref, offs, tpgron, y, ltp), MqEncoder.Blank(0x2000))
    decreases b.h - y
  {
    hide RowEvents, Typical, SltpContext;
    if y < b.h {
      ContextIndex(b, ref, offs, 0, y);
      RowKeys(b, ref, offs, y, 0, if tpgron then Typical(b, ref, y) else 0);
      RegionKeys(b, ref, offs, tpgron, y + 1, if tpgron then Typical(b, ref, y) else ltp);
    }
  }

  lemma TemplateCausal(t: TemplateId, a1: (int, int), a2: (int, int))
    requires t == 0 ==> Causal(a1.0, a1.1)
    ensures AllCausal(Template(t, a1, a2))
  {
  }

  /**
   For every bitmap, reference, placement and template, with or without typical prediction, the decoding procedure
   makes the bitmap again from the bytes and the reference.
   */
  lemma RefinementRoundTrip(b: Bitmap, ref: Reference, t: TemplateId, tpgron: bool, a1: (int, int), a2: (int, int))
    requires b.Valid() && ref.bitmap.Valid() && (t == 0 ==> Causal(a1.0, a1.1))
    ensures var offs := Template(t, a1, a2);
            var cells := MqEncoder.Blank(0x2000);
            var e := Encode(Coder(START, cells), RegionEvents(Plain, b, ref, offs, tpgron, 0, 0)).enc;
            && Ready(e)
            && ReadRegion(Open(Flush(e), cells), Plain, b.w, b.h, [], ref, Figure(t, a1, a2),
                          if tpgron then Some(LtpContext(t, a2)) else None, 0).0 == b.rows
  {
    hide Figure, SltpContext, LtpContext, Template;
    TemplateIsFigure(t, a1, a2);
    SltpIs(t, a1, a2);
    hide RegionEvents, Encode, ReadRegion, Plays, Open, Flush, NoMarker, Template;
    TemplateCausal(t, a1, a2);
    var offs := Template(t, a1, a2);
    var cells := MqEncoder.Blank(0x2000);
    var events := RegionEvents(Plain, b, ref, offs, tpgron, 0, 0);
    RegionKeys(b, ref, offs, tpgron, 0, 0);
    RoundTrip(cells, events);
    assert events + [] == events && b.rows[..0] == [];
    ReadRegionBack(Open(Flush(Encode(Coder(START, cells), events).enc), cells), Plain, b, ref, offs, tpgron, 0, 0, []);
  }
}
