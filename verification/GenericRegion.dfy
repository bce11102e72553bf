/**
 Generic region coding, ITU-T T.88 section 6.2 (tools/pdf-make-jbig2-tests.py, `gb_template` and `encode_generic`),
 and its decoding procedure.
 */
module GenericRegion {
  import opened Wrappers
  import opened ByteTypes
  import opened Powers
  import opened Mq
  import opened MqTape
  import opened MqEncoder
  import opened Bitmaps
  import opened BitStrings
  import opened IntegerCodes

  type Offset = (int, int)
  type TemplateId = t: nat | t < 4

  /** The context that codes whether a row is typical, by template (figures 8 to 11). */
  function SltpContext(t: TemplateId): (k: nat)
    ensures k < 0x1_0000
  {
    [0x9B25, 0x0795, 0x00E5, 0x0195][t]
  }

  /** As many adaptive pixels as the template has. */
  predicate AtFor(t: TemplateId, at: seq<Offset>) {
    |at| == if t == 0 then 4 else 1
  }

  /** Context pixels, the most significant first (figures 3 to 6). */
  function Template(t: TemplateId, at: seq<Offset>): (offs: seq<Offset>)
    requires AtFor(t, at)
    ensures |offs| <= 16
  {
    if t == 0 then
      [at[3], (-1, -2), (0, -2), (1, -2), at[2], at[1], (-2, -1), (-1, -1), (0, -1), (1, -1), (2, -1), at[0],
       (-4, 0), (-3, 0), (-2, 0), (-1, 0)]
    else if t == 1 then
      [(-1, -2), (0, -2), (1, -2), (2, -2), (-2, -1), (-1, -1), (0, -1), (1, -1), (2, -1), at[0],
       (-3, 0), (-2, 0), (-1, 0)]
    else if t == 2 then
      [(-1, -2), (0, -2), (1, -2), (-2, -1), (-1, -1), (0, -1), (1, -1), at[0], (-2, 0), (-1, 0)]
    else
      [(-3, -1), (-2, -1), (-1, -1), (0, -1), (1, -1), at[0], (-4, 0), (-3, 0), (-2, 0), (-1, 0)]
  }

  predicate AllCausal(offs: seq<Offset>) {
    forall i :: 0 <= i < |offs| ==> Causal(offs[i].0, offs[i].1)
  }

  /** The pixels at the offsets as one number. */
  function Context(b: Bitmap, offs: seq<Offset>, x: int, y: int, acc: nat): nat
    requires b.Valid()
    decreases |offs|
  {
    if offs == [] then acc
    else Context(b, offs[1..], x, y, 2 * acc + Get(b, x + offs[0].0, y + offs[0].1))
  }

  function Above(b: Bitmap, y: nat): Row
    requires b.Valid() && y <= b.h
  {
    if y == 0 then Bitmaps.Blank(b.w) else b.rows[y - 1]
  }

  // ---- The decisions of a region --------------------------------------------------------------

  function RowEvents<K>(wrap: nat -> K, b: Bitmap, offs: seq<Offset>, y: nat, x: nat): seq<Event<K>>
    requires b.Valid() && y < b.h && x <= b.w
    decreases b.w - x
  {
    if x == b.w then []
    else [Event(wrap(Context(b, offs, x, y, 0)), b.rows[y][x])] + RowEvents(wrap, b, offs, y, x + 1)
  }

  /** The decisions of row `y`; typical prediction (6.2.5.7) spends one on telling a repeated row, and then none on its pixels. */
  function RowCode<K>(wrap: nat -> K, b: Bitmap, offs: seq<Offset>, tpgd: Option<nat>, y: nat, ltp: Bit): seq<Event<K>>
    requires b.Valid() && y < b.h
  {
    match tpgd
    case None => RowEvents(wrap, b, offs, y, 0)
    case Some(sltp) =>
      [Event(wrap(sltp), Xor(Typical(b, y), ltp))]
      + if Typical(b, y) == 1 then [] else RowEvents(wrap, b, offs, y, 0)
  }

  function Typical(b: Bitmap, y: nat): Bit
    requires b.Valid() && y < b.h
  {
    Flag(b.rows[y] == Above(b, y))
  }

  /** A row is typical exactly if it repeats the row above, or is white if there is none; of such a row one decision is made, of another each pixel. */
  lemma RowSpends<K>(wrap: nat -> K, b: Bitmap, offs: seq<Offset>, tpgd: Option<nat>, y: nat, ltp: Bit)
    requires b.Valid() && y < b.h
    ensures Typical(b, y) == 1 <==> forall x: nat :: x < b.w ==> b.rows[y][x] == if y == 0 then 0 else b.rows[y - 1][x]
    ensures |RowCode(wrap, b, offs, tpgd, y, ltp)|
         == if tpgd == None then b.w else if Typical(b, y) == 1 then 1 else 1 + b.w
  {
    RowLength(wrap, b, offs, y, 0);
    hide RowEvents;
    assert b.rows[y] in b.rows && Above(b, y) == if y == 0 then Bitmaps.Blank(b.w) else b.rows[y - 1];
  }

  lemma {:induction false} RowLength<K>(wrap: nat -> K, b: Bitmap, offs: seq<Offset>, y: nat, x: nat)
    requires b.Valid() && y < b.h && x <= b.w
    ensures |RowEvents(wrap, b, offs, y, x)| == b.w - x
    decreases b.w - x
  {
    hide Context;
    if x < b.w {
      RowLength(wrap, b, offs, y, x + 1);
    }
  }

  function RegionEvents<K>(wrap: nat -> K, b: Bitmap, offs: seq<Offset>, tpgd: Option<nat>, y: nat, ltp: Bit): seq<Event<K>>
    requires b.Valid() && y <= b.h
    decreases b.h - y
  {
    if y == b.h then []
    else
      RowCode(wrap, b, offs, tpgd, y, ltp)
      + RegionEvents(wrap, b, offs, tpgd, y + 1, if tpgd.Some? then Typical(b, y) else ltp)
  }

  // ---- The decoding procedure (6.2.5.7) -------------------------------------------------------

  /** The pixels of a row from one to another. */
  function Across(first: int, last: int, y: int): (s: seq<Offset>)
    requires first <= last
    ensures |s| == last - first + 1
  {
    seq(last - first + 1, i requires 0 <= i < last - first + 1 => (first + i, y))
  }

  /** The template as its figure has it (figures 3 to 6): row by row, each adaptive pixel where it nominally is. */
  function Figure(t: TemplateId, at: seq<Offset>): seq<Offset>
    requires AtFor(t, at)
  {
    if t == 0 then
      ([at[3]] + Across(-1, 1, -2) + [at[2]]) + ([at[1]] + Across(-2, 2, -1) + [at[0]]) + Across(-4, -1, 0)
    else if t == 1 then
      Across(-1, 2, -2) + (Across(-2, 2, -1) + [at[0]]) + Across(-3, -1, 0)
    else if t == 2 then
      Across(-1, 1, -2) + (Across(-2, 1, -1) + [at[0]]) + Across(-2, -1, 0)
    else
      (Across(-3, 1, -1) + [at[0]]) + Across(-4, -1, 0)
  }

  /** The context of SLTP by its pixels (figures 8 to 11), as the rows of the template stand. */
  function SltpPixels(t: TemplateId): seq<Bit> {
    if t == 0 then [1, 0, 0, 1, 1] + [0, 1, 1, 0, 0, 1, 0] + [0, 1, 0, 1]
    else if t == 1 then [0, 0, 1, 1] + [1, 1, 0, 0, 1, 0] + [1, 0, 1]
    else if t == 2 then [0, 0, 1] + [1, 1, 0, 0, 1] + [0, 1]
    else [0, 1, 1, 0, 0, 1] + [0, 1, 0, 1]
  }

  lemma TemplateIsFigure(t: TemplateId, at: seq<Offset>)
    requires AtFor(t, at)
    ensures Template(t, at) == Figure(t, at)
  {
    if t == 0 {
      FigureOf0(at);
    } else if t == 1 {
      FigureOf1(at);
    } else if t == 2 {
      FigureOf2(at);
    } else {
      FigureOf3(at);
    }
  }

  lemma FigureOf0(at: seq<Offset>)
    requires AtFor(0, at)
    ensures Template(0, at) == Figure(0, at)
  {
    assert Across(-1, 1, -2) == [(-1, -2), (0, -2), (1, -2)];
    assert Across(-2, 2, -1) == [(-2, -1), (-1, -1), (0, -1), (1, -1), (2, -1)];
    assert Across(-4, -1, 0) == [(-4, 0), (-3, 0), (-2, 0), (-1, 0)];
    hide Across;
  }

  lemma FigureOf1(at: seq<Offset>)
    requires AtFor(1, at)
    ensures Template(1, at) == Figure(1, at)
  {
    assert Across(-1, 2, -2) == [(-1, -2), (0, -2), (1, -2), (2, -2)];
    assert Across(-2, 2, -1) == [(-2, -1), (-1, -1), (0, -1), (1, -1), (2, -1)];
    assert Across(-3, -1, 0) == [(-3, 0), (-2, 0), (-1, 0)];
    hide Across;
  }

  lemma FigureOf2(at: seq<Offset>)
    requires AtFor(2, at)
    ensures Template(2, at) == Figure(2, at)
  {
    assert Across(-1, 1, -2) == [(-1, -2), (0, -2), (1, -2)];
    assert Across(-2, 1, -1) == [(-2, -1), (-1, -1), (0, -1), (1, -1)];
    assert Across(-2, -1, 0) == [(-2, 0), (-1, 0)];
    hide Across;
  }

  lemma FigureOf3(at: seq<Offset>)
    requires AtFor(3, at)
    ensures Template(3, at) == Figure(3, at)
  {
    assert Across(-3, 1, -1) == [(-3, -1), (-2, -1), (-1, -1), (0, -1), (1, -1)];
    assert Across(-4, -1, 0) == [(-4, 0), (-3, 0), (-2, 0), (-1, 0)];
    hide Across;
  }

  lemma SltpIs(t: TemplateId)
    ensures SltpContext(t) == Append(0, SltpPixels(t))
  {
    hide Append;
    if t == 0 {
      SltpOf0();
    } else if t == 1 {
      SltpOf1();
    } else if t == 2 {
      SltpOf2();
    } else {
      SltpOf3();
    }
  }

  lemma SltpOf0()
    ensures Append(0, SltpPixels(0)) == 0x9B25
  {
    assert Append(0, [1, 0, 0, 1, 1]) == 0x13;
    assert Append(0x13, [0, 1, 1, 0, 0, 1, 0]) == 0x9B2;
    assert Append(0x9B2, [0, 1, 0, 1]) == 0x9B25;
    hide Append;
    ThreeRows(0, [1, 0, 0, 1, 1], [0, 1, 1, 0, 0, 1, 0], [0, 1, 0, 1]);
  }

  lemma SltpOf1()
    ensures Append(0, SltpPixels(1)) == 0x795
  {
    assert Append(0, [0, 0, 1, 1]) == 3 && Append(3, [1, 1, 0, 0, 1, 0]) == 0xF2 && Append(0xF2, [1, 0, 1]) == 0x795;
    hide Append;
    ThreeRows(0, [0, 0, 1, 1], [1, 1, 0, 0, 1, 0], [1, 0, 1]);
  }

  lemma SltpOf2()
    ensures Append(0, SltpPixels(2)) == 0xE5
  {
    assert Append(0, [0, 0, 1]) == 1 && Append(1, [1, 1, 0, 0, 1]) == 0x39 && Append(0x39, [0, 1]) == 0xE5;
    hide Append;
    ThreeRows(0, [0, 0, 1], [1, 1, 0, 0, 1], [0, 1]);
  }

  lemma SltpOf3()
    ensures Append(0, SltpPixels(3)) == 0x195
  {
    assert Append(0, [0, 1, 1, 0, 0, 1]) == 0x19 && Append(0x19, [0, 1, 0, 1]) == 0x195;
    hide Append;
    AppendConcat(0, [0, 1, 1, 0, 0, 1], [0, 1, 0, 1]);
  }

  lemma ThreeRows(acc: nat, a: seq<Bit>, b: seq<Bit>, c: seq<Bit>)
    ensures Append(acc, a + b + c) == Append(Append(Append(acc, a), b), c)
  {
    AppendConcat(acc, a + b, c);
    AppendConcat(acc, a, b);
  }

  function KnownContext(w: nat, done: seq<Row>, cur: Row, offs: seq<Offset>, acc: nat): nat
    requires forall row <- done :: |row| == w
    decreases |offs|
  {
    if offs == [] then acc
    else
      var pixel := Known(w, done, cur, |cur| + offs[0].0, |done| + offs[0].1);
      KnownContext(w, done, cur, offs[1..], 2 * acc + pixel)
  }

  function ReadRow<K>(t: Tape<K>, wrap: nat -> K, w: nat, done: seq<Row>, cur: Row, offs: seq<Offset>)
    : (r: (Row, Tape<K>))
    requires |cur| <= w && forall row <- done :: |row| == w
    ensures |r.0| == w
    decreases w - |cur|
  {
    if |cur| == w then (cur, t)
    else
      var (pixel, t') := Read(t, wrap(KnownContext(w, done, cur, offs, 0)));
      ReadRow(t', wrap, w, done, cur + [pixel], offs)
  }

  /** A row, and LTP after it. */
  function ReadCodedRow<K>(t: Tape<K>, wrap: nat -> K, w: nat, done: seq<Row>, offs: seq<Offset>, tpgd: Option<nat>, ltp: Bit)
    : (r: (Row, Bit, Tape<K>))
    requires forall row <- done :: |row| == w
    ensures |r.0| == w
  {
    match tpgd
    case None =>
      var (row, t') := ReadRow(t, wrap, w, done, [], offs);
      (row, ltp, t')
    case Some(sltp) =>
      var (toggle, t') := Read(t, wrap(sltp));
      if (toggle + ltp) % 2 == 1 then
        (if done == [] then Bitmaps.Blank(w) else done[|done| - 1], 1, t')
      else
        var (row, t'') := ReadRow(t', wrap, w, done, [], offs);
        (row, 0, t'')
  }

  function ReadRegion<K>(t: Tape<K>, wrap: nat -> K, w: nat, h: nat, done: seq<Row>, offs: seq<Offset>,
                         tpgd: Option<nat>, ltp: Bit): (seq<Row>, Tape<K>)
    requires |done| <= h && forall row <- done :: |row| == w
    decreases h - |done|
  {
    if |done| == h then (done, t)
    else
      var (row, ltp', t') := ReadCodedRow(t, wrap, w, done, offs, tpgd, ltp);
      ReadRegion(t', wrap, w, h, done + [row], offs, tpgd, ltp')
  }

  // ---- The round trip -------------------------------------------------------------------------

  lemma {:induction false} ContextKnown(b: Bitmap, offs: seq<Offset>, x: nat, y: nat, acc: nat)
    requires b.Valid() && x < b.w && y < b.h && AllCausal(offs)
    ensures KnownContext(b.w, b.rows[..y], b.rows[y][..x], offs, acc) == Context(b, offs, x, y, acc)
    decreases |offs|
  {
    if offs != [] {
      CausalKnown(b, x, y, offs[0].0, offs[0].1);
      ContextKnown(b, offs[1..], x, y, 2 * acc + Get(b, x + offs[0].0, y + offs[0].1));
    }
  }

  lemma {:induction false} ReadRowBack<K>(t: Tape<K>, wrap: nat -> K, b: Bitmap, offs: seq<Offset>, y: nat, x: nat,
                                          rest: seq<Event<K>>)
    requires b.Valid() && y < b.h && x <= b.w && AllCausal(offs)
    requires Plays(t, RowEvents(wrap, b, offs, y, x) + rest)
    ensures var (row, t') := ReadRow(t, wrap, b.w, b.rows[..y], b.rows[y][..x], offs);
            row == b.rows[y] && Plays(t', rest)
    decreases b.w - x
  {
    hide Read, Plays, KnownContext, Context;
    var events := RowEvents(wrap, b, offs, y, x);
    if x == b.w {
      assert events + rest == rest && b.rows[y][..x] == b.rows[y];
    } else {
      ContextKnown(b, offs, x, y, 0);
      var tail := RowEvents(wrap, b, offs, y, x + 1) + rest;
      assert events + rest == [events[0]] + tail;
      PlaysNext(t, events[0], tail);
      assert b.rows[y][..x] + [b.rows[y][x]] == b.rows[y][..x + 1];
      ReadRowBack(Read(t, events[0].key).1, wrap, b, offs, y, x + 1, rest);
    }
  }

  lemma ReadCodedRowBack<K>(t: Tape<K>, wrap: nat -> K, b: Bitmap, offs: seq<Offset>, tpgd: Option<nat>, y: nat, ltp: Bit,
                            rest: seq<Event<K>>)
    requires b.Valid() && y < b.h && AllCausal(offs)
    requires Plays(t, RowCode(wrap, b, offs, tpgd, y, ltp) + rest)
    ensures var (row, ltp', t') := ReadCodedRow(t, wrap, b.w, b.rows[..y], offs, tpgd, ltp);
            row == b.rows[y] && ltp' == (if tpgd.Some? then Typical(b, y) else ltp) && Plays(t', rest)
  {
    hide Read, ReadRow, ReadCodedRow, RowCode, RowEvents, Plays, Typical, Xor, AllCausal;
    assert b.rows[y][..0] == [];
    RowCodeParts(wrap, b, offs, tpgd, y, ltp, rest);
    ReadCodedParts(t, wrap, b.w, b.rows[..y], offs, tpgd, ltp);
    if tpgd == None {
      ReadRowBack(t, wrap, b, offs, y, 0, rest);
    } else {
      var e := Event(wrap(tpgd.value), Xor(Typical(b, y), ltp));
      ToggledBack(Typical(b, y), ltp);
      if Typical(b, y) == 1 {
        PlaysNext(t, e, rest);
        TypicalRow(b, y);
      } else {
        PlaysNext(t, e, RowEvents(wrap, b, offs, y, 0) + rest);
        ReadRowBack(Read(t, e.key).1, wrap, b, offs, y, 0, rest);
      }
    }
  }

  lemma RowCodeParts<K>(wrap: nat -> K, b: Bitmap, offs: seq<Offset>, tpgd: Option<nat>, y: nat, ltp: Bit, rest: seq<Event<K>>)
    requires b.Valid() && y < b.h
    ensures var code, row := RowCode(wrap, b, offs, tpgd, y, ltp), RowEvents(wrap, b, offs, y, 0);
            if tpgd == None then code == row
            else
              var e := Event(wrap(tpgd.value), Xor(Typical(b, y), ltp));
              code + rest == if Typical(b, y) == 1 then [e] + rest else [e] + (row + rest)
  {
    hide RowEvents, Typical, Xor;
    if tpgd.Some? && Typical(b, y) == 1 {
      var one := [Event(wrap(tpgd.value), Xor(Typical(b, y), ltp))];
      assert one + [] == one;
    }
  }

  lemma ReadCodedParts<K>(t: Tape<K>, wrap: nat -> K, w: nat, done: seq<Row>, offs: seq<Offset>, tpgd: Option<nat>, ltp: Bit)
    requires forall row <- done :: |row| == w
    ensures var r := ReadCodedRow(t, wrap, w, done, offs, tpgd, ltp);
            if tpgd == None then
              var (row, t') := ReadRow(t, wrap, w, done, [], offs);
              r == (row, ltp, t')
            else
              var (toggle, t') := Read(t, wrap(tpgd.value));
              if (toggle + ltp) % 2 == 1 then r == (if done == [] then Bitmaps.Blank(w) else done[|done| - 1], 1, t')
              else
                var (row, t'') := ReadRow(t', wrap, w, done, [], offs);
                r == (row, 0, t'')
  {
    hide Read, ReadRow, Xor, Bitmaps.Blank;
  }

  lemma ToggledBack(a: Bit, b: Bit)
    ensures (Xor(a, b) + b) % 2 == a
  {
  }

  lemma TypicalRow(b: Bitmap, y: nat)
    requires b.Valid() && y < b.h && Typical(b, y) == 1
    ensures b.rows[y] == if b.rows[..y] == [] then Bitmaps.Blank(b.w) else b.rows[..y][|b.rows[..y]| - 1]
  {
  }

  /** Decoding a region gives back every row, coded or left out. */
  lemma {:induction false} ReadRegionBack<K>(t: Tape<K>, wrap: nat -> K, b: Bitmap, offs: seq<Offset>, tpgd: Option<nat>,
                                             y: nat, ltp: Bit, rest: seq<Event<K>>)
    requires b.Valid() && y <= b.h && AllCausal(offs)
    requires Plays(t, RegionEvents(wrap, b, offs, tpgd, y, ltp) + rest)
    ensures var (rows, t') := ReadRegion(t, wrap, b.w, b.h, b.rows[..y], offs, tpgd, ltp);
            rows == b.rows && Plays(t', rest)
    decreases b.h - y
  {
    hide ReadCodedRow, RowCode, Plays, Typical;
    if y == b.h {
      assert RegionEvents(wrap, b, offs, tpgd, y, ltp) + rest == rest && b.rows[..y] == b.rows;
    } else {
      var ltp' := if tpgd.Some? then Typical(b, y) else ltp;
      var tail := RegionEvents(wrap, b, offs, tpgd, y + 1, ltp') + rest;
      assert RegionEvents(wrap, b, offs, tpgd, y, ltp) + rest == RowCode(wrap, b, offs, tpgd, y, ltp) + tail;
      ReadCodedRowBack(t, wrap, b, offs, tpgd, y, ltp, tail);
      assert b.rows[..y] + [b.rows[y]] == b.rows[..y + 1];
      ReadRegionBack(ReadCodedRow(t, wrap, b.w, b.rows[..y], offs, tpgd, ltp).2, wrap, b, offs, tpgd, y + 1, ltp', rest);
    }
  }

  // ---- The encoder as it runs -----------------------------------------------------------------

  /** The padding around the bitmap being coded. */
  const P: nat := 130

  /** The offsets stay within the padding. */
  predicate WithinPadding(offs: seq<Offset>) {
    forall i :: 0 <= i < |offs| ==> -130 <= offs[i].0 <= 130 && -130 <= offs[i].1 <= 130
  }

  lemma {:induction false} ContextBound(b: Bitmap, offs: seq<Offset>, x: int, y: int, acc: nat)
    requires b.Valid()
    ensures Context(b, offs, x, y, acc) < (acc + 1) * Pow2(|offs|)
    decreases |offs|
  {
    if offs != [] {
      var next := 2 * acc + Get(b, x + offs[0].0, y + offs[0].1);
      ContextBound(b, offs[1..], x, y, next);
      MulLess(next + 1, 2 * acc + 2, Pow2(|offs| - 1));
      MulRegroup(acc + 1, 2, Pow2(|offs| - 1));
    }
  }

  /** A context is an index into the 65536. */
  lemma ContextIndex(b: Bitmap, offs: seq<Offset>, x: int, y: int)
    requires b.Valid() && |offs| <= 16
    ensures Context(b, offs, x, y, 0) < 0x1_0000
  {
    ContextBound(b, offs, x, y, 0);
    Pow2Monotone(|offs|, 16);
    Pow2Small();
  }

  /** The context read from the padded rows. */
  method PaddedContext(b: Bitmap, pad: seq<Row>, offs: seq<Offset>, x: nat, y: nat) returns (c: nat)
    requires b.Valid() && x < b.w && y < b.h && pad == Padded(b, P) && WithinPadding(offs)
    ensures c == Context(b, offs, x, y, 0)
  {
    hide Get, Padded;
    c := 0;
    for i := 0 to |offs|
      invariant Context(b, offs[i..], x, y, c) == Context(b, offs, x, y, 0)
    {
      var (dx, dy) := offs[i];
      PaddedGet(b, P, x + dx, y + dy);
      assert offs[i..][1..] == offs[i + 1..];
      c := 2 * c + pad[y + P + dy][x + P + dx];
    }
  }

  lemma RowNext(c: Coder<nat>, b: Bitmap, offs: seq<Offset>, y: nat, x: nat)
    requires b.Valid() && y < b.h && x < b.w
    ensures Encode(c, RowEvents(Plain, b, offs, y, x))
         == Encode(EncodeEvent(c, Event(Context(b, offs, x, y, 0), b.rows[y][x])), RowEvents(Plain, b, offs, y, x + 1))
  {
    hide EncodeEvent, Context;
    assert RowEvents(Plain, b, offs, y, x)[1..] == RowEvents(Plain, b, offs, y, x + 1);
  }

  method EncodeRow(mq: MQ, cx: Ctx, b: Bitmap, pad: seq<Row>, offs: seq<Offset>, y: nat)
    requires Ready(mq.State()) && cx.Valid() && cx.i.Length == 0x1_0000
    requires b.Valid() && y < b.h && pad == Padded(b, P) && WithinPadding(offs) && |offs| <= 16
    modifies mq, cx.i, cx.m
    ensures Ready(mq.State())
    ensures Coder(mq.State(), cx.Cells()) == Encode(old(Coder(mq.State(), cx.Cells())), RowEvents(Plain, b, offs, y, 0))
  {
    hide Ready, EncodeEvent, Context, Padded, Encode;
    ghost var goal := Encode(Coder(mq.State(), cx.Cells()), RowEvents(Plain, b, offs, y, 0));
    for x := 0 to b.w
      invariant Ready(mq.State())
      invariant Encode(Coder(mq.State(), cx.Cells()), RowEvents(Plain, b, offs, y, x)) == goal
    {
      var c := PaddedContext(b, pad, offs, x, y);
      ContextIndex(b, offs, x, y);
      RowNext(Coder(mq.State(), cx.Cells()), b, offs, y, x);
      mq.Code(cx, c, b.rows[y][x]);
    }
    EncodeNothing(Coder(mq.State(), cx.Cells()));
  }

  lemma EncodeNothing(c: Coder<nat>)
    ensures Encode(c, []) == c
  {
  }

  lemma RegionNext(c: Coder<nat>, b: Bitmap, offs: seq<Offset>, tpgd: Option<nat>, y: nat, ltp: Bit)
    requires b.Valid() && y < b.h
    ensures var c1 := if tpgd.Some? then EncodeEvent(c, Event(tpgd.value, Xor(Typical(b, y), ltp))) else c;
            var c2 := if tpgd.Some? && Typical(b, y) == 1 then c1 else Encode(c1, RowEvents(Plain, b, offs, y, 0));
            Encode(c, RegionEvents(Plain, b, offs, tpgd, y, ltp))
            == Encode(c2, RegionEvents(Plain, b, offs, tpgd, y + 1, if tpgd.Some? then Typical(b, y) else ltp))
  {
    hide EncodeEvent, RowEvents, Typical;
    var row := RowEvents(Plain, b, offs, y, 0);
    var below := RegionEvents(Plain, b, offs, tpgd, y + 1, if tpgd.Some? then Typical(b, y) else ltp);
    EncodeConcat(c, RowCode(Plain, b, offs, tpgd, y, ltp), below);
    if tpgd.Some? {
      var e := Event(tpgd.value, Xor(Typical(b, y), ltp));
      EncodeConcat(c, [e], row);
      EncodeAppend(c, [], e);
      assert [] + [e] == [e];
      if Typical(b, y) == 1 {
        assert RowCode(Plain, b, offs, tpgd, y, ltp) == [e];
      }
    }
  }

  lemma TemplateWithin(t: TemplateId, at: seq<Offset>)
    requires AtFor(t, at) && WithinPadding(at)
    ensures WithinPadding(Template(t, at))
  {
    hide Template;
    TemplateFixed(t, at);
  }

  predicate NearBefore(o: Offset) { -4 <= o.0 <= 4 && -2 <= o.1 <= 0 && Causal(o.0, o.1) }

  /** Every pixel of a template is an adaptive one or a near one that comes before. */
  lemma TemplateFixed(t: TemplateId, at: seq<Offset>)
    requires AtFor(t, at)
    ensures forall i :: 0 <= i < |Template(t, at)| ==> Template(t, at)[i] in at || NearBefore(Template(t, at)[i])
  {
    if t == 0 {
      FixedOf0(at);
    } else if t == 1 {
      FixedOf1(at);
    } else {
      FixedOfRest(t, at);
    }
  }

  lemma FixedOf0(at: seq<Offset>)
    requires AtFor(0, at)
    ensures forall i :: 0 <= i < |Template(0, at)| ==> Template(0, at)[i] in at || NearBefore(Template(0, at)[i])
  {
    var offs := Template(0, at);
    assert forall i :: 0 <= i < |offs| ==> i in {0, 4, 5, 11} || NearBefore(offs[i]);
  }

  lemma FixedOf1(at: seq<Offset>)
    requires AtFor(1, at)
    ensures forall i :: 0 <= i < |Template(1, at)| ==> Template(1, at)[i] in at || NearBefore(Template(1, at)[i])
  {
  }

  lemma FixedOfRest(t: TemplateId, at: seq<Offset>)
    requires AtFor(t, at) && t >= 2
    ensures forall i :: 0 <= i < |Template(t, at)| ==> Template(t, at)[i] in at || NearBefore(Template(t, at)[i])
  {
  }

  lemma RegionEnd(b: Bitmap, offs: seq<Offset>, tpgd: Option<nat>, ltp: Bit)
    requires b.Valid()
    ensures RegionEvents(Plain, b, offs, tpgd, b.h, ltp) == []
  {
  }

  /** Every row, coded or left out, as the region's decisions. */
  method EncodeGeneric(mq: MQ, cx: Ctx, b: Bitmap, t: TemplateId, at: seq<Offset>, tpgdon: bool)
    requires Ready(mq.State()) && cx.Valid() && cx.i.Length == 0x1_0000
    requires b.Valid() && AtFor(t, at) && WithinPadding(at)
    modifies mq, cx.i, cx.m
    ensures Ready(mq.State())
    ensures Coder(mq.State(), cx.Cells())
         == Encode(old(Coder(mq.State(), cx.Cells())),
                   RegionEvents(Plain, b, Template(t, at), if tpgdon then Some(SltpContext(t)) else None, 0, 0))
  {
    hide *;
    TemplateWithin(t, at);
    var pad := Padded(b, P);
    var offs := Template(t, at);
    var tpgd := if tpgdon then Some(SltpContext(t)) else None;
    ghost var goal := Encode(Coder(mq.State(), cx.Cells()), RegionEvents(Plain, b, offs, tpgd, 0, 0));
    var ltp: Bit := 0;
    for y := 0 to b.h
      invariant Ready(mq.State())
      invariant Encode(Coder(mq.State(), cx.Cells()), RegionEvents(Plain, b, offs, tpgd, y, ltp)) == goal
    {
      RegionNext(Coder(mq.State(), cx.Cells()), b, offs, tpgd, y, ltp);
      if tpgdon {
        var same := Typical(b, y);
        mq.Code(cx, SltpContext(t), Xor(same, ltp));
        ltp := same;
        if same == 1 {
          continue;
        }
      }
      EncodeRow(mq, cx, b, pad, offs, y);
    }
    RegionEnd(b, offs, tpgd, ltp);
    EncodeNothing(Coder(mq.State(), cx.Cells()));
  }

  // ---- End to end -----------------------------------------------------------------------------

  lemma {:induction false} RowKeys(b: Bitmap, offs: seq<Offset>, y: nat, x: nat)
    requires b.Valid() && y < b.h && x <= b.w && |offs| <= 16
    ensures KeysIn(RowEvents(Plain, b, offs, y, x), MqEncoder.Blank(0x1_0000))
    decreases b.w - x
  {
    hide Context;
    if x < b.w {
      ContextIndex(b, offs, x, y);
      RowKeys(b, offs, y, x + 1);
    }
  }

  lemma {:induction false} RegionKeys(b: Bitmap, offs: seq<Offset>, tpgd: Option<nat>, y: nat, ltp: Bit)
    requires b.Valid() && y <= b.h && |offs| <= 16 && (tpgd.Some? ==> tpgd.value < 0x1_0000)
    ensures KeysIn(RegionEvents(Plain, b, offs, tpgd, y, ltp), MqEncoder.Blank(0x1_0000))
    decreases b.h - y
  {
    hide RowEvents, Typical;
    if y < b.h {
      RowKeys(b, offs, y, 0);
      RegionKeys(b, offs, tpgd, y + 1, if tpgd.Some? then Typical(b, y) else ltp);
    }
  }

  lemma TemplateCausal(t: TemplateId, at: seq<Offset>)
    requires AtFor(t, at) && AllCausal(at)
    ensures AllCausal(Template(t, at))
  {
    hide Template;
    TemplateFixed(t, at);
  }

  /**
   For every bitmap, template and causal adaptive pixels, with or without typical prediction, the decoding
   procedure makes the bitmap again from the bytes.
   */
  lemma GenericRoundTrip(b: Bitmap, t: TemplateId, at: seq<Offset>, tpgdon: bool)
    requires b.Valid() && AtFor(t, at) && AllCausal(at)
    ensures var tpgd := if tpgdon then Some(SltpContext(t)) else None;
            var offs := Template(t, at);
            var cells := MqEncoder.Blank(0x1_0000);
            var e := Encode(Coder(START, cells), RegionEvents(Plain, b, offs, tpgd, 0, 0)).enc;
            && Ready(e)
            && ReadRegion(Open(Flush(e), cells), Plain, b.w, b.h, [], Figure(t, at),
                          if tpgdon then Some(Append(0, SltpPixels(t))) else None, 0).0 == b.rows
  {
    TemplateIsFigure(t, at);
    SltpIs(t);
    hide Figure, SltpPixels, Append, SltpContext;
    hide RegionEvents, Encode, ReadRegion, Plays, Template, Open, Flush, NoMarker;
    var tpgd := if tpgdon then Some(SltpContext(t)) else None;
    var offs := Template(t, at);
    var cells := MqEncoder.Blank(0x1_0000);
    var events := RegionEvents(Plain, b, offs, tpgd, 0, 0);
    RegionKeys(b, offs, tpgd, 0, 0);
    TemplateCausal(t, at);
    RoundTrip(cells, events);
    assert events + [] == events && b.rows[..0] == [];
    ReadRegionBack(Open(Flush(Encode(Coder(START, cells), events).enc), cells), Plain, b, offs, tpgd, 0, 0, []);
  }
}
