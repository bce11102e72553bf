/**
 The encoder as it runs: registers, byte list and context arrays updated in place
 (tools/pdf-make-jbig2-tests.py, `Ctx` and `MQ`).
 */
module MqEncoder {
  import opened ByteTypes
  import opened Powers
  import opened Mq
  import opened MqTape

  /** For every context a row of Table E.1 and the symbol held to be likelier, in arrays of one length. */
  class Ctx {
    const i: array<Index>
    const m: array<Bit>

    constructor (n: nat)
      ensures Valid() && fresh(i) && fresh(m)
      ensures i.Length == n && Cells() == Blank(n)
    {
      i := new Index[n](_ => 0);
      m := new Bit[n](_ => 0);
    }

    predicate Valid() {
      i.Length == m.Length && i as object != m as object
    }

    function Cells(): map<nat, Cell>
      requires Valid()
      reads i, m
    {
      map k: nat | 0 <= k < i.Length :: Cell(i[k], m[k])
    }

    method Put(k: nat, cell: Cell)
      requires Valid() && k < i.Length
      modifies i, m
      ensures Cells() == old(Cells())[k := cell]
    {
      i[k] := cell.i;
      m[k] := cell.m;
    }
  }

  function Unused(k: nat): Cell { Cell(0, 0) }

  function Blank(n: nat): map<nat, Cell> {
    map k: nat | 0 <= k < n :: Unused(k)
  }

  /** Contexts start in the first state of the table, with 0 the likelier symbol (E.2.5). */
  lemma BlankExactly(n: nat, k: nat)
    ensures k in Blank(n) <==> k < n
    ensures k < n ==> Blank(n)[k] == Cell(0, 0)
  {
  }

  class MQ {
    var a: nat
    var c: nat
    var ct: nat
    var out: seq<Byte>

    function State(): Enc
      reads this
    {
      Enc(a, c, ct, out)
    }

    constructor ()
      ensures State() == START && Ready(State())
    {
      a, c, ct := 0x8000, 0, 12;
      out := [0];
      new;
      StartIsWhole();
    }

    method PutByte()
      requires out != []
      modifies this
      ensures State() == ByteOut(old(State()))
    {
      if out[|out| - 1] == 0xFF {
        out := out + [c / 0x10_0000 % 0x100];
        c := c % 0x10_0000;
        ct := 7;
      } else if c < 0x800_0000 {
        out := out + [c / 0x8_0000 % 0x100];
        c := c % 0x8_0000;
        ct := 8;
      } else {
        out := out[|out| - 1 := out[|out| - 1] + 1];
        if out[|out| - 1] == 0xFF {
          c := c % 0x800_0000;
          out := out + [c / 0x10_0000 % 0x100];
          c := c % 0x10_0000;
          ct := 7;
        } else {
          out := out + [c / 0x8_0000 % 0x100];
          c := c % 0x8_0000;
          ct := 8;
        }
      }
    }

    /** RENORME. */
    method Renormalize()
      requires out != [] && ct >= 1 && 0 < a < 0x8000
      modifies this
      ensures State() == Renorm(old(State()))
    {
      while true
        invariant out != [] && ct >= 1 && 0 < a < 0x8000
        invariant Renorm(State()) == Renorm(old(State()))
        decreases 0x8000 - a
      {
        a := 2 * a;
        c := 2 * c;
        ct := ct - 1;
        if ct == 0 {
          PutByte();
        }
        if a >= 0x8000 {
          break;
        }
      }
    }

    /** The interval part of a decision: the register `c` moves up, or `a` down to qe. */
    method Choose(qe: Probability, mps: bool)
      requires qe <= a
      modifies this
      ensures State() == Split(old(State()), qe, mps)
    {
      a := a - qe;
      if mps {
        if a < qe {
          a := qe;
        } else {
          c := c + qe;
        }
      } else {
        if a < qe {
          c := c + qe;
        } else {
          a := qe;
        }
      }
    }

    /** One decision: the registers and the context move as the interval coder says. */
    method Code(cx: Ctx, k: nat, d: Bit)
      requires Ready(State()) && cx.Valid() && k < cx.i.Length
      modifies this, cx.i, cx.m
      ensures Ready(State())
      ensures Coder(State(), cx.Cells()) == EncodeEvent(old(Coder(State(), cx.Cells())), Event(k, d))
    {
      EventByPart(Coder(State(), cx.Cells()), k, d);
      var cell := Cell(cx.i[k], cx.m[k]);
      var row := QE[cell.i];
      Choose(row.qe, d == cell.m);
      if d == cell.m {
        if a >= 0x8000 {
          return;
        }
        cx.Put(k, Cell(row.nmps, cell.m));
      } else {
        cx.Put(k, Cell(row.nlps, if row.sw == 1 then Other(cell.m) else cell.m));
      }
      Renormalize();
    }

    /** SETBITS. */
    method SetLowBits()
      modifies `c
      ensures c == SetBits(old(State()))
    {
      var t := c + a;
      c := c - c % 0x1_0000 + 0xFFFF;
      if c >= t {
        c := c - 0x8000;
      }
    }

    /** The register's bits moved up to where a byte is taken; `width` is how wide the interval would be. */
    method ShiftOut(ghost width: nat)
      requires out != []
      modifies this
      ensures State().(a := width) == ByteOut(Enc(width, ShiftLeft(old(c), old(ct)), 0, old(out)))
    {
      c := ShiftLeft(c, ct);
      SameBytes(State(), width, 0);
      PutByte();
    }

    /** FLUSH, and the marker that ends the data. */
    method Finish() returns (data: seq<Byte>)
      requires out != []
      modifies this
      ensures data == Flush(old(State()))
    {
      ghost var e := State();
      SetLowBits();
      ShiftOut(ShiftLeft(1, ct));
      ghost var e1 := ByteOut(Enc(ShiftLeft(1, e.ct), ShiftLeft(SetBits(e), e.ct), 0, e.out));
      ShiftOut(ShiftLeft(e1.a, ct));
      assert out == Drain(e).out;
      data := out[1..];
      if out[|out| - 1] != 0xFF {
        data := data + [0xFF];
      }
      data := data + [0xAC];
    }
  }

  /** What coding a decision comes to, by the part of the interval it takes. */
  lemma EventByPart(c: Coder<nat>, k: nat, d: Bit)
    requires Ready(c.enc) && k in c.cells
    ensures Ready(EncodeEvent(c, Event(k, d)).enc)
    ensures var cell := c.cells[k];
            var n := Split(c.enc, QE[cell.i].qe, d == cell.m);
            if d == cell.m && n.a >= 0x8000 then EncodeEvent(c, Event(k, d)) == Coder(n, c.cells)
            else
              && n.out != [] && n.ct >= 1 && 0 < n.a < 0x8000
              && EncodeEvent(c, Event(k, d)) == Coder(Renorm(n), c.cells[k := Adapt(cell, d == cell.m)])
  {
    assert c.cells == c.cells[k := c.cells[k]];
    EncodeExact(c.enc, c.cells[k], d);
  }

  /** BYTEOUT reads neither `a` nor `ct`. */
  lemma SameBytes(e: Enc, a: nat, ct: nat)
    requires e.out != []
    ensures ByteOut(Enc(a, e.c, ct, e.out)) == ByteOut(e).(a := a)
  {
  }
}
