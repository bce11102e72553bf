/**
 Bitmaps of 0 and 1 pixels, white (0) outside, and the padded rows the coders read
 (tools/pdf-make-jbig2-tests.py, `Bm.get` and `padded`).
 */
module Bitmaps {
  import opened ByteTypes

  type Row = seq<Bit>

  datatype Bitmap = Bitmap(w: nat, h: nat, rows: seq<Row>) {
    predicate Valid() {
      |rows| == h && forall row <- rows :: |row| == w
    }
  }

  function Get(b: Bitmap, x: int, y: int): Bit
    requires b.Valid()
  {
    if 0 <= x < b.w && 0 <= y < b.h then b.rows[y][x] else 0
  }

  function Blank(n: nat): (r: Row)
    ensures |r| == n
  {
    seq(n, _ => 0)
  }

  function PadRow(row: Row, w: nat, p: nat): (r: Row)
    requires |row| == w
    ensures |r| == w + 2 * p
  {
    Blank(p) + row + Blank(p)
  }

  function Padded(b: Bitmap, p: nat): (pad: seq<Row>)
    requires b.Valid()
    ensures |pad| == b.h + 2 * p
    ensures forall row <- pad :: |row| == b.w + 2 * p
  {
    var blank := seq(p, _ => Blank(b.w + 2 * p));
    blank + seq(b.h, y requires 0 <= y < b.h => PadRow(b.rows[y], b.w, p)) + blank
  }

  /** A pixel within the padding needs no bounds test. */
  lemma PaddedGet(b: Bitmap, p: nat, x: int, y: int)
    requires b.Valid() && 0 <= x + p < b.w + 2 * p && 0 <= y + p < b.h + 2 * p
    ensures Padded(b, p)[y + p][x + p] == Get(b, x, y)
  {
    var row := Padded(b, p)[y + p];
    if 0 <= y < b.h {
      assert row == PadRow(b.rows[y], b.w, p);
    } else {
      assert row == Blank(b.w + 2 * p);
    }
  }

  /** Indexing as Python has it: a negative index counts from the end. */
  function Wrapped<T>(s: seq<T>, i: int): (r: T)
    requires -|s| <= i < |s|
    ensures r in s
  {
    if i < 0 then s[|s| + i] else s[i]
  }

  /** So a pixel up to a padding before the padding is one of the blank pixels at the other end. */
  lemma PaddedWrapped(b: Bitmap, p: nat, x: int, y: int)
    requires b.Valid() && 0 <= x + 2 * p && x < b.w + p && 0 <= y + 2 * p && y < b.h + p
    ensures Wrapped(Wrapped(Padded(b, p), y + p), x + p) == Get(b, x, y)
  {
    var pad, row := Padded(b, p), Wrapped(Padded(b, p), y + p);
    if 0 <= x + p && 0 <= y + p {
      PaddedGet(b, p, x, y);
    } else if y + p < 0 {
      assert row == pad[b.h + 2 * p + (y + p)] == Blank(b.w + 2 * p);
    } else {
      hide Get;
      PaddedGet(b, p, x + b.w + 2 * p, y);
      assert Get(b, x, y) == Get(b, x + b.w + 2 * p, y) == 0 by {
        NotInside(b, x, y);
        NotInside(b, x + b.w + 2 * p, y);
      }
    }
  }

  lemma NotInside(b: Bitmap, x: int, y: int)
    requires b.Valid() && !(0 <= x < b.w)
    ensures Get(b, x, y) == 0
  {
  }

  function Xor(a: Bit, b: Bit): Bit {
    if a == b then 0 else 1
  }

  function Flag(b: bool): Bit {
    if b then 1 else 0
  }

  // ---- What a decoder knows -------------------------------------------------------------------

  /** A pixel of a bitmap of which `done` and, of the next row, `cur` are decoded. */
  function Known(w: nat, done: seq<Row>, cur: Row, x: int, y: int): Bit
    requires forall row <- done :: |row| == w
  {
    if 0 <= y < |done| && 0 <= x < w then done[y][x]
    else if y == |done| && 0 <= x < |cur| then cur[x]
    else 0
  }

  /** A pixel before (0, 0) in the order of decoding. */
  predicate Causal(dx: int, dy: int) {
    dy < 0 || (dy == 0 && dx < 0)
  }

  /** Decoded rows never change, so a causal pixel is known as it will be. */
  lemma CausalKnown(b: Bitmap, x: nat, y: nat, dx: int, dy: int)
    requires b.Valid() && x < b.w && y < b.h && Causal(dx, dy)
    ensures Known(b.w, b.rows[..y], b.rows[y][..x], x + dx, y + dy) == Get(b, x + dx, y + dy)
  {
  }
}
