/**
 Numbers as bits, the most significant first, and the byte list they are packed into
 (tools/pdf-make-jbig2-tests.py, `Bits`).
 */
module BitStrings {
  import opened ByteTypes
  import opened Powers

  /** The low `n` bits of `v`, the highest first. */
  function BitsOf(v: nat, n: nat): (bits: seq<Bit>)
    ensures |bits| == n
  {
    if n == 0 then [] else [v / Pow2(n - 1) % 2] + BitsOf(v, n - 1)
  }

  /** `acc` with the bits appended. */
  function Append(acc: nat, bits: seq<Bit>): nat
    decreases |bits|
  {
    if bits == [] then acc else Append(2 * acc + bits[0], bits[1..])
  }

  /** The low bits of `v`: its bit n - 1, then the bits below. */
  lemma LowBits(v: nat, n: nat)
    requires n > 0
    ensures v % Pow2(n) == v / Pow2(n - 1) % 2 * Pow2(n - 1) + v % Pow2(n - 1)
  {
    var p := Pow2(n - 1);
    assert Pow2(n) == 2 * p;
    hide Pow2;
    DividesInto(v, p);
    var d, r := v / p, v % p;
    QuotientNonNegative(v, p);
    DividesInto(d, 2);
    var q, b := d / 2, d % 2;
    assert v == (q * 2 + b) * p + r;
    MulDistribute(q * 2, b, p);
    MulRegroup(q, 2, p);
    MulLess(b, 1, p);
    MulLess(0, b + 1, p);
    var low := b * p + r;
    assert 0 <= low < 2 * p && v == q * (2 * p) + low;
    DivModUnique(v, q, low, 2 * p);
  }

  lemma DividesInto(x: nat, u: nat)
    requires u > 0
    ensures x == x / u * u + x % u && 0 <= x % u < u
  {
  }

  /** Appending the low bits of `v` appends `v`, cut to those bits. */
  lemma {:induction false} AppendBits(acc: nat, v: nat, n: nat)
    ensures Append(acc, BitsOf(v, n)) == acc * Pow2(n) + v % Pow2(n)
    decreases n
  {
    if n > 0 {
      var p := Pow2(n - 1);
      var b: Bit := v / p % 2;
      AppendBits(2 * acc + b, v, n - 1);
      assert BitsOf(v, n)[0] == b && BitsOf(v, n)[1..] == BitsOf(v, n - 1);
      LowBits(v, n);
      MulDistribute(2 * acc, b, p);
      MulRegroup(acc, 2, p);
    }
  }

  lemma {:induction false} AppendLast(acc: nat, bits: seq<Bit>, b: Bit)
    ensures Append(acc, bits + [b]) == 2 * Append(acc, bits) + b
    decreases |bits|
  {
    if bits == [] {
      assert bits + [b] == [b] && [b][1..] == [];
    } else {
      assert (bits + [b])[1..] == bits[1..] + [b];
      AppendLast(2 * acc + bits[0], bits[1..], b);
    }
  }

  lemma {:induction false} AppendConcat(acc: nat, a: seq<Bit>, b: seq<Bit>)
    ensures Append(acc, a + b) == Append(Append(acc, a), b)
    decreases |a|
  {
    if a == [] {
      assert a + b == b;
    } else {
      assert (a + b)[1..] == a[1..] + b;
      AppendConcat(2 * acc + a[0], a[1..], b);
    }
  }

  /** What stands before the bits, shifted, and the number the bits are. */
  lemma {:induction false} AppendFrom(acc: nat, bits: seq<Bit>)
    ensures Append(acc, bits) == acc * Pow2(|bits|) + Append(0, bits)
    decreases |bits|
  {
    if bits != [] {
      var p, b := Pow2(|bits| - 1), bits[0];
      AppendFrom(2 * acc + b, bits[1..]);
      AppendFrom(b, bits[1..]);
      MulDistribute(2 * acc, b, p);
      MulRegroup(acc, 2, p);
    }
  }

  lemma {:induction false} AppendBelow(bits: seq<Bit>)
    ensures Append(0, bits) < Pow2(|bits|)
    decreases |bits|
  {
    if bits != [] {
      AppendBelow(bits[1..]);
      AppendFrom(bits[0], bits[1..]);
      MulLess(bits[0], 1, Pow2(|bits| - 1));
    }
  }

  /** A number's bits are its highest bit and the bits below. */
  lemma BitsFirst(v: nat, n: nat)
    requires n > 0
    ensures BitsOf(v, n) == [v / Pow2(n - 1) % 2] + BitsOf(v, n - 1) && Pow2(n) == 2 * Pow2(n - 1)
  {
  }

  lemma DoubleOver(v: nat, b: Bit, p: nat)
    requires p > 0
    ensures (2 * v + b) / (2 * p) == v / p
  {
    assert v == v / p * p + v % p;
    MulRegroup(v / p, p, 2);
    DivModUnique(2 * v + b, v / p, 2 * (v % p) + b, 2 * p);
  }

  /** A number's bits with one more put after them. */
  lemma {:induction false} BitsShifted(v: nat, n: nat, b: Bit)
    ensures BitsOf(2 * v + b, n + 1) == BitsOf(v, n) + [b]
  {
    hide BitsOf, Pow2;
    BitsFirst(2 * v + b, n + 1);
    if n == 0 {
      NoBits(v);
      NoBits(2 * v + b);
    } else {
      BitsFirst(v, n);
      BitsShifted(v, n - 1, b);
      DoubleOver(v, b, Pow2(n - 1));
    }
  }

  lemma NoBits(v: nat)
    ensures BitsOf(v, 0) == [] && Pow2(0) == 1
  {
  }

  function Zeros(k: nat): seq<Bit> {
    seq(k, _ => 0)
  }

  /** A list of bytes as bits. */
  function BytesBits(b: seq<Byte>): seq<Bit> {
    if b == [] then [] else BytesBits(b[..|b| - 1]) + BitsOf(b[|b| - 1], 8)
  }

  lemma OneBitMore(b: seq<Byte>, acc: nat, n: nat, bit: Bit)
    requires n < 8 && acc < Pow2(n)
    ensures 2 * acc + bit < Pow2(n + 1) && (n == 7 ==> 2 * acc + bit < 0x100)
    ensures BytesBits(b) + BitsOf(2 * acc + bit, n + 1) == BytesBits(b) + BitsOf(acc, n) + [bit]
  {
    assert Pow2(n + 1) == 2 * Pow2(n);
    Pow2Small();
    hide BytesBits, BitsOf, Pow2;
    BitsShifted(acc, n, bit);
  }

  lemma ByteDone(b: seq<Byte>, x: Byte)
    ensures 0 < Pow2(0) && BytesBits(b + [x]) + BitsOf(0, 0) == BytesBits(b) + BitsOf(x, 8)
  {
    assert (b + [x])[..|b|] == b;
    NoBits(0);
    hide BitsOf, Pow2;
  }

  /** Whole bytes, and up to seven bits on the way to the next. */
  class Bits {
    var b: seq<Byte>
    var acc: nat
    var n: nat

    predicate Valid()
      reads this
    {
      n < 8 && acc < Pow2(n)
    }

    function Stream(): seq<Bit>
      reads this
    {
      BytesBits(b) + BitsOf(acc, n)
    }

    constructor ()
      ensures Valid() && Stream() == []
    {
      b, acc, n := [], 0, 0;
    }

    method PutBit(bit: Bit)
      requires Valid()
      modifies this
      ensures Valid() && Stream() == old(Stream()) + [bit] && n == (old(n) + 1) % 8
    {
      hide BytesBits, BitsOf, Pow2;
      OneBitMore(b, acc, n, bit);
      acc := 2 * acc + bit;
      n := n + 1;
      if n == 8 {
        ByteDone(b, acc);
        b := b + [acc];
        acc, n := 0, 0;
      }
    }

    method Put(v: nat, count: nat)
      requires Valid()
      modifies this
      ensures Valid() && Stream() == old(Stream()) + BitsOf(v, count)
    {
      hide BitsOf, Valid, Stream;
      var k := count;
      ghost var goal := Stream() + BitsOf(v, count);
      while k > 0
        invariant Valid() && Stream() + BitsOf(v, k) == goal
      {
        BitsFirst(v, k);
        k := k - 1;
        PutBit(v / Pow2(k) % 2);
      }
      NoBits(v);
    }

    /** Zero bits up to the next whole byte. */
    method Align()
      requires Valid()
      modifies this
      ensures Valid() && n == 0
      ensures Stream() == old(Stream()) + Zeros((8 - old(n)) % 8)
    {
      hide Stream, Pow2;
      ghost var k := 0;
      assert Stream() == Stream() + Zeros(0);
      while n > 0
        invariant Valid() && Stream() == old(Stream()) + Zeros(k)
        invariant old(n) == 0 ==> k == 0
        invariant if old(n) + k < 8 then n == old(n) + k else n == 0 && old(n) + k == 8
        decreases 8 - old(n) - k
      {
        assert Zeros(k) + [0] == Zeros(k + 1);
        PutBit(0);
        k := k + 1;
      }
      assert k == (8 - old(n)) % 8;
    }
  }
}
