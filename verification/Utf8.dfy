/**
 UTF-8 by the Unicode Standard: the bytes of a scalar value, and which byte sequences are well-formed (table 3-7),
 independent of any decoder. `append_utf8` and `code_point_at`, which src/bindings/Binary.cpp uses, have this meaning.
 */
module Utf8 {
  import opened ByteTypes

  type Unit = u: int | 0 <= u < 0x1_0000

  predicate IsSurrogate(c: nat) { 0xD800 <= c <= 0xDFFF }

  predicate IsScalar(c: nat) { c <= 0x10FFFF && !IsSurrogate(c) }

  type Scalar = c: nat | c <= 0x10FFFF && !(0xD800 <= c <= 0xDFFF) witness 0

  /** A byte that carries six bits. */
  function Trail(x: nat): Byte { 0x80 + x % 0x40 }

  /** A number in sixes of bits. */
  lemma SixBits(c: nat)
    ensures var c1, c2, c3 := c / 0x40, c / 0x40 / 0x40, c / 0x40 / 0x40 / 0x40;
            && c == c1 * 0x40 + c % 0x40 && c1 == c2 * 0x40 + c1 % 0x40 && c2 == c3 * 0x40 + c2 % 0x40
            && c2 * 0x1000 <= c < (c2 + 1) * 0x1000 && c3 * 0x4_0000 <= c < (c3 + 1) * 0x4_0000
  {
  }

  /** The bytes of a scalar value (table 3-6). */
  function Bytes(c: Scalar): seq<Byte> {
    var c1: nat := c / 0x40;
    var c2: nat := c1 / 0x40;
    var c3: nat := c2 / 0x40;
    SixBits(c);
    if c < 0x80 then [c]
    else if c < 0x800 then [0xC0 + c1, Trail(c)]
    else if c < 0x1_0000 then [0xE0 + c2, Trail(c1), Trail(c)]
    else
      assert c3 <= 4;
      [0xF0 + c3, Trail(c2), Trail(c1), Trail(c)]
  }

  /** How many bytes a sequence with this first byte has; 0 if none starts so. */
  function Length(lead: Byte): nat {
    if lead < 0x80 then 1
    else if 0xC2 <= lead <= 0xDF then 2
    else if 0xE0 <= lead <= 0xEF then 3
    else if 0xF0 <= lead <= 0xF4 then 4
    else 0
  }

  /** Which second bytes may follow a first byte (table 3-7). */
  predicate SecondOk(lead: Byte, b: Byte) {
    var low := if lead == 0xE0 then 0xA0 else if lead == 0xF0 then 0x90 else 0x80;
    var high := if lead == 0xED then 0x9F else if lead == 0xF4 then 0x8F else 0xBF;
    low <= b <= high
  }

  /** The start of a well-formed sequence, or all of it. */
  predicate Starts(s: seq<Byte>) {
    && s != [] && |s| <= Length(s[0])
    && (|s| > 1 ==> SecondOk(s[0], s[1]))
    && forall i :: 2 <= i < |s| ==> 0x80 <= s[i] <= 0xBF
  }

  predicate WellFormed(s: seq<Byte>) {
    Starts(s) && |s| == Length(s[0])
  }

  /** The bits of a first byte. */
  function LeadBits(lead: Byte): nat {
    if lead < 0x80 then lead else if lead < 0xE0 then lead % 0x20 else if lead < 0xF0 then lead % 0x10 else lead % 0x08
  }

  /** Six bits more. */
  function Push(x: nat, b: Byte): nat { x * 0x40 + b % 0x40 }

  /** The bits of the sequence so far. */
  function Bits(s: seq<Byte>): nat
    requires s != []
  {
    if |s| == 1 then LeadBits(s[0]) else Push(Bits(s[..|s| - 1]), s[|s| - 1])
  }

  lemma BitsOfFew(a: Byte, b: Byte, c: Byte, d: Byte)
    ensures Bits([a]) == LeadBits(a) && Bits([a, b]) == Push(LeadBits(a), b)
    ensures Bits([a, b, c]) == Push(Push(LeadBits(a), b), c)
    ensures Bits([a, b, c, d]) == Push(Push(Push(LeadBits(a), b), c), d)
  {
    assert [a, b][..1] == [a] && [a, b, c][..2] == [a, b] && [a, b, c, d][..3] == [a, b, c];
  }

  lemma TrailBack(x: nat)
    ensures Push(x / 0x40, Trail(x)) == x
  {
    assert Trail(x) % 0x40 == x % 0x40;
  }

  /** The bytes of a scalar value are well-formed, and their value is the scalar value. */
  lemma BytesWellFormed(c: Scalar)
    ensures WellFormed(Bytes(c)) && Bits(Bytes(c)) == c
  {
    if c < 0x80 {
      BitsOfFew(c, 0, 0, 0);
    } else if c < 0x800 {
      TwoBack(c);
    } else if c < 0x1_0000 {
      ThreeBack(c);
    } else {
      FourBack(c);
    }
  }

  lemma TwoBack(c: Scalar)
    requires 0x80 <= c < 0x800
    ensures WellFormed(Bytes(c)) && Bits(Bytes(c)) == c
  {
    SixBits(c);
    TrailBack(c);
    hide Push, Bits;
    BitsOfFew(0xC0 + c / 0x40, Trail(c), 0, 0);
  }

  /** The second byte of three: not too small, and no surrogate's. */
  lemma SecondOfThree(c: Scalar)
    requires 0x800 <= c < 0x1_0000
    ensures c / 0x40 / 0x40 < 0x10 && SecondOk(0xE0 + c / 0x40 / 0x40, Trail(c / 0x40))
  {
    SixBits(c);
    var c1: nat := c / 0x40;
    assert Trail(c1) == 0x80 + c1 % 0x40;
    hide Trail;
  }

  lemma ThreeBack(c: Scalar)
    requires 0x800 <= c < 0x1_0000
    ensures WellFormed(Bytes(c)) && Bits(Bytes(c)) == c
  {
    var c1: nat := c / 0x40;
    var c2: nat := c1 / 0x40;
    SecondOfThree(c);
    assert Bytes(c) == [0xE0 + c2, Trail(c1), Trail(c)];
    assert LeadBits(0xE0 + c2) == c2 && Length(0xE0 + c2) == 3 && 0x80 <= Trail(c) <= 0xBF;
    hide *;
    TrailBack(c);
    TrailBack(c1);
    BitsOfFew(0xE0 + c2, Trail(c1), Trail(c), 0);
    ThreeFormed(0xE0 + c2, Trail(c1), Trail(c));
  }

  /** The second byte of four: not too small, and nothing above 0x10FFFF. */
  lemma SecondOfFour(c: Scalar)
    requires 0x1_0000 <= c
    ensures c / 0x40 / 0x40 / 0x40 <= 4 && SecondOk(0xF0 + c / 0x40 / 0x40 / 0x40, Trail(c / 0x40 / 0x40))
  {
    SixBits(c);
    var c2: nat := c / 0x40 / 0x40;
    assert Trail(c2) == 0x80 + c2 % 0x40;
    hide Trail;
  }

  lemma FourBack(c: Scalar)
    requires 0x1_0000 <= c
    ensures WellFormed(Bytes(c)) && Bits(Bytes(c)) == c
  {
    var c1: nat := c / 0x40;
    var c2: nat := c1 / 0x40;
    var c3: nat := c2 / 0x40;
    SecondOfFour(c);
    assert Bytes(c) == [0xF0 + c3, Trail(c2), Trail(c1), Trail(c)];
    assert LeadBits(0xF0 + c3) == c3 && Length(0xF0 + c3) == 4;
    assert 0x80 <= Trail(c) <= 0xBF && 0x80 <= Trail(c1) <= 0xBF;
    hide *;
    TrailBack(c);
    TrailBack(c1);
    TrailBack(c2);
    BitsOfFew(0xF0 + c3, Trail(c2), Trail(c1), Trail(c));
    FourFormed(0xF0 + c3, Trail(c2), Trail(c1), Trail(c));
  }

  lemma ThreeFormed(a: Byte, b: Byte, c: Byte)
    ensures WellFormed([a, b, c]) <==> Length(a) == 3 && SecondOk(a, b) && 0x80 <= c <= 0xBF
  {
    var s := [a, b, c];
    assert s[2] == c;
  }

  lemma FourFormed(a: Byte, b: Byte, c: Byte, d: Byte)
    ensures WellFormed([a, b, c, d]) <==> Length(a) == 4 && SecondOk(a, b) && 0x80 <= c <= 0xBF && 0x80 <= d <= 0xBF
  {
    var s := [a, b, c, d];
    assert s[2] == c && s[3] == d;
  }

  lemma PushBack(x: nat, b: Byte)
    requires 0x80 <= b <= 0xBF
    ensures Push(x, b) / 0x40 == x && Trail(Push(x, b)) == b && Push(x, b) == x * 0x40 + (b - 0x80)
  {
  }

  lemma BytesAre(v: nat)
    requires IsScalar(v)
    ensures 0x80 <= v < 0x800 ==> v / 0x40 < 0x20 && Bytes(v) == [0xC0 + v / 0x40, Trail(v)]
    ensures 0x800 <= v < 0x1_0000 ==> v / 0x40 / 0x40 < 0x10 && Bytes(v) == [0xE0 + v / 0x40 / 0x40, Trail(v / 0x40), Trail(v)]
    ensures v >= 0x1_0000 ==> v / 0x40 / 0x40 / 0x40 <= 4
                              && Bytes(v) == [0xF0 + v / 0x40 / 0x40 / 0x40, Trail(v / 0x40 / 0x40), Trail(v / 0x40), Trail(v)]
  {
    SixBits(v);
    hide Trail;
  }

  lemma LeadIs(a: Byte)
    ensures Length(a) == 2 ==> a == 0xC0 + LeadBits(a) && 2 <= LeadBits(a) < 0x20
    ensures Length(a) == 3 ==> a == 0xE0 + LeadBits(a) && LeadBits(a) < 0x10
    ensures Length(a) == 4 ==> a == 0xF0 + LeadBits(a) && LeadBits(a) <= 4
  {
  }

  lemma TwoFormed(a: Byte, b: Byte)
    ensures WellFormed([a, b]) <==> Length(a) == 2 && SecondOk(a, b)
  {
    var s := [a, b];
    assert s[1] == b;
  }

  lemma SecondIs(a: Byte, b: Byte)
    requires SecondOk(a, b)
    ensures 0x80 <= b <= 0xBF
    ensures a == 0xE0 ==> b >= 0xA0
    ensures a == 0xF0 ==> b >= 0x90
    ensures a == 0xED ==> b <= 0x9F
    ensures a == 0xF4 ==> b <= 0x8F
  {
  }

  lemma TwoBytes(a: Byte, b: Byte)
    requires WellFormed([a, b])
    ensures var v := Push(LeadBits(a), b); IsScalar(v) && Bytes(v) == [a, b]
  {
    hide Push, LeadBits, WellFormed, Length, SecondOk, Bytes, Trail;
    TwoFormed(a, b);
    LeadIs(a);
    SecondIs(a, b);
    PushBack(LeadBits(a), b);
    BytesAre(Push(LeadBits(a), b));
  }

  lemma ThreeBytes(a: Byte, b: Byte, c: Byte)
    requires WellFormed([a, b, c])
    ensures var v := Push(Push(LeadBits(a), b), c); IsScalar(v) && Bytes(v) == [a, b, c]
  {
    hide Push, LeadBits, WellFormed, Length, SecondOk, Bytes, Trail;
    ThreeFormed(a, b, c);
    LeadIs(a);
    SecondIs(a, b);
    PushBack(LeadBits(a), b);
    PushBack(Push(LeadBits(a), b), c);
    BytesAre(Push(Push(LeadBits(a), b), c));
  }

  lemma FourBytes(a: Byte, b: Byte, c: Byte, d: Byte)
    requires WellFormed([a, b, c, d])
    ensures var v := Push(Push(Push(LeadBits(a), b), c), d); IsScalar(v) && Bytes(v) == [a, b, c, d]
  {
    hide Push, LeadBits, WellFormed, Length, SecondOk, Bytes, Trail;
    FourFormed(a, b, c, d);
    LeadIs(a);
    SecondIs(a, b);
    PushBack(LeadBits(a), b);
    PushBack(Push(LeadBits(a), b), c);
    PushBack(Push(Push(LeadBits(a), b), c), d);
    BytesAre(Push(Push(Push(LeadBits(a), b), c), d));
  }

  /**
   The value of a well-formed sequence is a scalar value, no surrogate and nothing above 0x10FFFF, and the sequence
   is its bytes: table 3-7 lists what table 3-6 makes, and nothing else.
   */
  lemma WellFormedBytes(s: seq<Byte>)
    requires WellFormed(s)
    ensures IsScalar(Bits(s)) && Bytes(Bits(s)) == s
  {
    hide Push, Bits, Bytes, LeadBits;
    if |s| == 1 {
      OneByte(s);
    } else if |s| == 2 {
      assert s == [s[0], s[1]];
      BitsOfFew(s[0], s[1], 0, 0);
      TwoBytes(s[0], s[1]);
    } else if |s| == 3 {
      assert s == [s[0], s[1], s[2]];
      BitsOfFew(s[0], s[1], s[2], 0);
      ThreeBytes(s[0], s[1], s[2]);
    } else {
      assert s == [s[0], s[1], s[2], s[3]];
      BitsOfFew(s[0], s[1], s[2], s[3]);
      FourBytes(s[0], s[1], s[2], s[3]);
    }
  }

  lemma OneByte(s: seq<Byte>)
    requires WellFormed(s) && |s| == 1
    ensures IsScalar(Bits(s)) && Bytes(Bits(s)) == s
  {
  }
}
