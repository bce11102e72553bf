/**
 Values coded with a Huffman table, ITU-T T.88 Annex B (tools/pdf-make-jbig2-tests.py, `Huff.put`), and the decoding
 procedure of section B.4.
 */
module HuffmanTables {
  import opened Wrappers
  import opened ByteTypes
  import opened Powers
  import opened BitStrings
  import opened CanonicalCodes

  datatype Kind = Normal | Lower | Upper | OutOfBand

  /** A table line: the range from `low` (to `low`, for a lower range), its prefix length, its range length. */
  datatype Line = Line(low: int, plen: nat, rlen: nat, kind: Kind)

  function Lengths(lines: seq<Line>): (lens: seq<nat>)
    ensures |lens| == |lines|
  {
    seq(|lines|, i requires 0 <= i < |lines| => lines[i].plen)
  }

  /** Whether a line codes the value; None is out-of-band. */
  predicate Hits(line: Line, v: Option<int>) {
    line.plen > 0 &&
    match v
    case None => line.kind == OutOfBand
    case Some(n) =>
      match line.kind
      case Normal => line.low <= n < line.low + Pow2(line.rlen)
      case Lower => n <= line.low
      case Upper => n >= line.low
      case OutOfBand => false
  }

  function FirstHit(lines: seq<Line>, v: Option<int>, i: nat): (r: Option<nat>)
    requires i <= |lines|
    ensures r.Some? ==> r.value < |lines| && Hits(lines[r.value], v)
    decreases |lines| - i
  {
    if i == |lines| then None else if Hits(lines[i], v) then Some(i) else FirstHit(lines, v, i + 1)
  }

  function Offset(line: Line, v: Option<int>): nat
    requires Hits(line, v)
  {
    match v
    case None => 0
    case Some(n) => if line.kind == Lower then line.low - n else n - line.low
  }

  /** The bits of a value, if the table has a line for it. */
  function ValueBits(lines: seq<Line>, v: Option<int>): Option<seq<Bit>> {
    match FirstHit(lines, v, 0)
    case None => None
    case Some(i) =>
      var prefix := BitsOf(Code(Lengths(lines), i), lines[i].plen);
      Some(if lines[i].kind == OutOfBand then prefix else prefix + BitsOf(Offset(lines[i], v), lines[i].rlen))
  }

  /** The codes of the table are put in order of the lines; the first line that hits is used. */
  method PutValue(lines: seq<Line>, codes: seq<nat>, longest: nat, bw: Bits, v: Option<int>) returns (found: bool)
    requires bw.Valid() && Longest(Lengths(lines), longest) && Assigned(Lengths(lines), codes, longest)
    modifies bw
    ensures bw.Valid() && found == ValueBits(lines, v).Some?
    ensures bw.Stream() == old(bw.Stream()) + if found then ValueBits(lines, v).value else []
  {
    hide bw.Stream, bw.Valid, BitsOf, Pow2, Code;
    for i := 0 to |lines|
      invariant FirstHit(lines, v, i) == FirstHit(lines, v, 0) && bw.Valid() && bw.Stream() == old(bw.Stream())
    {
      if Hits(lines[i], v) {
        assert Lengths(lines)[i] == lines[i].plen;
        bw.Put(codes[i], lines[i].plen);
        if lines[i].kind != OutOfBand {
          bw.Put(Offset(lines[i], v), lines[i].rlen);
        }
        return true;
      }
    }
    return false;
  }

  // ---- Decoding (B.4) -------------------------------------------------------------------------

  function FindCode(lens: seq<nat>, len: nat, acc: nat, i: nat): (r: Option<nat>)
    requires i <= |lens|
    ensures r.Some? ==> r.value < |lens| && lens[r.value] == len > 0 && Code(lens, r.value) == acc
    ensures r.None? ==> forall j :: i <= j < |lens| && lens[j] == len > 0 ==> Code(lens, j) != acc
    decreases |lens| - i
  {
    if i == |lens| then None
    else if lens[i] == len > 0 && Code(lens, i) == acc then Some(i)
    else FindCode(lens, len, acc, i + 1)
  }

  /** Bits are read one at a time until they are a code. */
  function ReadCode(lens: seq<nat>, bits: seq<Bit>, acc: nat, len: nat): (r: Option<(nat, seq<Bit>)>)
    ensures r.Some? ==> r.value.0 < |lens|
    decreases |bits|
  {
    match FindCode(lens, len, acc, 0)
    case Some(i) => Some((i, bits))
    case None => if bits == [] then None else ReadCode(lens, bits[1..], 2 * acc + bits[0], len + 1)
  }

  function ReadValue(lines: seq<Line>, bits: seq<Bit>): Option<(Option<int>, seq<Bit>)> {
    match ReadCode(Lengths(lines), bits, 0, 0)
    case None => None
    case Some((i, rest)) =>
      var line := lines[i];
      if line.kind == OutOfBand then Some((None, rest))
      else if |rest| < line.rlen then None
      else
        var offset := Append(0, rest[..line.rlen]);
        Some((Some(if line.kind == Lower then line.low - offset else line.low + offset), rest[line.rlen..]))
  }

  // ---- The round trip -------------------------------------------------------------------------

  /** Lengths whose codes can be told apart. */
  ghost predicate Decodable(lens: seq<nat>) {
    exists m :: Longest(lens, m) && Kraft(lens, m) <= Pow2(m)
  }

  lemma {:induction false} ReadCodeBack(lens: seq<nat>, m: nat, i: nat, k: nat, rest: seq<Bit>)
    requires i < |lens| && Longest(lens, m) && Kraft(lens, m) <= Pow2(m) && 0 <= k <= lens[i] && lens[i] > 0
    ensures ReadCode(lens, BitsOf(Code(lens, i), k) + rest, ShiftRight(Code(lens, i), k), lens[i] - k) == Some((i, rest))
    decreases k
  {
    hide Code, Pow2, Kraft, BitsOf;
    var code, len := Code(lens, i), lens[i] - k;
    var acc := ShiftRight(code, k);
    var found := FindCode(lens, len, acc, 0);
    if found.Some? && found.value != i {
      var j := found.value;
      PrefixFree(lens, m, j, i);
    }
    if k == 0 {
      NoBits(code);
      assert code / 1 == code && [] + rest == rest;
    } else {
      BitsFirst(code, k);
      HalfOf(code, Pow2(k - 1));
      var bits := BitsOf(code, k) + rest;
      assert bits[1..] == BitsOf(code, k - 1) + rest;
      ReadCodeBack(lens, m, i, k - 1, rest);
    }
  }

  lemma HalfUnique(x: nat, h: int, b: int, r: int, p: nat)
    requires p > 0 && 0 <= b < 2 && 0 <= r < p && x == (2 * h + b) * p + r
    ensures x / (2 * p) == h
  {
    MulDistribute(2 * h, b, p);
    MulRegroup(2, h, p);
    MulLess(b, 1, p);
    DivModUnique(x, h, b * p + r, 2 * p);
  }

  lemma HalfOf(x: nat, p: nat)
    requires p > 0
    ensures x / p == 2 * (x / (2 * p)) + x / p % 2
  {
    var q := x / p;
    assert x == q * p + x % p && q == q / 2 * 2 + q % 2;
    HalfUnique(x, q / 2, q % 2, x % p, p);
  }

  /** A code, whatever follows it, is read back as its line. */
  lemma ReadWholeCode(lens: seq<nat>, i: nat, rest: seq<Bit>)
    requires i < |lens| && lens[i] > 0 && Decodable(lens)
    ensures ReadCode(lens, BitsOf(Code(lens, i), lens[i]) + rest, 0, 0) == Some((i, rest))
  {
    var m :| Longest(lens, m) && Kraft(lens, m) <= Pow2(m);
    CodeFits(lens, m, i);
    DivModUnique(Code(lens, i), 0, Code(lens, i), Pow2(lens[i]));
    ReadCodeBack(lens, m, i, lens[i], rest);
  }

  /** A value whose offset fits in the line's range length is what the decoder reads. */
  lemma ReadValueBack(lines: seq<Line>, v: Option<int>, rest: seq<Bit>)
    requires Decodable(Lengths(lines)) && ValueBits(lines, v).Some?
    ensures var line := lines[FirstHit(lines, v, 0).value];
            var read := ReadValue(lines, ValueBits(lines, v).value + rest);
            read.Some? && read.value.1 == rest
            && (read.value.0 == v <==> v == None || Offset(line, v) < Pow2(line.rlen))
            && (line.kind == Normal ==> read.value.0 == v)
  {
    hide Decodable, Code, ReadCode, BitsOf, Append, Pow2;
    var i := FirstHit(lines, v, 0).value;
    var line := lines[i];
    var prefix, offset := BitsOf(Code(Lengths(lines), i), line.plen), BitsOf(Offset(line, v), line.rlen);
    assert Lengths(lines)[i] == line.plen;
    if line.kind == OutOfBand {
      ReadWholeCode(Lengths(lines), i, rest);
    } else {
      assert (prefix + offset) + rest == prefix + (offset + rest);
      ReadWholeCode(Lengths(lines), i, offset + rest);
      assert (offset + rest)[..line.rlen] == offset && (offset + rest)[line.rlen..] == rest;
      AppendBits(0, Offset(line, v), line.rlen);
      if Offset(line, v) < Pow2(line.rlen) {
        DivModUnique(Offset(line, v), 0, Offset(line, v), Pow2(line.rlen));
      }
    }
  }
}
