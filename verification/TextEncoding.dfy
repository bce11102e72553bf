/**
 The UTF-8 encoder and encodeInto (src/bindings/Binary.cpp), and the round trip: what encode writes, decode reads back,
 but for lone surrogates.
 */
module TextEncoding {
  import opened Wrappers
  import opened ByteTypes
  import opened Utf8
  import opened TextItems
  import opened Utf8Exact
  import opened Utf16Exact
  import opened TextDecoding

  /** Whether a pair stands at i; what `code_point_at` looks for. */
  predicate PairAt(text: seq<Unit>, i: nat) {
    i + 1 < |text| && IsHigh(text[i]) && IsLow(text[i + 1])
  }

  /** The first code point of a text and how many units it takes, a lone surrogate replaced. */
  function Point(text: seq<Unit>): Scalar
    requires text != []
  {
    if PairAt(text, 0) then Pair(text[0], text[1]) else if IsSurrogate(text[0]) then 0xFFFD else text[0]
  }

  function Width(text: seq<Unit>): (n: nat)
    requires text != []
    ensures 1 <= n <= |text|
  {
    if PairAt(text, 0) then 2 else 1
  }

  /** The code points of a text. */
  function Points(text: seq<Unit>): seq<Scalar>
    decreases |text|
  {
    if text == [] then [] else [Point(text)] + Points(text[Width(text)..])
  }

  /** The units of code points. */
  function UnitsOf(cs: seq<Scalar>): seq<Unit>
    decreases |cs|
  {
    if cs == [] then [] else Units(cs[0]) + UnitsOf(cs[1..])
  }

  /** A surrogate with no partner beside it. */
  predicate LoneAt(text: seq<Unit>, i: nat)
    requires i < |text|
  {
    IsSurrogate(text[i]) && !PairAt(text, i) && !(i > 0 && PairAt(text, i - 1))
  }

  /** The text with each lone surrogate replaced, unit by unit. */
  function Scrubbed(text: seq<Unit>): (r: seq<Unit>)
    ensures |r| == |text|
  {
    seq(|text|, i requires 0 <= i < |text| => if LoneAt(text, i) then 0xFFFD else text[i])
  }

  lemma PointUnits(text: seq<Unit>)
    requires text != []
    ensures Units(Point(text)) == Scrubbed(text)[..Width(text)]
  {
    hide Pair;
    if PairAt(text, 0) {
      UnitsOfPair(text[0], text[1]);
      assert Scrubbed(text)[..2] == [text[0], text[1]];
    } else {
      UnitsOfOne(Point(text));
      assert Scrubbed(text)[..1] == [Point(text)];
    }
  }

  lemma ScrubbedRest(text: seq<Unit>)
    requires text != []
    ensures Scrubbed(text)[Width(text)..] == Scrubbed(text[Width(text)..])
  {
    var n := Width(text);
    forall i | n <= i < |text|
      ensures LoneAt(text, i) == LoneAt(text[n..], i - n)
    {
      assert text[n..][i - n] == text[i];
    }
  }

  /** The code points of a text are its units, but for the lone surrogates. */
  lemma {:induction false} PointsUnits(text: seq<Unit>)
    ensures UnitsOf(Points(text)) == Scrubbed(text)
    decreases |text|
  {
    if text != [] {
      hide *;
      var n := Width(text);
      PointUnits(text);
      ScrubbedRest(text);
      PointsUnits(text[n..]);
      UnitsFirst(text);
      var all := Scrubbed(text);
      assert all == all[..n] + all[n..];
    }
  }

  lemma UnitsFirst(text: seq<Unit>)
    requires text != []
    ensures UnitsOf(Points(text)) == Units(Point(text)) + UnitsOf(Points(text[Width(text)..]))
  {
    hide Point, Units;
    assert Points(text)[1..] == Points(text[Width(text)..]);
  }

  /** `encode_utf8`, and TextEncoder.encode. */
  method EncodeUtf8(text: seq<Unit>) returns (out: seq<Byte>)
    ensures out == EncodeAll(Points(text))
  {
    hide Point, Width, Bytes;
    out := [];
    var i := 0;
    assert text[0..] == text;
    while i < |text|
      invariant 0 <= i <= |text|
      invariant EncodeAll(Points(text)) == out + EncodeAll(Points(text[i..]))
    {
      PointFirst(text[i..]);
      assert text[i..][Width(text[i..])..] == text[i + Width(text[i..])..];
      out := out + Bytes(Point(text[i..]));
      i := i + Width(text[i..]);
    }
    assert text[i..] == [];
  }

  lemma PointFirst(text: seq<Unit>)
    requires text != []
    ensures Points(text) == [Point(text)] + Points(text[Width(text)..])
    ensures EncodeAll(Points(text)) == Bytes(Point(text)) + EncodeAll(Points(text[Width(text)..]))
  {
    hide Point, Bytes;
    assert Points(text)[1..] == Points(text[Width(text)..]);
  }

  /** The items of a scalar text, as units. */
  lemma {:induction false} GoodUnits(cs: seq<Scalar>)
    ensures AllUnits(Goods(cs)) == UnitsOf(cs)
    decreases |cs|
  {
    hide Units;
    if cs != [] {
      assert Goods(cs)[1..] == Goods(cs[1..]);
      GoodUnits(cs[1..]);
    }
  }

  lemma MarkUnit(c: Scalar)
    ensures Units(c) == [0xFEFF] <==> c == 0xFEFF
    ensures Units(c) != [] && (Units(c)[0] == 0xFEFF <==> c == 0xFEFF)
  {
  }

  /** A text less the byte order mark it may begin with. */
  function LessMark(text: seq<Unit>): seq<Unit> {
    if text != [] && text[0] == 0xFEFF then text[1..] else text
  }

  lemma LessMarkUnits(cs: seq<Scalar>)
    ensures UnitsOf(if cs != [] && cs[0] == 0xFEFF then cs[1..] else cs) == LessMark(UnitsOf(cs))
  {
    hide Units;
    if cs != [] {
      MarkUnit(cs[0]);
      if cs[0] == 0xFEFF {
        assert UnitsOf(cs) == [0xFEFF] + UnitsOf(cs[1..]);
      }
    }
  }

  /**
   Decoding what was encoded gives the text back with its lone surrogates replaced, in either mode, split anyhow; a
   byte order mark at the start goes unless it is to be kept.
   */
  lemma RoundTrip(cfg: Config, d: Decoder, text: seq<Unit>, chunks: seq<seq<Byte>>)
    requires cfg.encoding.Utf8? && !d.doNotFlush
    requires chunks != [] && Flat(chunks) == EncodeAll(Points(text))
    ensures Stream(cfg, d, chunks).text == Some(if cfg.ignoreBom then Scrubbed(text) else LessMark(Scrubbed(text)))
  {
    hide *;
    var cs := Points(text);
    var bytes := EncodeAll(cs);
    ChunkingIndependent(cfg, d, chunks);
    WholeCall(cfg, d, bytes);
    DecodesMaximal(Fresh, bytes) by { FreshIs(); }
    DecodesText(cs);
    assert Bad !in Goods(cs);
    LessMarkUnits(cs);
    KeptGoods(cfg, cs);
    PointsUnits(text);
    EncodingIs(cfg);
  }

  lemma EncodingIs(cfg: Config)
    requires cfg.encoding.Utf8?
    ensures cfg.encoding == Encoding.Utf8
  {
  }

  lemma FreshIs()
    ensures Fresh.utf8 == Fresh8
  {
  }

  lemma KeptGoods(cfg: Config, cs: seq<Scalar>)
    requires cfg.encoding.Utf8?
    ensures AllUnits(Kept(cfg, Goods(cs)))
         == UnitsOf(if !cfg.ignoreBom && cs != [] && cs[0] == 0xFEFF then cs[1..] else cs)
  {
    hide AllUnits, UnitsOf;
    GoodUnits(cs);
    if BomFirst(cfg, false, Goods(cs)) {
      assert Goods(cs)[1..] == Goods(cs[1..]);
      GoodUnits(cs[1..]);
    }
  }

  lemma {:induction false} UnitsMore(a: seq<Scalar>, c: Scalar)
    ensures UnitsOf(a + [c]) == UnitsOf(a) + Units(c)
    decreases |a|
  {
    hide Units;
    if a == [] {
      assert a + [c] == [c] && [c][1..] == [];
    } else {
      assert (a + [c])[1..] == a[1..] + [c];
      UnitsMore(a[1..], c);
    }
  }

  lemma {:induction false} BytesMore(a: seq<Scalar>, c: Scalar)
    ensures EncodeAll(a + [c]) == EncodeAll(a) + Bytes(c)
    decreases |a|
  {
    hide Bytes;
    if a == [] {
      assert a + [c] == [c] && [c][1..] == [];
    } else {
      assert (a + [c])[1..] == a[1..] + [c];
      BytesMore(a[1..], c);
    }
  }

  lemma WidthIs(text: seq<Unit>)
    requires text != []
    ensures Width(text) == |Units(Point(text))| && |Bytes(Point(text))| >= 1
  {
    PointUnits(text);
    hide Bytes;
    assert |Bytes(Point(text))| >= 1 by { BytesWellFormed(Point(text)); }
  }

  /**
   encodeInto: the longest run of whole code points from the start that fits. `read` is how many units those are and
   `written` how many bytes; nothing after them is touched.
   */
  method EncodeInto(text: seq<Unit>, destination: array<Byte>) returns (read: nat, written: nat, ghost k: nat)
    modifies destination
    ensures k <= |Points(text)| && read == |UnitsOf(Points(text)[..k])| && read <= |text|
    ensures written <= destination.Length && destination[..written] == EncodeAll(Points(text)[..k])
    ensures destination[written..] == old(destination[..])[written..]
    ensures k < |Points(text)| ==> written + |Bytes(Points(text)[k])| > destination.Length
    ensures k == |Points(text)| ==> read == |text|
  {
    hide *;
    var capacity := destination.Length;
    ghost var all, was := Points(text), destination[..];
    read, written, k := 0, 0, 0;
    NoneYet();
    assert all[..0] == [];
    assert text[0..] == text && all[0..] == all;
    while read < |text|
      invariant 0 <= read <= |text| && k <= |all| && all[k..] == Points(text[read..])
      invariant read == |UnitsOf(all[..k])| && written <= capacity
      invariant destination[..written] == EncodeAll(all[..k]) && destination[written..] == was[written..]
    {
      var rest := text[read..];
      PointsLeft(all, k, text, read);
      WidthIs(rest);
      var c := Point(rest);
      var encoded := Bytes(c);
      if written + |encoded| > capacity {
        return;
      }
      SameFurther(destination[..], was, written, written + |encoded|);
      Copy(destination, written, encoded);
      UnitsMore(all[..k], c);
      BytesMore(all[..k], c);
      assert all[..k] + [c] == all[..k + 1];
      read, written, k := read + Width(rest), written + |encoded|, k + 1;
    }
    assert text[read..] == [];
    NoneLeft();
    assert |all[k..]| == 0;
  }

  lemma PointsLeft(all: seq<Scalar>, k: nat, text: seq<Unit>, read: nat)
    requires k <= |all| && read < |text| && all[k..] == Points(text[read..])
    ensures var rest := text[read..];
            k < |all| && all[k] == Point(rest) && all[k + 1..] == Points(text[read + Width(rest)..])
  {
    hide *;
    var rest := text[read..];
    PointFirst(rest);
    assert all[k..][0] == all[k] && all[k..][1..] == all[k + 1..] && rest[Width(rest)..] == text[read + Width(rest)..];
  }

  lemma NoneYet()
    ensures UnitsOf([]) == [] && EncodeAll([]) == []
  {
  }

  lemma NoneLeft()
    ensures Points([]) == []
  {
  }

  /** The bytes laid at a place, and no other changed; `memcpy`. */
  lemma SameFurther(a: seq<Byte>, b: seq<Byte>, m: nat, n: nat)
    requires m <= n <= |a| == |b| && a[m..] == b[m..]
    ensures a[n..] == b[n..]
  {
    assert a[n..] == a[m..][n - m..] && b[n..] == b[m..][n - m..];
  }

  method Copy(a: array<Byte>, at: nat, bytes: seq<Byte>)
    requires at + |bytes| <= a.Length
    modifies a
    ensures a[..at + |bytes|] == old(a[..at]) + bytes
    ensures a[at + |bytes|..] == old(a[..])[at + |bytes|..]
  {
    forall i | 0 <= i < |bytes| {
      a[at + i] := bytes[i];
    }
    assert forall i :: 0 <= i < at ==> a[i] == old(a[i]);
    assert forall i :: 0 <= i < |bytes| ==> a[at + i] == bytes[i];
    assert a[..at + |bytes|] == old(a[..at]) + bytes;
  }
}
