/**
 The streaming UTF-8 decoder gives exactly what the Unicode Standard's rule for ill-formed text gives, stated with no
 decoder: a code point for every well-formed sequence, one error for every maximal subpart of an ill-formed one.
 */
module Utf8Exact {
  import opened ByteTypes
  import opened Utf8
  import opened TextItems

  /** Bytes that start a sequence and do not finish it. */
  predicate Unfinished(p: seq<Byte>) {
    p == [] || (Starts(p) && |p| < Length(p[0]))
  }

  /** How far s, from k bytes on, goes on as one sequence. */
  function Grow(s: seq<Byte>, k: nat): (n: nat)
    requires k <= |s|
    ensures k <= n <= |s|
    decreases |s| - k
  {
    if k < |s| && Starts(s[..k + 1]) then Grow(s, k + 1) else k
  }

  /** The first part of s: a well-formed sequence, or else the longest start of one, or else one byte. */
  function Subpart(s: seq<Byte>): (n: nat)
    requires s != []
    ensures 1 <= n <= |s|
  {
    var n := Grow(s, 0);
    if n == 0 then 1 else n
  }

  /** The rule: a code point for each part that is well-formed, an error for each that is not. */
  function Maximal(s: seq<Byte>): seq<Item>
    decreases |s|
  {
    if s == [] then []
    else
      var n := Subpart(s);
      [if WellFormed(s[..n]) then Good(Bits(s[..n])) else Bad] + Maximal(s[n..])
  }

  lemma StartsShorter(s: seq<Byte>, k: nat)
    requires 1 <= k <= |s| && Starts(s)
    ensures Starts(s[..k])
  {
    var t := s[..k];
    assert t[0] == s[0];
  }

  /** The part ends where the bytes so far start a sequence and one more does not. */
  lemma {:induction false} GrowIs(s: seq<Byte>, k: nat, n: nat)
    requires k <= n <= |s| && (n == 0 || Starts(s[..n]))
    requires n < |s| ==> !Starts(s[..n + 1])
    ensures Grow(s, k) == n
    decreases n - k
  {
    hide Starts;
    if k < n {
      assert s[..n][..k + 1] == s[..k + 1];
      StartsShorter(s[..n], k + 1);
      GrowIs(s, k + 1, n);
    }
  }

  /** No longer piece is a start: the part is maximal. */
  lemma {:induction false} SubpartMaximal(s: seq<Byte>, k: nat)
    requires s != [] && Subpart(s) < k <= |s|
    ensures !Starts(s[..k])
  {
    hide Starts;
    GrowStops(s, 0);
    if Starts(s[..k]) {
      var n := Grow(s, 0);
      assert s[..k][..n + 1] == s[..n + 1];
      StartsShorter(s[..k], n + 1);
    }
  }

  lemma {:induction false} GrowStops(s: seq<Byte>, k: nat)
    requires k <= |s|
    ensures var n := Grow(s, k); n < |s| ==> !Starts(s[..n + 1])
    decreases |s| - k
  {
    hide Starts;
    if k < |s| && Starts(s[..k + 1]) {
      GrowStops(s, k + 1);
    }
  }

  /** The rule on bytes whose first part ends with the start p: p is an error. */
  lemma BrokenStart(p: seq<Byte>, s: seq<Byte>)
    requires p != [] && Unfinished(p)
    requires s != [] ==> !Starts(p + [s[0]])
    ensures Maximal(p + s) == [Bad] + Maximal(s)
  {
    hide Starts;
    var w := p + s;
    assert w[..|p|] == p && w[|p|..] == s;
    if s != [] {
      assert w[..|p| + 1] == p + [s[0]];
    }
    GrowIs(w, 0, |p|);
  }

  /** The rule on bytes that begin with a well-formed sequence. */
  lemma WholePart(p: seq<Byte>, s: seq<Byte>)
    requires WellFormed(p)
    ensures Maximal(p + s) == [Good(Bits(p))] + Maximal(s)
  {
    var w := p + s;
    assert w[..|p|] == p && w[|p|..] == s;
    if s != [] {
      assert w[..|p| + 1][0] == p[0];
    }
    hide Starts;
    GrowIs(w, 0, |p|);
  }

  /** The rule on a byte that starts nothing. */
  lemma NoStart(s: seq<Byte>)
    requires s != [] && !Starts([s[0]])
    ensures Maximal(s) == [Bad] + Maximal(s[1..])
  {
    hide Starts;
    assert s[..1] == [s[0]];
    GrowIs(s, 0, 0);
  }

  /** The decoder after an unfinished start, all its variables. */
  function Reached(p: seq<Byte>): Utf8State
    requires Unfinished(p)
  {
    if p == [] then Fresh8
    else
      var one := |p| == 1;
      Utf8State(Bits(p), |p| - 1, Length(p[0]) - 1,
                if one && p[0] == 0xE0 then 0xA0 else if one && p[0] == 0xF0 then 0x90 else 0x80,
                if one && p[0] == 0xED then 0x9F else if one && p[0] == 0xF4 then 0x8F else 0xBF)
  }

  lemma StartsOne(b: Byte)
    ensures Starts([b]) <==> Length(b) != 0
  {
  }

  lemma StartsMore(p: seq<Byte>, b: Byte)
    requires p != [] && Unfinished(p)
    ensures Starts(p + [b]) <==> Reached(p).lower <= b <= Reached(p).upper
    ensures (p + [b])[0] == p[0] && Bits(p + [b]) == Push(Bits(p), b)
  {
    var w := p + [b];
    assert w[..|p|] == p && w[|p|] == b && w[0] == p[0];
    assert Bits(w) == Push(Bits(p), b);
    hide Push, Bits;
    assert forall i :: 2 <= i < |p| ==> w[i] == p[i];
    if |p| == 1 {
      assert w[1] == b;
    } else {
      assert w[1] == p[1];
    }
  }

  lemma FirstReached(st: State, b: Byte)
    requires st.utf8 == Fresh8
    ensures var m := Byte8(st, b);
            if Length(b) == 0 then m == Moved(st, [Bad])
            else if Length(b) == 1 then m == Moved(st, [Good(Bits([b]))])
            else Starts([b]) && m == Moved(st.(utf8 := Reached([b])), [])
  {
    StartsOne(b);
    assert Bits([b]) == LeadBits(b);
  }

  lemma NextReached(st: State, p: seq<Byte>, b: Byte)
    requires p != [] && Unfinished(p) && st.utf8 == Reached(p)
    ensures var m := Byte8(st, b);
            if !Starts(p + [b]) then
              var again := Byte8(st.(utf8 := Fresh8), b); m == Moved(again.state, [Bad] + again.items)
            else if WellFormed(p + [b]) then m == Moved(st.(utf8 := Fresh8), [Good(Bits(p + [b]))])
            else Unfinished(p + [b]) && m == Moved(st.(utf8 := Reached(p + [b])), [])
  {
    StartsMore(p, b);
    hide Bits, Push, Starts;
  }

  /** From any start the decoder goes on as the rule does. */
  lemma {:induction false} ItemsReached(st: State, p: seq<Byte>, s: seq<Byte>)
    requires Unfinished(p) && st.utf8 == Reached(p)
    ensures Items(Encoding.Utf8, st, s) == Maximal(p + s)
    decreases |s|, |p|
  {
    if s == [] {
      ItemsNone(Encoding.Utf8, st);
      EndReached(st, p);
    } else if p == [] {
      FirstCase(st, s);
    } else {
      NextCase(st, p, s);
    }
  }

  lemma EndReached(st: State, p: seq<Byte>)
    requires Unfinished(p) && st.utf8 == Reached(p)
    ensures End(Encoding.Utf8, st).items == Maximal(p + [])
  {
    hide Maximal;
    if p != [] {
      BrokenStart(p, []);
    }
    assert p + [] == p && Maximal([]) == [] by {
      EmptyRule();
    }
  }

  lemma EmptyRule()
    ensures Maximal([]) == []
  {
  }

  lemma {:induction false} FirstCase(st: State, s: seq<Byte>)
    requires st.utf8 == Fresh8 && s != []
    ensures Items(Encoding.Utf8, st, s) == Maximal([] + s)
    decreases |s|, 0, 0
  {
    hide Byte8, Starts, Items, Maximal, Bits;
    var b := s[0];
    ItemsOne(Encoding.Utf8, st, s);
    FirstReached(st, b);
    StartsOne(b);
    assert [] + s == s && [b] + s[1..] == s;
    if Length(b) == 0 {
      NoStart(s);
      ItemsReached(st, [], s[1..]);
      assert [] + s[1..] == s[1..];
    } else if Length(b) == 1 {
      WholePart([b], s[1..]);
      ItemsReached(st, [], s[1..]);
      assert [] + s[1..] == s[1..];
    } else {
      ItemsReached(st.(utf8 := Reached([b])), [b], s[1..]);
    }
  }

  lemma {:induction false} NextCase(st: State, p: seq<Byte>, s: seq<Byte>)
    requires p != [] && Unfinished(p) && st.utf8 == Reached(p) && s != []
    ensures Items(Encoding.Utf8, st, s) == Maximal(p + s)
    decreases |s|, |p|, 0
  {
    hide Byte8, Starts, Items, Maximal, Bits, Reached, WellFormed;
    var b := s[0];
    var anew := st.(utf8 := Fresh8);
    NextReached(st, p, b);
    ItemsOne(Encoding.Utf8, st, s);
    assert p + s == (p + [b]) + s[1..] && [] + s[1..] == s[1..] && [] + s == s;
    FreshReached();
    if !Starts(p + [b]) {
      ItemsOne(Encoding.Utf8, anew, s);
      ItemsReached(anew, [], s);
      BrokenStart(p, s);
    } else if WellFormed(p + [b]) {
      ItemsReached(anew, [], s[1..]);
      WholePart(p + [b], s[1..]);
    } else {
      ItemsReached(st.(utf8 := Reached(p + [b])), p + [b], s[1..]);
    }
  }

  lemma FreshReached()
    ensures Reached([]) == Fresh8
  {
  }

  /** A fresh decoder's items are the rule's, for every input. */
  lemma DecodesMaximal(st: State, s: seq<Byte>)
    requires st.utf8 == Fresh8
    ensures Items(Encoding.Utf8, st, s) == Maximal(s)
  {
    ItemsReached(st, [], s);
    assert [] + s == s;
  }

  /** Every code point given is a scalar value: no surrogate, and nothing above 0x10FFFF. */
  lemma {:induction false} ScalarsOnly(s: seq<Byte>, i: nat)
    requires i < |Maximal(s)| && Maximal(s)[i].Good?
    ensures IsScalar(Maximal(s)[i].c)
    decreases |s|
  {
    hide WellFormed;
    var n := Subpart(s);
    if i > 0 {
      ScalarsOnly(s[n..], i - 1);
    } else {
      WellFormedBytes(s[..n]);
    }
  }

  /** Text in UTF-8. */
  function EncodeAll(cs: seq<Scalar>): seq<Byte>
    decreases |cs|
  {
    if cs == [] then [] else Bytes(cs[0]) + EncodeAll(cs[1..])
  }

  function Goods(cs: seq<Scalar>): (r: seq<Item>)
    ensures |r| == |cs| && forall i :: 0 <= i < |r| ==> r[i] == Good(cs[i])
  {
    seq(|cs|, i requires 0 <= i < |cs| => Good(cs[i]))
  }

  /** Text in UTF-8 decodes to itself. */
  lemma {:induction false} DecodesText(cs: seq<Scalar>)
    ensures Maximal(EncodeAll(cs)) == Goods(cs)
    decreases |cs|
  {
    hide WellFormed, Bytes, Bits, Maximal;
    EmptyRule();
    if cs != [] {
      BytesWellFormed(cs[0]);
      WholePart(Bytes(cs[0]), EncodeAll(cs[1..]));
      DecodesText(cs[1..]);
      assert Goods(cs) == [Good(cs[0])] + Goods(cs[1..]);
    }
  }

  /** Bytes that are those code points, and decode to them. */
  ghost predicate Spells(s: seq<Byte>, cs: seq<Scalar>) { EncodeAll(cs) == s && Maximal(s) == Goods(cs) }

  ghost predicate Faultless(s: seq<Byte>) { Bad !in Maximal(s) }

  /** Bytes that decode with no error are text in UTF-8, of the code points given. */
  lemma {:induction false} TextOf(s: seq<Byte>) returns (cs: seq<Scalar>)
    requires Faultless(s)
    ensures Spells(s, cs)
    decreases |s|
  {
    hide *;
    if s == [] {
      cs := [];
      NothingSpelled();
    } else {
      var c, n := FirstScalar(s);
      var rest := TextOf(s[n..]);
      cs := [c] + rest;
      TextMore(s, n, c, rest);
      GoodsMore(c, rest);
      Both(s, cs);
    }
  }

  lemma NothingSpelled()
    ensures Spells([], [])
  {
  }

  lemma Both(s: seq<Byte>, cs: seq<Scalar>)
    requires EncodeAll(cs) == s && Maximal(s) == Goods(cs)
    ensures Spells(s, cs)
  {
  }

  lemma FirstScalar(s: seq<Byte>) returns (c: Scalar, n: nat)
    requires s != [] && Faultless(s)
    ensures 0 < n <= |s| && Bytes(c) == s[..n] && Maximal(s) == [Good(c)] + Maximal(s[n..]) && Faultless(s[n..])
  {
    n := Subpart(s);
    assert Maximal(s)[0] != Bad;
    assert forall x <- Maximal(s[n..]) :: x in Maximal(s);
    hide WellFormed, Bits;
    WellFormedBytes(s[..n]);
    c := Bits(s[..n]);
  }

  lemma TextMore(s: seq<Byte>, n: nat, c: Scalar, rest: seq<Scalar>)
    requires n <= |s| && Bytes(c) == s[..n] && Spells(s[n..], rest)
    ensures EncodeAll([c] + rest) == s && Maximal(s[n..]) == Goods(rest)
  {
    hide Bytes, Maximal, Goods;
    assert ([c] + rest)[1..] == rest && s == s[..n] + s[n..];
  }

  lemma GoodsMore(c: Scalar, rest: seq<Scalar>)
    ensures Goods([c] + rest) == [Good(c)] + Goods(rest)
  {
  }

  ghost predicate IsText(s: seq<Byte>) {
    exists cs: seq<Scalar> :: EncodeAll(cs) == s
  }

  /** The decoder finds no error exactly in text that is UTF-8. */
  lemma NoErrorIffText(s: seq<Byte>)
    ensures Bad !in Maximal(s) <==> IsText(s)
  {
    if Bad !in Maximal(s) {
      var cs := TextOf(s);
    }
    if IsText(s) {
      var cs: seq<Scalar> :| EncodeAll(cs) == s;
      DecodesText(cs);
    }
  }
}
