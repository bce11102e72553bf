/**
 The streaming UTF-16 decoders give exactly what reading the whole input in units gives: a code point for every unit
 or pair, one error for every lone surrogate, and one for whatever is unfinished at the end.
 */
module Utf16Exact {
  import opened Wrappers
  import opened ByteTypes
  import opened Utf8
  import opened TextItems
  import opened Utf8Exact

  function Encoding16(little: bool): Encoding { if little then Utf16Le else Utf16Be }

  /** The rule, with no decoder: what the input means read two bytes at a time. */
  function Rule16(little: bool, s: seq<Byte>): seq<Item>
    decreases |s|
  {
    if |s| == 0 then []
    else if |s| == 1 then [Bad]
    else
      var u := UnitOf(little, s[0], s[1]);
      if IsLow(u) then [Bad] + Rule16(little, s[2..])
      else if !IsHigh(u) then [Good(u)] + Rule16(little, s[2..])
      else if |s| < 4 then [Bad]
      else
        var v := UnitOf(little, s[2], s[3]);
        if IsLow(v) then [Good(Pair(u, v))] + Rule16(little, s[4..]) else [Bad] + Rule16(little, s[2..])
  }

  /** Bytes that leave the decoder waiting: half a unit, half a pair, or half a pair and half a unit. */
  predicate Unfinished16(little: bool, p: seq<Byte>) {
    |p| <= 3 && (|p| >= 2 ==> IsHigh(UnitOf(little, p[0], p[1])))
  }

  predicate Reached16(little: bool, st: State, p: seq<Byte>)
    requires Unfinished16(little, p)
  {
    && st.leadSurrogate == (if |p| >= 2 then Some(UnitOf(little, p[0], p[1])) else None)
    && st.leadByte == (if |p| % 2 == 1 then Some(p[|p| - 1]) else None)
  }

  lemma RuleTwo(little: bool, a: Byte, b: Byte, s: seq<Byte>)
    requires !IsHigh(UnitOf(little, a, b))
    ensures var u := UnitOf(little, a, b);
            Rule16(little, [a, b] + s) == [if IsLow(u) then Bad else Good(u)] + Rule16(little, s)
  {
    var w := [a, b] + s;
    assert w[0] == a && w[1] == b && w[2..] == s;
    hide UnitOf, IsLow, IsHigh;
  }

  lemma RuleFour(little: bool, a: Byte, b: Byte, c: Byte, d: Byte, s: seq<Byte>)
    requires IsHigh(UnitOf(little, a, b))
    ensures var u, v := UnitOf(little, a, b), UnitOf(little, c, d);
            Rule16(little, [a, b, c, d] + s)
            == if IsLow(v) then [Good(Pair(u, v))] + Rule16(little, s) else [Bad] + Rule16(little, [c, d] + s)
  {
    var w := [a, b, c, d] + s;
    assert w[0] == a && w[1] == b && w[2] == c && w[3] == d && w[2..] == [c, d] + s && w[4..] == s;
    assert !IsLow(UnitOf(little, a, b));
    hide UnitOf, IsLow, IsHigh, Pair;
  }

  lemma RuleEnd(little: bool, p: seq<Byte>)
    requires Unfinished16(little, p)
    ensures Rule16(little, p) == if p == [] then [] else [Bad]
  {
  }

  /** From any waiting state the decoder goes on as the rule does. */
  lemma {:induction false} ItemsReached16(little: bool, st: State, p: seq<Byte>, s: seq<Byte>)
    requires Unfinished16(little, p) && Reached16(little, st, p)
    ensures Items(Encoding16(little), st, s) == Rule16(little, p + s)
    decreases |s|
  {
    hide Items, Rule16, Byte16, UnitOf;
    var e := Encoding16(little);
    if s == [] {
      assert p + s == p;
      ItemsNone(e, st);
      RuleEnd(little, p);
    } else {
      var b, rest := s[0], s[1..];
      ItemsOne(e, st, s);
      assert ByteMove(e, st, b) == Byte16(little, st, b);
      assert p + s == (p + [b]) + rest;
      if |p| % 2 == 0 {
        WaitByte(little, st, p, b);
        ItemsReached16(little, st.(leadByte := Some(b)), p + [b], rest);
      } else if |p| == 1 {
        assert p + [b] == [p[0], b];
        FirstUnit(little, st, p, b);
        if IsHigh(UnitOf(little, p[0], b)) {
          ItemsReached16(little, ByteMove(e, st, b).state, p + [b], rest);
        } else {
          ItemsReached16(little, ByteMove(e, st, b).state, [], rest);
          assert [] + rest == rest;
          RuleTwo(little, p[0], b, rest);
        }
      } else {
        SecondUnit(little, st, p, s);
      }
    }
  }

  lemma WaitByte(little: bool, st: State, p: seq<Byte>, b: Byte)
    requires Unfinished16(little, p) && |p| % 2 == 0 && Reached16(little, st, p)
    ensures Byte16(little, st, b) == Moved(st.(leadByte := Some(b)), [])
    ensures Unfinished16(little, p + [b]) && Reached16(little, st.(leadByte := Some(b)), p + [b])
  {
    hide UnitOf, IsHigh;
    var w := p + [b];
    assert |p| == 2 ==> w[0] == p[0] && w[1] == p[1];
  }

  lemma FirstUnit(little: bool, st: State, p: seq<Byte>, b: Byte)
    requires Unfinished16(little, p) && |p| == 1 && Reached16(little, st, p)
    ensures var m, u := Byte16(little, st, b), UnitOf(little, p[0], b);
            if IsHigh(u) then m.items == [] && Unfinished16(little, [p[0], b]) && Reached16(little, m.state, [p[0], b])
            else m.items == [if IsLow(u) then Bad else Good(u)] && Reached16(little, m.state, [])
  {
    hide UnitOf;
  }

  /** A unit after a high surrogate: its pair, or else the surrogate is an error and the unit is on its own. */
  lemma {:induction false} SecondUnit(little: bool, st: State, p: seq<Byte>, s: seq<Byte>)
    requires Unfinished16(little, p) && |p| == 3 && Reached16(little, st, p) && s != []
    ensures Items(Encoding16(little), st, s) == Rule16(little, p + s)
    decreases |s|, 0
  {
    hide Items, Rule16, Byte16, UnitOf;
    var e := Encoding16(little);
    var b, rest := s[0], s[1..];
    var m, v := Byte16(little, st, b), UnitOf(little, p[2], b);
    ItemsOne(e, st, s);
    SecondMoves(little, st, p, b);
    assert p + s == [p[0], p[1], p[2], b] + rest && [] + rest == rest;
    RuleFour(little, p[0], p[1], p[2], b, rest);
    if IsHigh(v) {
      ItemsReached16(little, m.state, [p[2], b], rest);
    } else {
      ItemsReached16(little, m.state, [], rest);
      RuleTwo(little, p[2], b, rest);
      if !IsLow(v) {
        assert [Bad] + ([Good(v)] + Rule16(little, rest)) == [Bad, Good(v)] + Rule16(little, rest);
      }
    }
  }

  lemma SecondMoves(little: bool, st: State, p: seq<Byte>, b: Byte)
    requires Unfinished16(little, p) && |p| == 3 && Reached16(little, st, p)
    ensures var m, u, v := Byte16(little, st, b), UnitOf(little, p[0], p[1]), UnitOf(little, p[2], b);
            if IsLow(v) then m.items == [Good(Pair(u, v))] && Reached16(little, m.state, [])
            else if IsHigh(v) then
              m.items == [Bad] && Unfinished16(little, [p[2], b]) && Reached16(little, m.state, [p[2], b])
            else m.items == [Bad, Good(v)] && Reached16(little, m.state, [])
  {
    hide UnitOf, Pair;
  }

  /** A fresh decoder's items are the rule's, for every input. */
  lemma DecodesRule16(little: bool, st: State, s: seq<Byte>)
    requires st.leadByte == None && st.leadSurrogate == None
    ensures Items(Encoding16(little), st, s) == Rule16(little, s)
  {
    hide Items, Rule16;
    ItemsReached16(little, st, [], s);
    assert [] + s == s;
  }

  /** No surrogate comes out alone, and nothing above 0x10FFFF. */
  lemma {:induction false} ScalarsOnly16(little: bool, s: seq<Byte>, i: nat)
    requires i < |Rule16(little, s)| && Rule16(little, s)[i].Good?
    ensures IsScalar(Rule16(little, s)[i].c)
    decreases |s|
  {
    hide UnitOf;
    if i > 0 {
      var u := UnitOf(little, s[0], s[1]);
      if IsHigh(u) && IsLow(UnitOf(little, s[2], s[3])) {
        ScalarsOnly16(little, s[4..], i - 1);
      } else {
        ScalarsOnly16(little, s[2..], i - 1);
      }
    }
  }

  /** The UTF-16 units of a code point; what `append_code_point` appends. */
  function Units(c: nat): seq<Unit> {
    if c < 0x1_0000 then [c] else [(0xD800 + (c - 0x1_0000) / 0x400) % 0x1_0000, 0xDC00 + (c - 0x1_0000) % 0x400]
  }

  function UnitBytes(little: bool, u: Unit): seq<Byte> {
    if little then [u % 0x100, u / 0x100] else [u / 0x100, u % 0x100]
  }

  /** A code point in UTF-16. */
  function Bytes16(little: bool, c: Scalar): seq<Byte> {
    var us := Units(c);
    UnitBytes(little, us[0]) + if |us| == 1 then [] else UnitBytes(little, us[1])
  }

  function EncodeAll16(little: bool, cs: seq<Scalar>): seq<Byte>
    decreases |cs|
  {
    if cs == [] then [] else Bytes16(little, cs[0]) + EncodeAll16(little, cs[1..])
  }

  lemma UnitBack(little: bool, u: Unit)
    ensures var b := UnitBytes(little, u); |b| == 2 && UnitOf(little, b[0], b[1]) == u
  {
  }

  lemma BytesBack(little: bool, a: Byte, b: Byte)
    ensures UnitBytes(little, UnitOf(little, a, b)) == [a, b]
  {
  }

  lemma PairBack(c: Scalar)
    requires c >= 0x1_0000
    ensures var us := Units(c); |us| == 2 && IsHigh(us[0]) && IsLow(us[1]) && Pair(us[0], us[1]) == c
  {
  }

  lemma UnitsOfPair(u: Unit, v: Unit)
    requires IsHigh(u) && IsLow(v)
    ensures Pair(u, v) >= 0x1_0000 && IsScalar(Pair(u, v)) && Units(Pair(u, v)) == [u, v]
  {
  }

  /** One code point in UTF-16 gives itself. */
  lemma WholeChar16(little: bool, c: Scalar, s: seq<Byte>)
    ensures Rule16(little, Bytes16(little, c) + s) == [Good(c)] + Rule16(little, s)
  {
    hide Rule16, UnitOf, UnitBytes, Pair;
    var us := Units(c);
    UnitBack(little, us[0]);
    var b := UnitBytes(little, us[0]);
    if c < 0x1_0000 {
      assert Bytes16(little, c) == [b[0], b[1]];
      RuleTwo(little, b[0], b[1], s);
    } else {
      PairBack(c);
      UnitBack(little, us[1]);
      var d := UnitBytes(little, us[1]);
      assert Bytes16(little, c) == [b[0], b[1], d[0], d[1]];
      hide Units, IsHigh, IsLow;
      RuleFour(little, b[0], b[1], d[0], d[1], s);
    }
  }

  /** Text in UTF-16 decodes to itself. */
  lemma {:induction false} DecodesText16(little: bool, cs: seq<Scalar>)
    ensures Rule16(little, EncodeAll16(little, cs)) == Goods(cs)
    decreases |cs|
  {
    hide Rule16, Bytes16;
    if cs == [] {
      RuleEnd(little, []);
    } else {
      WholeChar16(little, cs[0], EncodeAll16(little, cs[1..]));
      DecodesText16(little, cs[1..]);
      GoodsMore(cs[0], cs[1..]);
      assert [cs[0]] + cs[1..] == cs;
    }
  }

  /** One step of the rule with no error. */
  lemma FirstChar16(little: bool, s: seq<Byte>) returns (c: Scalar, n: nat)
    requires s != [] && Bad !in Rule16(little, s)
    ensures n <= |s| && n >= 2 && Bytes16(little, c) == s[..n]
    ensures Rule16(little, s) == [Good(c)] + Rule16(little, s[n..])
  {
    hide UnitOf, UnitBytes, Pair, Units;
    assert |s| >= 2;
    var u := UnitOf(little, s[0], s[1]);
    BytesBack(little, s[0], s[1]);
    assert Rule16(little, s)[0] != Bad;
    if IsHigh(u) {
      var v := UnitOf(little, s[2], s[3]);
      BytesBack(little, s[2], s[3]);
      UnitsOfPair(u, v);
      c, n := Pair(u, v), 4;
    } else {
      UnitsOfOne(u);
      c, n := u, 2;
    }
  }

  lemma UnitsOfOne(u: Unit)
    ensures Units(u) == [u]
  {
  }

  lemma TextMore16(little: bool, s: seq<Byte>, n: nat, c: Scalar, rest: seq<Scalar>)
    requires n <= |s| && Bytes16(little, c) == s[..n] && EncodeAll16(little, rest) == s[n..]
    ensures EncodeAll16(little, [c] + rest) == s
  {
    hide Bytes16;
    assert ([c] + rest)[1..] == rest && s == s[..n] + s[n..];
  }

  /** Bytes that decode with no error are text in UTF-16, of the code points given. */
  lemma {:induction false} TextOf16(little: bool, s: seq<Byte>) returns (cs: seq<Scalar>)
    requires Bad !in Rule16(little, s)
    ensures EncodeAll16(little, cs) == s && Rule16(little, s) == Goods(cs)
    decreases |s|
  {
    hide Bytes16, Rule16, Goods;
    if s == [] {
      RuleEnd(little, []);
      cs := [];
    } else {
      var c, n := FirstChar16(little, s);
      var later := Rule16(little, s[n..]);
      assert Bad !in later by {
        assert forall x <- later :: x in [Good(c)] + later;
      }
      var rest := TextOf16(little, s[n..]);
      hide *;
      cs := [c] + rest;
      TextMore16(little, s, n, c, rest);
      GoodsMore(c, rest);
    }
  }

  ghost predicate IsText16(little: bool, s: seq<Byte>) {
    exists cs: seq<Scalar> :: EncodeAll16(little, cs) == s
  }

  /** The decoders find no error exactly in text that is UTF-16. */
  lemma NoErrorIffText16(little: bool, s: seq<Byte>)
    ensures Bad !in Rule16(little, s) <==> IsText16(little, s)
  {
    if Bad !in Rule16(little, s) {
      var cs := TextOf16(little, s);
    }
    if IsText16(little, s) {
      var cs: seq<Scalar> :| EncodeAll16(little, cs) == s;
      DecodesText16(little, cs);
    }
  }
}
