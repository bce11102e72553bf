/**
 Canonical prefix codes, ITU-T T.88 section B.3 (tools/pdf-make-jbig2-tests.py, `Huff`).
 */
module CanonicalCodes {
  import opened Powers

  /** How many of the first `n` lengths are `l`; length 0 means no code. */
  function Count(lens: seq<nat>, l: nat, n: nat): nat
    requires n <= |lens|
  {
    if n == 0 then 0 else Count(lens, l, n - 1) + if lens[n - 1] == l && l > 0 then 1 else 0
  }

  /** FIRSTCODE of section B.3. */
  function First(lens: seq<nat>, l: nat): nat {
    if l == 0 then 0 else 2 * (First(lens, l - 1) + Count(lens, l - 1, |lens|))
  }

  /** The code of line `i`: the first of its length, moved on by the lines of that length before it. */
  function Code(lens: seq<nat>, i: nat): nat
    requires i < |lens|
  {
    First(lens, lens[i]) + Count(lens, lens[i], i)
  }

  /** Codes of the lengths up to `top` are assigned. */
  predicate Assigned(lens: seq<nat>, codes: seq<nat>, top: nat) {
    && |codes| == |lens|
    && forall i :: 0 <= i < |lens| && 0 < lens[i] <= top ==> codes[i] == Code(lens, i)
  }

  /** The codes of one length, down the table. */
  method AssignLength(lens: seq<nat>, length: nat, first: nat, codes: seq<nat>) returns (r: seq<nat>)
    requires length > 0 && first == First(lens, length) && Assigned(lens, codes, length - 1)
    ensures Assigned(lens, r, length)
  {
    hide First;
    var code := first;
    r := codes;
    for i := 0 to |lens|
      invariant Assigned(lens, r, length - 1) && code == first + Count(lens, length, i)
      invariant forall j :: 0 <= j < i && lens[j] == length ==> r[j] == Code(lens, j)
    {
      if lens[i] == length {
        r := r[i := code];
        code := code + 1;
      }
    }
  }

  /** The codes as they are assigned: length by length, and within a length down the table. */
  method Assign(lens: seq<nat>, longest: nat) returns (codes: seq<nat>)
    requires Longest(lens, longest)
    ensures Assigned(lens, codes, longest)
  {
    hide Count;
    codes := seq(|lens|, _ => 0);
    var first := 0;
    for length := 1 to longest + 1
      invariant Assigned(lens, codes, length - 1) && first == First(lens, length - 1)
    {
      first := (first + Count(lens, length - 1, |lens|)) * 2;
      codes := AssignLength(lens, length, first, codes);
    }
  }

  // ---- Codes as parts of the code space -------------------------------------------------------

  predicate Longest(lens: seq<nat>, m: nat) {
    forall i :: 0 <= i < |lens| ==> lens[i] <= m
  }

  /** The share, of 2^m, that codes of the first `n` lengths shorter than `l` take. */
  function Below(lens: seq<nat>, m: nat, l: nat, n: nat): nat
    requires Longest(lens, m) && n <= |lens|
  {
    if n == 0 then 0
    else Below(lens, m, l, n - 1) + if 0 < lens[n - 1] < l then Pow2(m - lens[n - 1]) else 0
  }

  /** The Kraft sum, in units of 2^-m. */
  function Kraft(lens: seq<nat>, m: nat): nat
    requires Longest(lens, m)
  {
    Below(lens, m, m + 1, |lens|)
  }

  lemma {:induction false} BelowNext(lens: seq<nat>, m: nat, l: nat, n: nat)
    requires Longest(lens, m) && n <= |lens| && l <= m
    ensures Below(lens, m, l + 1, n) == Below(lens, m, l, n) + Count(lens, l, n) * Pow2(m - l)
  {
    if n > 0 {
      BelowNext(lens, m, l, n - 1);
      MulDistribute(Count(lens, l, n - 1), 1, Pow2(m - l));
    }
  }

  lemma {:induction false} BelowMonotone(lens: seq<nat>, m: nat, l: nat, l': nat, n: nat)
    requires Longest(lens, m) && n <= |lens| && l <= l'
    ensures Below(lens, m, l, n) <= Below(lens, m, l', n)
    decreases n
  {
    if n > 0 {
      BelowMonotone(lens, m, l, l', n - 1);
    }
  }

  lemma {:induction false} CountMonotone(lens: seq<nat>, l: nat, i: nat, n: nat)
    requires i <= n <= |lens|
    ensures Count(lens, l, i) <= Count(lens, l, n)
    decreases n
  {
    if i < n {
      CountMonotone(lens, l, i, n - 1);
    }
  }

  lemma {:induction false} FirstIsBelow(lens: seq<nat>, m: nat, l: nat)
    requires Longest(lens, m) && l <= m
    ensures First(lens, l) * Pow2(m - l) == Below(lens, m, l, |lens|)
  {
    if l == 0 {
      BelowNone(lens, m, |lens|);
    } else {
      var p := Pow2(m - l);
      FirstIsBelow(lens, m, l - 1);
      BelowNext(lens, m, l - 1, |lens|);
      assert Pow2(m - (l - 1)) == 2 * p;
      MulDistribute(First(lens, l - 1), Count(lens, l - 1, |lens|), 2 * p);
      MulRegroup(First(lens, l - 1) + Count(lens, l - 1, |lens|), 2, p);
    }
  }

  lemma {:induction false} BelowNone(lens: seq<nat>, m: nat, n: nat)
    requires Longest(lens, m) && n <= |lens|
    ensures Below(lens, m, 0, n) == 0
  {
    if n > 0 {
      BelowNone(lens, m, n - 1);
    }
  }

  /** Where the part of code `i` starts. */
  function Start(lens: seq<nat>, m: nat, i: nat): nat
    requires i < |lens| && Longest(lens, m)
  {
    ShiftLeft(Code(lens, i), m - lens[i])
  }

  function End(lens: seq<nat>, m: nat, i: nat): nat
    requires i < |lens| && Longest(lens, m)
  {
    ShiftLeft(Code(lens, i) + 1, m - lens[i])
  }

  /** The parts lie in the order of the codes, one after another, and in all take the Kraft sum. */
  lemma PartBounds(lens: seq<nat>, m: nat, i: nat)
    requires i < |lens| && Longest(lens, m) && lens[i] > 0
    ensures var l, p := lens[i], Pow2(m - lens[i]);
            && Start(lens, m, i) == Below(lens, m, l, |lens|) + Count(lens, l, i) * p
            && End(lens, m, i) == Start(lens, m, i) + p
            && End(lens, m, i) <= Below(lens, m, l + 1, |lens|) <= Kraft(lens, m)
  {
    var l, p := lens[i], Pow2(m - lens[i]);
    FirstIsBelow(lens, m, l);
    MulDistribute(First(lens, l), Count(lens, l, i), p);
    MulDistribute(Code(lens, i), 1, p);
    BelowNext(lens, m, l, |lens|);
    CountMonotone(lens, l, i + 1, |lens|);
    MulDistribute(Count(lens, l, i), 1, p);
    MulLess(Count(lens, l, i) + 1, Count(lens, l, |lens|), p);
    BelowMonotone(lens, m, l + 1, m + 1, |lens|);
  }

  /** The parts of the first n codes that come before code i: the shorter ones, and those of its length that are above it in the table. */
  function Ahead(lens: seq<nat>, m: nat, i: nat, n: nat): nat
    requires i < |lens| && Longest(lens, m) && n <= |lens|
  {
    if n == 0 then 0
    else
      var j := n - 1;
      Ahead(lens, m, i, j)
      + if 0 < lens[j] < lens[i] || (0 < lens[j] == lens[i] && j < i) then Pow2(m - lens[j]) else 0
  }

  lemma {:induction false} AheadIs(lens: seq<nat>, m: nat, i: nat, n: nat)
    requires i < |lens| && Longest(lens, m) && n <= |lens|
    ensures Ahead(lens, m, i, n)
         == Below(lens, m, lens[i], n) + Count(lens, lens[i], if n < i then n else i) * Pow2(m - lens[i])
  {
    if n > 0 {
      AheadIs(lens, m, i, n - 1);
      if n <= i && lens[n - 1] == lens[i] > 0 {
        MulDistribute(Count(lens, lens[i], n - 1), 1, Pow2(m - lens[i]));
      }
    }
  }

  /** A code is the number of codes of its length that would fit before it: the parts ahead of it leave no room between them. */
  lemma CodeExactly(lens: seq<nat>, m: nat, i: nat)
    requires i < |lens| && Longest(lens, m) && lens[i] > 0
    ensures Code(lens, i) * Pow2(m - lens[i]) == Ahead(lens, m, i, |lens|)
  {
    hide Count, Below, Code, Pow2;
    PartBounds(lens, m, i);
    AheadIs(lens, m, i, |lens|);
  }

  /** Code `i` comes before code `j`. */
  predicate Before(lens: seq<nat>, i: nat, j: nat)
    requires i < |lens| && j < |lens|
  {
    lens[i] < lens[j] || (lens[i] == lens[j] && i < j)
  }

  lemma PartsInOrder(lens: seq<nat>, m: nat, i: nat, j: nat)
    requires i < |lens| && j < |lens| && Longest(lens, m) && lens[i] > 0 && lens[j] > 0 && Before(lens, i, j)
    ensures End(lens, m, i) <= Start(lens, m, j)
  {
    PartBounds(lens, m, i);
    PartBounds(lens, m, j);
    if lens[i] < lens[j] {
      BelowMonotone(lens, m, lens[i] + 1, lens[j], |lens|);
    } else {
      var p := Pow2(m - lens[i]);
      CountMonotone(lens, lens[i], i + 1, j);
      MulDistribute(Count(lens, lens[i], i), 1, p);
      MulLess(Count(lens, lens[i], i) + 1, Count(lens, lens[i], j), p);
    }
  }

  /** Lengths of Kraft sum at most 1 give codes that fit in their lengths. */
  lemma CodeFits(lens: seq<nat>, m: nat, i: nat)
    requires i < |lens| && Longest(lens, m) && lens[i] > 0 && Kraft(lens, m) <= Pow2(m)
    ensures Code(lens, i) < Pow2(lens[i])
  {
    PartBounds(lens, m, i);
    Pow2Add(lens[i], m - lens[i]);
    MulLess(Code(lens, i) + 1, Pow2(lens[i]), Pow2(m - lens[i]));
  }

  /** A code that starts with code `i` takes its part inside that of code `i`. */
  lemma StartsInside(lens: seq<nat>, m: nat, i: nat, j: nat)
    requires i < |lens| && j < |lens| && Longest(lens, m) && lens[i] <= lens[j]
    requires Code(lens, j) / Pow2(lens[j] - lens[i]) == Code(lens, i)
    ensures Start(lens, m, i) <= Start(lens, m, j) < End(lens, m, i)
  {
    hide Code, Pow2;
    var d, q := Pow2(lens[j] - lens[i]), Pow2(m - lens[j]);
    var x, y := Code(lens, i), Code(lens, j);
    Pow2Add(lens[j] - lens[i], m - lens[j]);
    assert y == y / d * d + y % d && 0 <= y % d < d;
    MulDistribute(x, 1, d);
    MulRegroup(x, d, q);
    MulRegroup(x + 1, d, q);
    MulLess(x * d, y, q);
    MulLess(y, (x + 1) * d, q);
  }

  /** Code `i` is not the start of any other code. */
  lemma PrefixFree(lens: seq<nat>, m: nat, i: nat, j: nat)
    requires i < |lens| && j < |lens| && i != j && Longest(lens, m) && 0 < lens[i] <= lens[j]
    ensures Code(lens, j) / Pow2(lens[j] - lens[i]) != Code(lens, i)
  {
    hide Code, Start, End, Below;
    if Code(lens, j) / Pow2(lens[j] - lens[i]) == Code(lens, i) {
      StartsInside(lens, m, i, j);
      PartBounds(lens, m, j);
      if Before(lens, i, j) {
        PartsInOrder(lens, m, i, j);
      } else {
        PartsInOrder(lens, m, j, i);
      }
    }
  }

  /** Codes that fit in their lengths have a Kraft sum of at most 1: the last of them ends there. */
  lemma FitsOnlyWithin(lens: seq<nat>, m: nat)
    requires Longest(lens, m) && forall i :: 0 <= i < |lens| && lens[i] > 0 ==> Code(lens, i) < Pow2(lens[i])
    ensures Kraft(lens, m) <= Pow2(m)
  {
    FitsUpTo(lens, m, m);
  }

  lemma {:induction false} FitsUpTo(lens: seq<nat>, m: nat, l: nat)
    requires l <= m && Longest(lens, m)
    requires forall i :: 0 <= i < |lens| && lens[i] > 0 ==> Code(lens, i) < Pow2(lens[i])
    ensures Below(lens, m, l + 1, |lens|) <= Pow2(m)
  {
    hide Below, Code, Count, Pow2;
    BelowNext(lens, m, l, |lens|);
    if l == 0 {
      BelowNone(lens, m, |lens|);
      NoZeroes(lens, |lens|);
    } else if Count(lens, l, |lens|) == 0 {
      FitsUpTo(lens, m, l - 1);
    } else {
      var i := LastOf(lens, l, |lens|);
      PartBounds(lens, m, i);
      MulDistribute(Count(lens, l, i), 1, Pow2(m - l));
      Pow2Add(l, m - l);
      MulLess(Code(lens, i) + 1, Pow2(l), Pow2(m - l));
    }
  }

  lemma {:induction false} NoZeroes(lens: seq<nat>, n: nat)
    requires n <= |lens|
    ensures Count(lens, 0, n) == 0
  {
    if n > 0 {
      NoZeroes(lens, n - 1);
    }
  }

  lemma {:induction false} LastOf(lens: seq<nat>, l: nat, n: nat) returns (i: nat)
    requires n <= |lens| && Count(lens, l, n) > 0
    ensures i < n && lens[i] == l > 0 && Count(lens, l, i) + 1 == Count(lens, l, n)
  {
    if lens[n - 1] == l && l > 0 {
      i := n - 1;
    } else {
      i := LastOf(lens, l, n - 1);
    }
  }
}
