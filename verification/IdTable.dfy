/**
 The run-length coded table of symbol code lengths, ITU-T T.88 section 7.4.3.1.7
 (tools/pdf-make-jbig2-tests.py, `id_table`), and its decoding.
 */
module IdTable {
  import opened Wrappers
  import opened ByteTypes
  import opened Powers
  import opened BitStrings
  import opened CanonicalCodes
  import opened HuffmanTables

  /** A code (32: repeat the one before, 33 and 34: zeros) and its extra bits. */
  datatype RunCode = RunCode(code: nat, extra: nat, width: nat)

  /** How many lengths from `i` on are `l`. */
  function RunLength(lens: seq<nat>, i: nat, l: nat): (r: nat)
    requires i <= |lens|
    ensures i + r <= |lens| && forall k :: i <= k < i + r ==> lens[k] == l
    decreases |lens| - i
  {
    if i == |lens| || lens[i] != l then 0 else 1 + RunLength(lens, i + 1, l)
  }

  function Min(a: nat, b: nat): nat {
    if a < b then a else b
  }

  /** How much of a run the next codes take. */
  function Take(l: nat, run: nat): (take: nat)
    requires run > 0
    ensures 0 < take <= run
  {
    if l == 0 && run >= 11 then Min(run, 138)
    else if l == 0 && run >= 3 then Min(run, 10)
    else if l > 0 && run >= 4 then Min(run, 7)
    else 1
  }

  function CodesFor(l: nat, run: nat): seq<RunCode>
    requires run > 0
  {
    if l == 0 && run >= 11 then [RunCode(34, Take(l, run) - 11, 7)]
    else if l == 0 && run >= 3 then [RunCode(33, Take(l, run) - 3, 3)]
    else if l > 0 && run >= 4 then [RunCode(l, 0, 0), RunCode(32, Take(l, run) - 4, 2)]
    else [RunCode(l, 0, 0)]
  }

  function Runs(lens: seq<nat>, i: nat): seq<RunCode>
    requires i <= |lens|
    decreases |lens| - i
  {
    if i == |lens| then []
    else
      var run := RunLength(lens, i, lens[i]);
      CodesFor(lens[i], run) + Runs(lens, i + Take(lens[i], run))
  }

  function Many(codes: seq<RunCode>, n: nat): seq<RunCode> {
    if n == 0 then [] else codes + Many(codes, n - 1)
  }

  /** The codes of a run: in full codes as long as they last, 138 zeros or seven of a length each, and then its rest. */
  function WholeRun(l: nat, n: nat): seq<RunCode> {
    if l == 0 then
      Many([RunCode(34, 127, 7)], n / 138)
      + var r: nat := n % 138;
        if r >= 11 then [RunCode(34, r - 11, 7)] else if r >= 3 then [RunCode(33, r - 3, 3)] else Many([RunCode(0, 0, 0)], r)
    else
      Many([RunCode(l, 0, 0), RunCode(32, 3, 2)], n / 7)
      + var r: nat := n % 7;
        if r >= 4 then [RunCode(l, 0, 0), RunCode(32, r - 4, 2)] else Many([RunCode(l, 0, 0)], r)
  }

  lemma {:induction false} RunTail(lens: seq<nat>, i: nat, l: nat, k: nat)
    requires i + k <= |lens| && k <= RunLength(lens, i, l)
    ensures RunLength(lens, i + k, l) == RunLength(lens, i, l) - k
    decreases k
  {
    if k > 0 {
      RunTail(lens, i + 1, l, k - 1);
    }
  }

  lemma WholeZeros(n: nat)
    requires n > 0
    ensures CodesFor(0, n) + WholeRun(0, n - Take(0, n)) == WholeRun(0, n)
  {
    if n >= 138 {
      DivModUnique(n - 138, n / 138 - 1, n % 138, 138);
      var code := [RunCode(34, 127, 7)];
      assert Many(code, n / 138) == code + Many(code, n / 138 - 1);
      hide Many;
    } else {
      DivModUnique(n, 0, n, 138);
      if n < 3 {
        DivModUnique(n - 1, 0, n - 1, 138);
      } else if n >= 11 {
        DivModUnique(0, 0, 0, 138);
      } else {
        DivModUnique(n - Take(0, n), 0, 0, 138);
      }
    }
  }

  lemma WholeSame(l: nat, n: nat)
    requires l > 0 && n > 0
    ensures CodesFor(l, n) + WholeRun(l, n - Take(l, n)) == WholeRun(l, n)
  {
    if n >= 7 {
      DivModUnique(n - 7, n / 7 - 1, n % 7, 7);
      var codes := [RunCode(l, 0, 0), RunCode(32, 3, 2)];
      assert Many(codes, n / 7) == codes + Many(codes, n / 7 - 1);
      hide Many;
    } else {
      WholeFew(l, n);
    }
  }

  lemma WholeFew(l: nat, n: nat)
    requires l > 0 && 0 < n < 7
    ensures CodesFor(l, n) + WholeRun(l, n - Take(l, n)) == WholeRun(l, n)
  {
    FewSame(l, n);
    FewSame(l, n - Take(l, n));
    hide WholeRun;
    if n < 4 {
      assert Many([RunCode(l, 0, 0)], n) == [RunCode(l, 0, 0)] + Many([RunCode(l, 0, 0)], n - 1);
    }
  }

  lemma FewSame(l: nat, n: nat)
    requires l > 0 && n < 7
    ensures WholeRun(l, n) == if n >= 4 then [RunCode(l, 0, 0), RunCode(32, n - 4, 2)] else Many([RunCode(l, 0, 0)], n)
  {
    DivModUnique(n, 0, n, 7);
  }

  /** The codes are those of the runs, one run after another. */
  lemma {:induction false} RunsAreRuns(lens: seq<nat>, i: nat, n: nat)
    requires i < |lens| && n == RunLength(lens, i, lens[i])
    ensures Runs(lens, i) == WholeRun(lens[i], n) + Runs(lens, i + n)
    decreases n
  {
    hide *;
    var l := lens[i];
    RunsStep(lens, i);
    var take := Take(l, n);
    WholeStep(l, n);
    RunTail(lens, i, l, take);
    if take < n {
      assert lens[i + take] == l;
      RunsAreRuns(lens, i + take, n - take);
      Regroup(CodesFor(l, n), WholeRun(l, n - take), Runs(lens, i + n));
    } else {
      NoneWhole(l);
      assert CodesFor(l, n) + [] == CodesFor(l, n);
    }
  }

  lemma Regroup(a: seq<RunCode>, b: seq<RunCode>, c: seq<RunCode>)
    ensures a + (b + c) == (a + b) + c
  {
  }

  lemma RunsStep(lens: seq<nat>, i: nat)
    requires i < |lens|
    ensures var n := RunLength(lens, i, lens[i]);
            n > 0 && Runs(lens, i) == CodesFor(lens[i], n) + Runs(lens, i + Take(lens[i], n))
  {
    hide CodesFor, Take;
  }

  lemma WholeStep(l: nat, n: nat)
    requires n > 0
    ensures CodesFor(l, n) + WholeRun(l, n - Take(l, n)) == WholeRun(l, n)
  {
    hide CodesFor, WholeRun, Take;
    if l == 0 {
      WholeZeros(n);
    } else {
      WholeSame(l, n);
    }
  }

  lemma NoneWhole(l: nat)
    ensures WholeRun(l, 0) == []
  {
  }

  method CountRun(lens: seq<nat>, i: nat) returns (run: nat)
    requires i < |lens|
    ensures run == RunLength(lens, i, lens[i]) > 0
  {
    var j := i;
    while j < |lens| && lens[j] == lens[i]
      invariant i <= j <= |lens| && j - i + RunLength(lens, j, lens[i]) == RunLength(lens, i, lens[i])
    {
      j := j + 1;
    }
    run := j - i;
  }

  method BuildRuns(lens: seq<nat>) returns (runs: seq<RunCode>)
    ensures runs == Runs(lens, 0)
  {
    hide RunLength, CodesFor, Take;
    runs := [];
    var i := 0;
    while i < |lens|
      invariant 0 <= i <= |lens| && runs + Runs(lens, i) == Runs(lens, 0)
    {
      var run := CountRun(lens, i);
      var codes, take := CodesFor(lens[i], run), Take(lens[i], run);
      assert runs + (codes + Runs(lens, i + take)) == (runs + codes) + Runs(lens, i + take);
      runs := runs + codes;
      i := i + take;
    }
  }

  // ---- Decoding the run codes -----------------------------------------------------------------

  function Repeat(l: nat, n: nat): (s: seq<nat>)
    ensures |s| == n
  {
    seq(n, _ => l)
  }

  /** The lengths so far and those a code adds; nothing if the code cannot be. */
  function Expand1(done: seq<nat>, code: nat, extra: nat): Option<seq<nat>> {
    if code < 32 then Some(done + [code])
    else if code == 32 then if done == [] then None else Some(done + Repeat(done[|done| - 1], extra + 3))
    else if code == 33 then Some(done + Repeat(0, extra + 3))
    else if code == 34 then Some(done + Repeat(0, extra + 11))
    else None
  }

  function Expand(done: seq<nat>, runs: seq<RunCode>): Option<seq<nat>>
    decreases |runs|
  {
    if runs == [] then Some(done)
    else
      match Expand1(done, runs[0].code, runs[0].extra)
      case None => None
      case Some(more) => Expand(more, runs[1..])
  }

  lemma {:induction false} ExpandConcat(done: seq<nat>, a: seq<RunCode>, b: seq<RunCode>)
    ensures Expand(done, a + b) == match Expand(done, a) case None => None case Some(more) => Expand(more, b)
    decreases |a|
  {
    if a == [] {
      assert a + b == b;
    } else {
      assert (a + b)[1..] == a[1..] + b;
      if Expand1(done, a[0].code, a[0].extra).Some? {
        ExpandConcat(Expand1(done, a[0].code, a[0].extra).value, a[1..], b);
      }
    }
  }

  lemma ExpandFew(done: seq<nat>, a: RunCode, b: RunCode)
    ensures Expand(done, [a]) == Expand1(done, a.code, a.extra)
    ensures Expand(done, [a, b]) == match Expand1(done, a.code, a.extra)
                                    case None => None
                                    case Some(more) => Expand1(more, b.code, b.extra)
  {
    hide Expand;
    ExpandOne(done, a);
    ExpandConcat(done, [a], [b]);
    assert [a] + [b] == [a, b];
    if Expand1(done, a.code, a.extra).Some? {
      ExpandOne(Expand1(done, a.code, a.extra).value, b);
    }
  }

  lemma ExpandOne(done: seq<nat>, a: RunCode)
    ensures Expand(done, [a]) == Expand1(done, a.code, a.extra)
  {
    assert [a][1..] == [];
  }

  lemma ExpandPart(lens: seq<nat>, i: nat)
    requires i < |lens| && lens[i] < 32
    ensures var run := RunLength(lens, i, lens[i]);
            Expand(lens[..i], CodesFor(lens[i], run)) == Some(lens[..i + Take(lens[i], run)])
  {
    hide Expand;
    var l := lens[i];
    var run := RunLength(lens, i, l);
    var take := Take(l, run);
    var codes := CodesFor(l, run);
    var done := lens[..i];
    assert lens[..i + take] == done + Repeat(l, take);
    ExpandFew(done, codes[0], codes[|codes| - 1]);
    if l > 0 && run >= 4 {
      var more := done + [l];
      assert more + Repeat(more[|more| - 1], take - 1) == done + Repeat(l, take);
    } else {
      assert Repeat(l, 1) == [l];
    }
  }

  /** Lengths of at most 31 come back from their run codes. */
  lemma {:induction false} ExpandBack(lens: seq<nat>, i: nat)
    requires i <= |lens| && forall k :: i <= k < |lens| ==> lens[k] < 32
    ensures Expand(lens[..i], Runs(lens, i)) == Some(lens)
    decreases |lens| - i
  {
    if i == |lens| {
      assert lens[..i] == lens;
    } else {
      hide CodesFor, Take, Expand, RunLength;
      var run := RunLength(lens, i, lens[i]);
      var next := i + Take(lens[i], run);
      assert Runs(lens, i) == CodesFor(lens[i], run) + Runs(lens, next);
      hide Runs;
      ExpandPart(lens, i);
      ExpandConcat(lens[..i], CodesFor(lens[i], run), Runs(lens, next));
      ExpandBack(lens, next);
    }
  }

  /** A code never adds less than it stands for, and adds more where it is a length above 31. */
  lemma ExpandPartLonger(done: seq<nat>, l: nat, run: nat)
    requires run > 0
    ensures var r := Expand(done, CodesFor(l, run));
            r.Some? ==> |r.value| >= |done| + Take(l, run) && (l > 31 ==> |r.value| > |done| + Take(l, run))
  {
    hide Expand;
    var codes := CodesFor(l, run);
    ExpandFew(done, codes[0], codes[|codes| - 1]);
  }

  lemma {:induction false} ExpandLonger(lens: seq<nat>, i: nat, done: seq<nat>)
    requires i <= |lens| && |done| >= i
    ensures var r := Expand(done, Runs(lens, i));
            r.Some? ==> |r.value| >= |lens| + |done| - i
                        && ((exists k :: i <= k < |lens| && lens[k] > 31) ==> |r.value| > |lens|)
    decreases |lens| - i
  {
    if i < |lens| {
      hide CodesFor, Take, Expand, RunLength;
      var run := RunLength(lens, i, lens[i]);
      var take := Take(lens[i], run);
      assert forall k :: i <= k < i + take ==> lens[k] == lens[i];
      assert Runs(lens, i) == CodesFor(lens[i], run) + Runs(lens, i + take);
      hide Runs;
      ExpandPartLonger(done, lens[i], run);
      ExpandConcat(done, CodesFor(lens[i], run), Runs(lens, i + take));
      var part := Expand(done, CodesFor(lens[i], run));
      if part.Some? {
        ExpandLonger(lens, i + take, part.value);
      }
    } else {
      assert Runs(lens, i) == [];
    }
  }

  /** The run codes give back the lengths exactly when none is above 31. */
  lemma RunsExactly(lens: seq<nat>)
    ensures Expand([], Runs(lens, 0)) == Some(lens) <==> forall k :: 0 <= k < |lens| ==> lens[k] <= 31
  {
    if forall k :: 0 <= k < |lens| ==> lens[k] <= 31 {
      assert lens[..0] == [];
      ExpandBack(lens, 0);
    } else {
      ExpandLonger(lens, 0, []);
    }
  }

  // ---- The table as bits ----------------------------------------------------------------------

  function CodesUsed(runs: seq<RunCode>): set<nat> {
    set r <- runs :: r.code
  }

  /** The least number of bits that tell `n` things apart. */
  function CeilLog2(n: nat): (r: nat)
    ensures n <= Pow2(r)
  {
    if n <= 1 then 0 else
      assert n <= 2 * ((n + 1) / 2);
      1 + CeilLog2((n + 1) / 2)
  }

  /** All codes used are of one length, at least 1. */
  function PrefixLength(runs: seq<RunCode>): (r: nat)
    ensures r >= 1
  {
    var n := |CodesUsed(runs)|;
    if CeilLog2(n) > 1 then CeilLog2(n) else 1
  }

  /** It is the least length, from 1 up, in which there are enough codes. */
  lemma PrefixLeast(runs: seq<RunCode>)
    ensures |CodesUsed(runs)| <= Pow2(PrefixLength(runs))
    ensures forall l: nat :: l >= 1 && |CodesUsed(runs)| <= Pow2(l) ==> PrefixLength(runs) <= l
  {
    hide CodesUsed;
    var n := |CodesUsed(runs)|;
    Pow2Monotone(CeilLog2(n), PrefixLength(runs));
    forall l: nat | l >= 1 && n <= Pow2(l)
      ensures PrefixLength(runs) <= l
    {
      CeilLog2AtMost(n, l);
    }
  }

  function RunLengths(runs: seq<RunCode>): (rl: seq<nat>)
    ensures |rl| == 35
  {
    seq(35, k => if k in CodesUsed(runs) then PrefixLength(runs) else 0)
  }

  /** There are codes for the first 35 numbers. */
  predicate AllWritable(runs: seq<RunCode>) {
    forall i :: 0 <= i < |runs| ==> runs[i].code < 35
  }

  /** The extra bits a decoder reads after a code. */
  function ExtraWidth(code: nat): nat {
    if code == 32 then 2 else if code == 33 then 3 else if code == 34 then 7 else 0
  }

  predicate Readable(r: RunCode) {
    r.code < 35 && r.width == ExtraWidth(r.code) && r.extra < Pow2(r.width)
  }

  predicate AllReadable(runs: seq<RunCode>) {
    forall i :: 0 <= i < |runs| ==> Readable(runs[i])
  }

  function RunBits(rl: seq<nat>, r: RunCode): seq<Bit>
    requires |rl| == 35 && r.code < 35
  {
    BitsOf(Code(rl, r.code), rl[r.code]) + BitsOf(r.extra, r.width)
  }

  function RunsBits(rl: seq<nat>, runs: seq<RunCode>): seq<Bit>
    requires |rl| == 35 && AllWritable(runs)
    decreases |runs|
  {
    if runs == [] then [] else RunBits(rl, runs[0]) + RunsBits(rl, runs[1..])
  }

  /** Thirty-five lengths of four bits each. */
  function LengthBits(rl: seq<nat>): seq<Bit> {
    if rl == [] then [] else BitsOf(rl[0], 4) + LengthBits(rl[1..])
  }

  /** The bits of the table, if there is a code for every run. */
  function TableBits(lens: seq<nat>): Option<seq<Bit>> {
    var runs := Runs(lens, 0);
    if AllWritable(runs) then Some(LengthBits(RunLengths(runs)) + RunsBits(RunLengths(runs), runs)) else None
  }

  /** There is exactly if no length is above 34. */
  lemma {:induction false} RunsWritable(lens: seq<nat>, i: nat)
    requires i <= |lens|
    ensures AllWritable(Runs(lens, i)) <==> forall k :: i <= k < |lens| ==> lens[k] <= 34
    decreases |lens| - i
  {
    if i < |lens| {
      var run := RunLength(lens, i, lens[i]);
      var take := Take(lens[i], run);
      RunsWritable(lens, i + take);
      CodesWritable(lens[i], run);
      WritableConcat(CodesFor(lens[i], run), Runs(lens, i + take));
      assert forall k :: i <= k < i + take ==> lens[k] == lens[i];
      hide CodesFor, Take, RunLength, AllWritable;
    }
  }

  lemma CodesWritable(l: nat, run: nat)
    requires run > 0
    ensures AllWritable(CodesFor(l, run)) <==> l <= 34
  {
    var codes := CodesFor(l, run);
    assert codes[0].code == l || l == 0;
  }

  lemma WritableConcat(a: seq<RunCode>, b: seq<RunCode>)
    ensures AllWritable(a + b) <==> AllWritable(a) && AllWritable(b)
  {
    assert forall i :: 0 <= i < |a| ==> (a + b)[i] == a[i];
    assert forall i :: 0 <= i < |b| ==> (a + b)[|a| + i] == b[i];
  }

  lemma {:induction false} RunsReadable(lens: seq<nat>, i: nat)
    requires i <= |lens| && forall k :: i <= k < |lens| ==> lens[k] <= 31
    ensures AllReadable(Runs(lens, i))
    decreases |lens| - i
  {
    if i < |lens| {
      hide Take, RunLength;
      var run := RunLength(lens, i, lens[i]);
      CodesReadable(lens[i], run);
      hide CodesFor, Readable;
      RunsReadable(lens, i + Take(lens[i], run));
    }
  }

  lemma CodesReadable(l: nat, run: nat)
    requires run > 0 && l <= 31
    ensures AllReadable(CodesFor(l, run))
  {
    Pow2Small();
  }

  method PutLengths(bw: Bits, rl: seq<nat>)
    requires bw.Valid()
    modifies bw
    ensures bw.Valid() && bw.Stream() == old(bw.Stream()) + LengthBits(rl)
  {
    hide bw.Stream, bw.Valid, BitsOf;
    ghost var goal := bw.Stream() + LengthBits(rl);
    for k := 0 to |rl|
      invariant bw.Valid() && bw.Stream() + LengthBits(rl[k..]) == goal
    {
      assert rl[k..][1..] == rl[k + 1..];
      bw.Put(rl[k], 4);
    }
  }

  method PutRuns(bw: Bits, rl: seq<nat>, codes: seq<nat>, runs: seq<RunCode>) returns (ok: bool)
    requires bw.Valid() && |rl| == |codes| == 35
    requires forall i :: 0 <= i < |runs| && runs[i].code < 35 ==> codes[runs[i].code] == Code(rl, runs[i].code)
    modifies bw
    ensures bw.Valid() && ok == AllWritable(runs)
    ensures ok ==> bw.Stream() == old(bw.Stream()) + RunsBits(rl, runs)
  {
    hide bw.Stream, bw.Valid, BitsOf, Code, RunsBits, RunBits, AllWritable;
    ghost var all := AllWritable(runs);
    ghost var goal := bw.Stream() + if all then RunsBits(rl, runs) else [];
    assert runs[0..] == runs;
    NoRunsBits(rl, runs[..0]);
    for i := 0 to |runs|
      invariant bw.Valid() && AllWritable(runs[..i])
      invariant all ==> AllWritable(runs[i..]) && bw.Stream() + RunsBits(rl, runs[i..]) == goal
    {
      WritableMore(runs, i);
      if runs[i].code >= 35 {
        return false;
      }
      if all {
        RunsBitsFirst(rl, runs, i, bw.Stream());
      }
      bw.Put(codes[runs[i].code], rl[runs[i].code]);
      bw.Put(runs[i].extra, runs[i].width);
    }
    ok := true;
    assert runs[..|runs|] == runs;
    if all {
      NoRunsBits(rl, runs[|runs|..]);
    }
  }

  lemma WritableMore(runs: seq<RunCode>, i: nat)
    requires i < |runs|
    ensures AllWritable(runs[..i]) && runs[i].code < 35 ==> AllWritable(runs[..i + 1])
    ensures runs[i].code >= 35 ==> !AllWritable(runs)
    ensures AllWritable(runs[i..]) ==> AllWritable(runs[i + 1..])
  {
    assert runs[i..][1..] == runs[i + 1..];
  }

  lemma RunsBitsFirst(rl: seq<nat>, runs: seq<RunCode>, i: nat, before: seq<Bit>)
    requires |rl| == 35 && i < |runs| && runs[i].code < 35 && AllWritable(runs[i..]) && AllWritable(runs[i + 1..])
    ensures var r := runs[i];
            before + RunsBits(rl, runs[i..])
            == ((before + BitsOf(Code(rl, r.code), rl[r.code])) + BitsOf(r.extra, r.width)) + RunsBits(rl, runs[i + 1..])
  {
    hide BitsOf, Code, AllWritable;
    assert runs[i..][1..] == runs[i + 1..];
  }

  lemma NoRunsBits(rl: seq<nat>, runs: seq<RunCode>)
    requires |rl| == 35 && runs == []
    ensures AllWritable(runs) && RunsBits(rl, runs) == []
  {
  }

  /** `id_table`: a length without a code is an index out of range. */
  method PutTable(bw: Bits, lens: seq<nat>) returns (ok: bool)
    requires bw.Valid()
    modifies bw
    ensures bw.Valid() && ok == TableBits(lens).Some?
    ensures ok ==> bw.Stream() == old(bw.Stream()) + TableBits(lens).value
  {
    hide bw.Stream, bw.Valid, Code, RunLengths, Runs, LengthBits, RunsBits;
    var runs := BuildRuns(lens);
    var rl := RunLengths(runs);
    RunLengthsLongest(runs);
    var codes := Assign(rl, PrefixLength(runs));
    forall i | 0 <= i < |runs| && runs[i].code < 35
      ensures codes[runs[i].code] == Code(rl, runs[i].code)
    {
      UsedLength(runs, i);
    }
    PutLengths(bw, rl);
    ok := PutRuns(bw, rl, codes, runs);
  }

  lemma RunLengthsLongest(runs: seq<RunCode>)
    ensures Longest(RunLengths(runs), PrefixLength(runs))
  {
  }

  lemma UsedLength(runs: seq<RunCode>, i: nat)
    requires i < |runs| && runs[i].code < 35
    ensures RunLengths(runs)[runs[i].code] == PrefixLength(runs)
  {
    assert runs[i] in runs;
  }

  // ---- Reading the table ----------------------------------------------------------------------

  function ReadLengths(bits: seq<Bit>, n: nat): (r: Option<(seq<nat>, seq<Bit>)>)
    ensures r.Some? ==> |r.value.0| == n
    decreases n
  {
    if n == 0 then Some(([], bits))
    else if |bits| < 4 then None
    else
      match ReadLengths(bits[4..], n - 1)
      case None => None
      case Some((rl, rest)) => Some(([Append(0, bits[..4])] + rl, rest))
  }

  /** Codes are read until they give as many lengths as there are symbols. */
  function ReadRuns(rl: seq<nat>, bits: seq<Bit>, n: nat, done: seq<nat>): Option<(seq<nat>, seq<Bit>)>
    decreases |bits|
  {
    if |done| >= n then Some((done, bits))
    else
      match ReadCode(rl, bits, 0, 0)
      case None => None
      case Some((code, rest)) =>
        var w := ExtraWidth(code);
        if |rest| < w || |rest| - w >= |bits| then None
        else
          match Expand1(done, code, Append(0, rest[..w]))
          case None => None
          case Some(more) => ReadRuns(rl, rest[w..], n, more)
  }

  function ReadTable(bits: seq<Bit>, n: nat): Option<(seq<nat>, seq<Bit>)> {
    match ReadLengths(bits, 35)
    case None => None
    case Some((rl, rest)) => ReadRuns(rl, rest, n, [])
  }

  lemma FourBits(l: nat)
    requires l < 16
    ensures Append(0, BitsOf(l, 4)) == l
  {
    AppendBits(0, l, 4);
    Pow2Small();
  }

  lemma {:induction false} ReadLengthsBack(rl: seq<nat>, rest: seq<Bit>)
    requires forall k :: 0 <= k < |rl| ==> rl[k] < 16
    ensures ReadLengths(LengthBits(rl) + rest, |rl|) == Some((rl, rest))
  {
    if rl == [] {
      assert LengthBits(rl) + rest == rest;
    } else {
      hide BitsOf, Append, Pow2;
      var first, below := BitsOf(rl[0], 4), LengthBits(rl[1..]) + rest;
      assert LengthBits(rl) + rest == first + below;
      assert (first + below)[..4] == first && (first + below)[4..] == below;
      FourBits(rl[0]);
      ReadLengthsBack(rl[1..], rest);
      assert [rl[0]] + rl[1..] == rl;
    }
  }

  /** Lengths only grow as codes are expanded. */
  lemma {:induction false} ExpandGrows(done: seq<nat>, runs: seq<RunCode>)
    ensures Expand(done, runs).Some? ==> |Expand(done, runs).value| >= |done| + |runs|
    decreases |runs|
  {
    if runs != [] && Expand1(done, runs[0].code, runs[0].extra).Some? {
      ExpandGrows(Expand1(done, runs[0].code, runs[0].extra).value, runs[1..]);
    }
  }

  lemma {:induction false} ReadRunsBack(rl: seq<nat>, runs: seq<RunCode>, done: seq<nat>, lens: seq<nat>, rest: seq<Bit>)
    requires |rl| == 35 && Decodable(rl) && AllReadable(runs)
    requires forall i :: 0 <= i < |runs| ==> rl[runs[i].code] > 0
    requires Expand(done, runs) == Some(lens)
    ensures ReadRuns(rl, RunsBits(rl, runs) + rest, |lens|, done) == Some((lens, rest))
    decreases |runs|
  {
    hide Decodable, BitsOf, Append, ReadCode, Code, Expand1, Pow2;
    var bits := RunsBits(rl, runs) + rest;
    if runs == [] {
      assert bits == rest;
    } else {
      ExpandGrows(done, runs);
      var r := runs[0];
      assert Readable(r);
      var code, extra := BitsOf(Code(rl, r.code), rl[r.code]), BitsOf(r.extra, r.width);
      var below := RunsBits(rl, runs[1..]) + rest;
      assert bits == code + (extra + below);
      ReadWholeCode(rl, r.code, extra + below);
      assert (extra + below)[..r.width] == extra && (extra + below)[r.width..] == below;
      AppendBits(0, r.extra, r.width);
      DivModUnique(r.extra, 0, r.extra, Pow2(r.width));
      ReadRunsBack(rl, runs[1..], Expand1(done, r.code, r.extra).value, lens, rest);
    }
  }

  function UsedUnder(runs: seq<RunCode>, k: nat): set<nat> {
    set c | c in CodesUsed(runs) && c < k
  }

  lemma {:induction false} UsedBelow(runs: seq<RunCode>, k: nat)
    requires k <= 35
    ensures var rl, p := RunLengths(runs), PrefixLength(runs);
            Longest(rl, p) && Below(rl, p, p + 1, k) == |UsedUnder(runs, k)|
  {
    var rl, p := RunLengths(runs), PrefixLength(runs);
    if k == 0 {
      assert UsedUnder(runs, k) == {};
    } else {
      UsedBelow(runs, k - 1);
      var before, all := UsedUnder(runs, k - 1), UsedUnder(runs, k);
      assert Pow2(0) == 1;
      if k - 1 in CodesUsed(runs) {
        assert all == before + {k - 1};
      } else {
        assert all == before;
      }
    }
  }

  /** The prefix length has room for every code used. */
  lemma RunLengthsDecodable(runs: seq<RunCode>)
    ensures Decodable(RunLengths(runs))
  {
    var rl, p := RunLengths(runs), PrefixLength(runs);
    UsedBelow(runs, 35);
    hide Below, RunLengths, CodesUsed, CeilLog2, Pow2;
    var used := UsedUnder(runs, 35);
    SubsetSmaller(used, CodesUsed(runs));
    Pow2Monotone(CeilLog2(|CodesUsed(runs)|), p);
    assert Longest(rl, p) && Kraft(rl, p) == |used| <= Pow2(p);
  }

  lemma {:induction false} SubsetSmaller(a: set<nat>, b: set<nat>)
    requires a <= b
    ensures |a| <= |b|
    decreases a
  {
    if a != {} {
      var x :| x in a;
      SubsetSmaller(a - {x}, b - {x});
    }
  }

  /** At most 35 codes need at most six bits, and four bits can say so. */
  lemma PrefixLengthFits(runs: seq<RunCode>)
    requires AllWritable(runs)
    ensures PrefixLength(runs) <= 6
  {
    var all := Numbers(35);
    assert CodesUsed(runs) <= all by {
      forall c | c in CodesUsed(runs)
        ensures c in all
      {
        var i :| 0 <= i < |runs| && runs[i].code == c;
      }
    }
    SubsetSmaller(CodesUsed(runs), all);
    Pow2Small();
    CeilLog2AtMost(|CodesUsed(runs)|, 6);
  }

  function Numbers(n: nat): (s: set<nat>)
    ensures |s| == n && forall c: nat :: c in s <==> c < n
  {
    if n == 0 then {} else Numbers(n - 1) + {n - 1}
  }

  lemma {:induction false} CeilLog2AtMost(n: nat, k: nat)
    requires n <= Pow2(k)
    ensures CeilLog2(n) <= k
    decreases n
  {
    if n > 1 {
      CeilLog2AtMost((n + 1) / 2, k - 1);
    }
  }

  /** No decoder comes to a length above 31. */
  lemma {:induction false} ReadRunsSmall(rl: seq<nat>, bits: seq<Bit>, n: nat, done: seq<nat>)
    requires forall k :: 0 <= k < |done| ==> done[k] <= 31
    ensures var r := ReadRuns(rl, bits, n, done); r.Some? ==> forall k :: 0 <= k < |r.value.0| ==> r.value.0[k] <= 31
    decreases |bits|
  {
    hide ReadCode, Append;
    if |done| < n {
      var c := ReadCode(rl, bits, 0, 0);
      if c.Some? {
        var (code, rest) := c.value;
        var w := ExtraWidth(code);
        if |rest| >= w && |rest| - w < |bits| {
          var more := Expand1(done, code, Append(0, rest[..w]));
          if more.Some? {
            ReadRunsSmall(rl, rest[w..], n, more.value);
          }
        }
      }
    }
  }

  /** The table read back, whatever follows it, is the lengths it was written for, exactly if none of them is above 31. */
  lemma TableRoundTrip(lens: seq<nat>, rest: seq<Bit>)
    requires TableBits(lens).Some?
    ensures ReadTable(TableBits(lens).value + rest, |lens|) == Some((lens, rest)) <==> forall k :: 0 <= k < |lens| ==> lens[k] <= 31
  {
    if forall k :: 0 <= k < |lens| ==> lens[k] <= 31 {
      TableBack(lens, rest);
    } else {
      var read := ReadLengths(TableBits(lens).value + rest, 35);
      if read.Some? {
        ReadRunsSmall(read.value.0, read.value.1, |lens|, []);
      }
    }
  }

  lemma TableBack(lens: seq<nat>, rest: seq<Bit>)
    requires forall k :: 0 <= k < |lens| ==> lens[k] <= 31
    ensures TableBits(lens).Some? && ReadTable(TableBits(lens).value + rest, |lens|) == Some((lens, rest))
  {
    hide Decodable, LengthBits, RunsBits, ReadLengths, ReadRuns, Runs, CodesUsed, Expand;
    var runs := Runs(lens, 0);
    var rl := RunLengths(runs);
    RunsWritable(lens, 0);
    RunsReadable(lens, 0);
    PrefixLengthFits(runs);
    RunLengthsDecodable(runs);
    RunsExactly(lens);
    forall i | 0 <= i < |runs|
      ensures rl[runs[i].code] > 0
    {
      UsedLength(runs, i);
    }
    assert TableBits(lens).value + rest == LengthBits(rl) + (RunsBits(rl, runs) + rest);
    ReadLengthsBack(rl, RunsBits(rl, runs) + rest);
    ReadRunsBack(rl, runs, [], lens, rest);
  }

  /** A single symbol whose code has 32 bits: its length is written, and read as a repetition of nothing. */
  lemma Length32Lost(rest: seq<Bit>)
    ensures TableBits([32]).Some? && ReadTable(TableBits([32]).value + rest, 1) != Some(([32], rest))
  {
    RunsWritable([32], 0);
    TableRoundTrip([32], rest);
    assert [32][0] > 31;
  }
}
