/**
 How save_profile (src/main.cpp) knows what is saved: counters of changes, read before or after the text is made, while
 page threads go on changing. A machine over the window's thread, the page threads and the writer.
 */
module ProfileChanges {
  import opened Wrappers
  import opened ProfileWriter

  /** What a text holds, as the numbers of the changes in it. */
  type Changes = set<nat>

  function Below(n: nat): (r: Changes)
    ensures forall i: nat :: i in r <==> i < n
  {
    if n == 0 then {} else Below(n - 1) + {n - 1}
  }

  lemma BelowMore(m: nat, n: nat)
    requires m <= n
    ensures Below(m) <= Below(n)
  {
  }

  /** A part of the profile: how many changes it has had, and how many are counted as saved. */
  datatype Part = Part(count: nat, saved: nat)

  /** Where the window's thread is in save_profile, for the part it is at; `count` is what it read before making the text. */
  datatype Saver =
    | Idle
    | Counted(path: Path, count: Option<nat>)
    | Making(path: Path, count: Option<nat>, begun: nat)
    | Made(path: Path, count: Option<nat>, begun: nat, text: Changes)
    | Handed(path: Path, count: Option<nat>, begun: nat)

  /**
   `late` are the parts whose counter is read after the text (the bookmarks); `ownThread` says that those are changed by the
   window's thread alone.
   */
  datatype Profile = Profile(parts: map<Path, Part>, late: set<Path>, ownThread: bool, saver: Saver, writer: Writer<Changes>)

  datatype Act =
    | Change(path: Path)      // by any thread, at any time
    | Count(path: Path)       // the window's thread finds a part changed
    | Begin                   // and begins its text,
    | Make(text: Changes)     // which holds all there was when it was begun, and nothing that is not yet there
    | Hand                    // and hands it over
    | Store                   // and marks it saved
    | Writers(act: Action<Changes>)

  predicate Can(s: Profile, a: Act) {
    match a
    case Change(p) => p in s.parts && (p in s.late && s.ownThread ==> s.saver.Idle?)
    case Count(p) => s.saver.Idle? && !s.writer.ending && p in s.parts && s.parts[p].count != s.parts[p].saved
    case Begin => s.saver.Counted? && s.saver.path in s.parts
    case Make(text) =>
      && s.saver.Making? && s.saver.path in s.parts
      && Below(s.saver.begun) <= text <= Below(s.parts[s.saver.path].count)
    case Hand => s.saver.Made? && !s.writer.ending
    case Store => s.saver.Handed? && s.saver.path in s.parts
    case Writers(b) => !b.HandOver? && Enabled(s.writer, b) && (b.End? ==> s.saver.Idle?)
  }

  function Do(s: Profile, a: Act): Profile
    requires Can(s, a)
  {
    match a
    case Change(p) => s.(parts := s.parts[p := s.parts[p].(count := s.parts[p].count + 1)])
    case Count(p) => s.(saver := Counted(p, if p in s.late then None else Some(s.parts[p].count)))
    case Begin => s.(saver := Making(s.saver.path, s.saver.count, s.parts[s.saver.path].count))
    case Make(text) => s.(saver := Made(s.saver.path, s.saver.count, s.saver.begun, text))
    case Hand =>
      s.(writer := Apply(s.writer, HandOver(s.saver.path, s.saver.text)),
         saver := Handed(s.saver.path, s.saver.count, s.saver.begun))
    case Store =>
      var part := s.parts[s.saver.path];
      s.(parts := s.parts[s.saver.path := part.(saved := if s.saver.count.Some? then s.saver.count.value else part.count)],
         saver := Idle)
    case Writers(b) => s.(writer := Apply(s.writer, b))
  }

  predicate Begins(s: Profile) {
    s.saver.Idle? && s.writer == Started<Changes>() && forall p :: p in s.parts ==> s.parts[p] == Part(0, 0)
  }

  /** Whether the last text handed over for p holds the first n changes. */
  predicate Holds(s: Profile, p: Path, n: nat) {
    n == 0 || match Newest(s.writer.log, p) case None => false case Some(v) => Below(n) <= v.text
  }

  /** Parts whose counter tells the truth. */
  predicate Sound(s: Profile, p: Path) { p in s.parts && (p in s.late ==> s.ownThread) }

  predicate SaverInv(s: Profile, p: Path)
    requires p in s.parts
  {
    var part := s.parts[p];
    s.saver.Idle? || s.saver.path != p ||
    match s.saver
    case Counted(_, c) => (c.None? <==> p in s.late) && (c.Some? ==> part.saved <= c.value <= part.count)
    case Making(_, c, begun) => Reading(s, p, c, begun)
    case Made(_, c, begun, text) => Reading(s, p, c, begun) && Below(begun) <= text
    case Handed(_, c, begun) => Reading(s, p, c, begun) && Holds(s, p, begun)
  }

  predicate Reading(s: Profile, p: Path, c: Option<nat>, begun: nat)
    requires p in s.parts
  {
    var part := s.parts[p];
    && part.saved <= begun <= part.count
    && (if c.Some? then part.saved <= c.value <= begun else p in s.late && begun == part.count)
  }

  /** What is counted as saved is in the last text handed over. */
  predicate Saved(s: Profile, p: Path) {
    Sound(s, p) ==> SaverInv(s, p) && s.parts[p].saved <= s.parts[p].count && Holds(s, p, s.parts[p].saved)
  }

  lemma HoldsLess(s: Profile, p: Path, m: nat, n: nat)
    requires Holds(s, p, n) && m <= n
    ensures Holds(s, p, m)
  {
    BelowMore(m, n);
  }

  lemma HoldsMore(s: Profile, q: Path, text: Changes, p: Path, n: nat)
    requires Can(s, Hand) && s.saver.text == text && s.saver.path == q
    requires if p == q then Below(n) <= text else Holds(s, p, n)
    ensures Holds(Do(s, Hand), p, n)
  {
    NewestMore(s.writer.log, q, text, p);
    hide Below, Newest;
  }

  lemma WritersKeep(s: Profile, b: Action<Changes>, p: Path)
    requires Can(s, Writers(b)) && Saved(s, p)
    ensures Saved(Do(s, Writers(b)), p)
  {
    hide Newest, Below;
    assert Do(s, Writers(b)).writer.log == s.writer.log;
  }

  lemma HandKeeps(s: Profile, p: Path)
    requires Can(s, Hand) && Saved(s, p)
    ensures Saved(Do(s, Hand), p)
  {
    if Sound(s, p) {
      var q, text := s.saver.path, s.saver.text;
      BelowMore(s.parts[p].saved, if s.saver.path == p then s.saver.begun else s.parts[p].saved);
      HoldsMore(s, q, text, p, s.parts[p].saved);
      if p == q {
        HoldsMore(s, q, text, p, s.saver.begun);
      }
    }
    hide Holds;
  }

  lemma StoreKeeps(s: Profile, p: Path)
    requires Can(s, Store) && Saved(s, p)
    ensures Saved(Do(s, Store), p)
  {
    var t := Do(s, Store);
    if Sound(s, p) {
      assert Holds(t, p, s.parts[p].saved) by { assert t.writer == s.writer; }
      if s.saver.path == p {
        HoldsLess(s, p, t.parts[p].saved, s.saver.begun);
      }
    }
    hide Newest, Below;
  }

  lemma OthersKeep(s: Profile, a: Act, p: Path)
    requires Can(s, a) && Saved(s, p) && !a.Writers? && !a.Hand? && !a.Store?
    ensures Saved(Do(s, a), p)
  {
    hide Newest, Below;
    assert Do(s, a).writer == s.writer;
    assert forall n: nat :: Holds(s, p, n) ==> Holds(Do(s, a), p, n);
    hide Holds;
  }

  lemma StepSaved(s: Profile, a: Act, p: Path)
    requires Can(s, a) && Saved(s, p)
    ensures Saved(Do(s, a), p)
  {
    hide Saved, Do;
    match a
    case Writers(b) => WritersKeep(s, b, p);
    case Hand => HandKeeps(s, p);
    case Store => StoreKeeps(s, p);
    case _ => OthersKeep(s, a, p);
  }

  predicate CanRun(s: Profile, run: seq<Act>)
    decreases |run|
  {
    run == [] || (Can(s, run[0]) && CanRun(Do(s, run[0]), run[1..]))
  }

  function AfterRun(s: Profile, run: seq<Act>): Profile
    requires CanRun(s, run)
    decreases |run|
  {
    if run == [] then s else AfterRun(Do(s, run[0]), run[1..])
  }

  lemma {:induction false} RunSaved(s: Profile, run: seq<Act>, p: Path)
    requires CanRun(s, run) && Saved(s, p) && Inv(s.writer)
    ensures Saved(AfterRun(s, run), p) && Inv(AfterRun(s, run).writer)
    ensures AfterRun(s, run).late == s.late && AfterRun(s, run).ownThread == s.ownThread
    ensures AfterRun(s, run).parts.Keys == s.parts.Keys
    decreases |run|
  {
    hide Saved, Inv, Can;
    if run != [] {
      StepSaved(s, run[0], p);
      WriterStep(s, run[0]);
      RunSaved(Do(s, run[0]), run[1..], p);
    }
  }

  lemma WriterStep(s: Profile, a: Act)
    requires Can(s, a) && Inv(s.writer)
    ensures Inv(Do(s, a).writer) && Do(s, a).late == s.late && Do(s, a).ownThread == s.ownThread
    ensures Do(s, a).parts.Keys == s.parts.Keys
  {
    hide Inv, Apply;
    match a
    case Hand => StepKeeps(s.writer, HandOver(s.saver.path, s.saver.text));
    case Writers(b) => StepKeeps(s.writer, b);
    case _ =>
  }

  lemma BeginsSaved(s: Profile, p: Path)
    requires Begins(s)
    ensures Saved(s, p) && Inv(s.writer)
  {
    StartedInv<Changes>();
  }

  /**
   Saved means held: whatever the threads do in whatever order, a part that counts as saved has every one of its changes in
   the last text handed over for it.
   */
  lemma SavedMeansHeld(s: Profile, run: seq<Act>, p: Path)
    requires Begins(s) && CanRun(s, run) && Sound(s, p)
    ensures var t := AfterRun(s, run); p in t.parts && (t.parts[p].saved == t.parts[p].count ==> Holds(t, p, t.parts[p].count))
  {
    hide AfterRun, CanRun, Holds, Inv, SaverInv;
    BeginsSaved(s, p);
    RunSaved(s, run, p);
  }

  /** And when the writer has been ended and its thread has gone, all of them are on disk, unless the write failed. */
  lemma EndedMeansOnDisk(s: Profile, run: seq<Act>, p: Path)
    requires Begins(s) && CanRun(s, run) && Sound(s, p)
    requires AfterRun(s, run).writer.thread == Ended
    requires p in AfterRun(s, run).parts && AfterRun(s, run).parts[p].saved == AfterRun(s, run).parts[p].count > 0
    ensures var t := AfterRun(s, run);
            p in t.writer.failed || (p in t.writer.disk && Below(t.parts[p].count) <= t.writer.disk[p].text)
  {
    hide AfterRun, CanRun, SaverInv, Newest, ProfileWriter.Handed;
    var t := AfterRun(s, run);
    SavedMeansHeld(s, run, p);
    BeginsSaved(s, p);
    RunSaved(s, run, p);
    assert InvAt(t.writer, p);
  }

  /** One pass over a part that changed: its steps can all be taken, and it counts as saved with all of its changes handed over. */
  lemma PassSaves(s: Profile, p: Path)
    requires s.saver.Idle? && !s.writer.ending && p in s.parts && s.parts[p].count != s.parts[p].saved
    ensures var n := s.parts[p].count;
            var run := [Count(p), Begin, Make(Below(n)), Hand, Store];
            && CanRun(s, run)
            && var t := AfterRun(s, run);
            && t.parts == s.parts[p := Part(n, n)] && t.saver.Idle? && t.late == s.late && t.ownThread == s.ownThread
            && t.writer.log == s.writer.log + [(p, Below(n))] && p in t.writer.owed && t.writer.owed[p].text == Below(n)
  {
    hide Below;
    var n := s.parts[p].count;
    var s1 := Do(s, Count(p));
    var s2 := Do(s1, Begin);
    var s3 := Do(s2, Make(Below(n)));
    var s4 := Do(s3, Hand);
    var s5 := Do(s4, Store);
    var r4, r3, r2, r1: seq<Act> := [Store], [Hand, Store], [Make(Below(n)), Hand, Store], [Begin, Make(Below(n)), Hand, Store];
    var run := [Count(p), Begin, Make(Below(n)), Hand, Store];
    assert r4[1..] == [] && r3[1..] == r4 && r2[1..] == r3 && r1[1..] == r2 && run[1..] == r1;
    assert CanRun(s5, []) && AfterRun(s5, []) == s5;
    assert CanRun(s4, r4) && AfterRun(s4, r4) == s5;
    assert CanRun(s3, r3) && AfterRun(s3, r3) == s5;
    assert CanRun(s2, r2) && AfterRun(s2, r2) == s5;
    assert CanRun(s1, r1) && AfterRun(s1, r1) == s5;
  }

  /** A change is one more that is not saved, and touches no other part. */
  lemma ChangeIs(s: Profile, p: Path)
    requires Can(s, Change(p))
    ensures var t := Do(s, Change(p));
            && t.parts.Keys == s.parts.Keys && t.parts[p] == Part(s.parts[p].count + 1, s.parts[p].saved)
            && (forall q :: q in s.parts && q != p ==> t.parts[q] == s.parts[q])
            && t.saver == s.saver && t.writer == s.writer
  {
  }

  /** The run that shows why the counter is read first where page threads may change a part. */
  function LateRun(p: Path): seq<Act> { [Change(p), Count(p), Begin, Make({0}), Change(p), Hand, Store] }

  function LateProfile(p: Path): Profile { Profile(map[p := Part(0, 0)], {p}, false, Idle, Started<Changes>()) }

  /** The states along that run. */
  function LateState(p: Path, i: nat): Profile
    requires i <= 7
  {
    var part := map[p := if i == 0 then Part(0, 0) else if i < 5 then Part(1, 0) else if i < 7 then Part(2, 0) else Part(2, 2)];
    var saver := if i < 2 || i == 7 then Idle else if i == 2 then Counted(p, None) else if i == 3 then Making(p, None, 1)
                 else if i < 6 then Made(p, None, 1, {0}) else Handed(p, None, 1);
    var w := Started<Changes>();
    Profile(part, {p}, false, saver, if i < 6 then w else w.(owed := map[p := Version({0}, 0)], log := [(p, {0})]))
  }

  lemma LateStep(p: Path, i: nat)
    requires i < 7
    ensures var s, a := LateState(p, i), LateRun(p)[i]; Can(s, a) && Do(s, a) == LateState(p, i + 1)
  {
    var s := LateState(p, i);
    if i == 3 {
      BelowOne();
    }
    hide Below;
    if i == 5 {
      assert [] + [(p, {0})] == LateState(p, 6).writer.log;
    }
  }

  lemma BelowOne()
    ensures Below(1) == {0} && Below(0) == {}
  {
  }

  lemma {:induction false} LateWalk(p: Path, i: nat)
    requires i <= 7
    ensures var s, run := LateState(p, i), LateRun(p)[i..]; CanRun(s, run) && AfterRun(s, run) == LateState(p, 7)
    decreases 7 - i
  {
    if i < 7 {
      LateStep(p, i);
      LateWalk(p, i + 1);
      hide Can, Do, LateState;
      var run := LateRun(p);
      assert run[i..][0] == run[i] && run[i..][1..] == run[i + 1..];
      hide LateRun;
    }
  }

  /** Read after the text, with another thread changing the part in between: it counts as saved, and its last change is in no text. */
  lemma CounterAfterLoses(p: Path)
    ensures var s := LateProfile(p);
            && Begins(s) && CanRun(s, LateRun(p))
            && var t := AfterRun(s, LateRun(p));
            && p in t.parts && t.parts[p].saved == t.parts[p].count && !Holds(t, p, t.parts[p].count)
  {
    LateWalk(p, 0);
    assert LateRun(p)[0..] == LateRun(p);
    hide CanRun, AfterRun, LateRun;
    assert LateState(p, 7).writer.log == [(p, {0})];
    assert Newest([(p, {0})], p) == Some(Version({0}, 0));
    assert 1 in Below(2) && 1 !in {0};
  }
}
