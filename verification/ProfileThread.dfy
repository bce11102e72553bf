/**
 ProfileWriter and save_profile as they are (src/main.cpp): a map filled under a lock, a thread that swaps it out and
 writes it, and the pass over the parts of the profile that decides what is handed over. What each piece of code between
 two locks does is an action, or a run of actions, of the machine in ProfileWriter.
 */
module ProfileThread {
  import opened Wrappers
  import opened ProfileWriter

  lemma {:induction false} RunMore<T>(w: Writer<T>, run: seq<Action<T>>, a: Action<T>)
    requires Possible(w, run) && Enabled(After(w, run), a)
    ensures Possible(w, run + [a]) && After(w, run + [a]) == Apply(After(w, run), a)
    decreases |run|
  {
    hide Enabled, Apply;
    if run == [] {
      var one := [a];
      assert run + [a] == one && one[1..] == [];
      assert Possible(Apply(w, a), []);
    } else {
      assert (run + [a])[1..] == run[1..] + [a];
      RunMore(Apply(w, run[0]), run[1..], a);
    }
  }

  /** A batch partly written: what is left of it is as it was, and each of the rest is on disk or failed. */
  ghost predicate PartWritten<T>(was: Writer<T>, now: Writer<T>) {
    && now.thread == Writing && now.owed == was.owed && now.ending == was.ending
    && (forall p :: p in now.batch ==> p in was.batch && now.batch[p] == was.batch[p])
    && (forall p :: p in was.batch ==> p in now.batch || p in now.failed || (p in now.disk && now.disk[p] == was.batch[p]))
  }

  lemma WriteOnePart<T>(was: Writer<T>, now: Writer<T>, a: Action<T>)
    requires PartWritten(was, now) && (a.WriteOne? || a.FailOne?) && Enabled(now, a)
    ensures PartWritten(was, Apply(now, a)) && |Apply(now, a).batch| < |now.batch|
  {
    var rest := now.batch - {a.path};
    assert now.batch == rest[a.path := now.batch[a.path]];
  }

  lemma NoRun<T>(w: Writer<T>)
    ensures Possible(w, []) && After(w, []) == w
  {
  }

  lemma BatchWhole<T>(w: Writer<T>)
    requires w.thread == Writing
    ensures PartWritten(w, w)
  {
  }

  lemma Now<T>(w: Writer<T>, path: Path, a: Action<T>)
    requires w.thread == Writing && path in w.batch && (a == WriteOne(path) || a == FailOne(path))
    ensures Enabled(w, a)
  {
  }

  lemma BatchDone<T>(was: Writer<T>, now: Writer<T>)
    requires PartWritten(was, now) && |now.batch| == 0
    ensures now.batch == map[] && now.owed == was.owed && now.ending == was.ending
    ensures Enabled(now, FinishBatch) && Apply(now, FinishBatch) == now.(thread := Waiting)
    ensures forall p :: p in was.batch ==> p in now.failed || (p in now.disk && now.disk[p] == was.batch[p])
  {
  }

  class Shared<T> {
    var owed: map<Path, Version<T>>
    var ending: bool
    var batch: map<Path, Version<T>>
    var disk: map<Path, Version<T>>
    var failed: set<Path>
    var thread: Thread
    var log: seq<(Path, T)>

    constructor ()
      ensures State() == Started<T>()
    {
      owed, batch, disk, failed, ending, thread, log := map[], map[], map[], {}, false, Waiting, [];
    }

    function State(): Writer<T>
      reads this
    {
      Writer(owed, batch, disk, failed, ending, thread, log)
    }

    /** write(): the last text handed over for a path stands for it. */
    method Write(path: Path, text: T)
      requires !ending
      modifies this
      ensures State() == Apply(old(State()), HandOver(path, text))
    {
      owed := owed[path := Version(text, |log|)];
      log := log + [(path, text)];
    }

    /** The end is told to the thread. */
    method SetEnding()
      requires !ending
      modifies this
      ensures State() == Apply(old(State()), End)
    {
      ending := true;
    }

    /** The thread woken, under the lock: it takes all that is owed, or ends. */
    method Wake()
      requires thread == Waiting && (ending || |owed| != 0)
      modifies this
      ensures Enabled(old(State()), if old(|owed|) == 0 then Finish else Take)
      ensures State() == Apply(old(State()), if old(|owed|) == 0 then Finish else Take)
    {
      if |owed| == 0 {
        thread := Ended;
        return;
      }
      batch, owed, thread := owed, map[], Writing;
    }

    /** One file of the batch, written beside itself and renamed; the write may fail. */
    method WriteFile(path: Path) returns (ok: bool)
      requires thread == Writing && path in batch
      modifies this
      ensures State() == Apply(old(State()), if ok then WriteOne(path) else FailOne(path))
    {
      ok := *;
      if ok {
        disk, failed := disk[path := batch[path]], failed - {path};
      } else {
        failed := failed + {path};
      }
      batch := batch - {path};
    }

    /** The batch, file by file. */
    method WriteBatch() returns (ghost run: seq<Action<T>>)
      requires thread == Writing
      modifies this
      ensures Possible(old(State()), run) && State() == After(old(State()), run)
      ensures thread == Waiting && batch == map[] && owed == old(owed) && ending == old(ending)
      ensures forall p :: p in old(batch) ==> p in failed || (p in disk && disk[p] == old(batch)[p])
    {
      hide Possible, After, Apply, Enabled, PartWritten;
      run := [];
      ghost var was := State();
      NoRun(was);
      BatchWhole(was);
      while |batch| != 0
        invariant PartWritten(was, State()) && thread == Writing
        invariant Possible(was, run) && After(was, run) == State()
        decreases |batch|
      {
        var path :| path in batch;
        ghost var before := State();
        var ok := WriteFile(path);
        ghost var a: Action<T> := if ok then WriteOne(path) else FailOne(path);
        Now(before, path, a);
        WriteOnePart(was, before, a);
        RunMore(was, run, a);
        run := run + [a];
      }
      ghost var last := State();
      BatchDone(was, last);
      RunMore(was, run, FinishBatch);
      run := run + [FinishBatch];
      thread := Waiting;
    }

    /** The thread's loop once the writer is ending and nothing more can be handed over: it ends, and owes nothing. */
    method RunToEnd()
      requires ending && thread == Waiting
      modifies this
      ensures thread == Ended && owed == map[]
      ensures forall p :: p in old(owed) ==> p in failed || (p in disk && disk[p] == old(owed)[p])
    {
      ghost var was := owed;
      while true
        invariant ending && thread == Waiting
        invariant owed == was || (|owed| == 0 && forall p :: p in was ==> p in failed || (p in disk && disk[p] == was[p]))
        decreases |owed|
      {
        Wake();
        if thread == Ended {
          return;
        }
        ghost var run := WriteBatch();
      }
    }

    /** The destructor: the flag, and the wait for the thread, wherever it is. */
    method Close()
      requires !ending && thread != Ended
      modifies this
      ensures thread == Ended && owed == map[]
      ensures forall p :: p in old(owed) ==> p in failed || (p in disk && disk[p] == old(owed)[p])
    {
      SetEnding();
      if thread == Writing {
        ghost var run := WriteBatch();
      }
      RunToEnd();
    }
  }

  /** One hand-over after another. */
  function HandAll<T>(w: Writer<T>, items: seq<Item<T>>): (r: Writer<T>)
    requires !w.ending
    ensures !r.ending
    decreases |items|
  {
    if items == [] then w
    else
      var i := items[|items| - 1];
      Apply(HandAll(w, items[..|items| - 1]), HandOver(i.path, i.text))
  }

  lemma HandAllMore<T>(w: Writer<T>, items: seq<Item<T>>, i: Item<T>)
    requires !w.ending
    ensures HandAll(w, items + [i]) == Apply(HandAll(w, items), HandOver(i.path, i.text))
  {
    assert (items + [i])[..|items|] == items;
  }

  /** A part of the profile as one pass of save_profile finds it: its file, what says whether it changed, and its text. */
  datatype Item<T> = Item(path: Path, mark: nat, text: T)

  predicate Differs<T>(saved: map<Path, nat>, i: Item<T>) { i.path !in saved || saved[i.path] != i.mark }

  /** The parts that changed, in their order. */
  function Changed<T>(saved: map<Path, nat>, items: seq<Item<T>>): seq<Item<T>>
    decreases |items|
  {
    if items == [] then []
    else
      var n := |items| - 1;
      Changed(saved, items[..n]) + if Differs(saved, items[n]) then [items[n]] else []
  }

  ghost predicate Distinct<T>(items: seq<Item<T>>) {
    forall i, j :: 0 <= i < j < |items| ==> items[i].path != items[j].path
  }

  /** The marks with these items' put in. */
  function Marked<T>(saved: map<Path, nat>, items: seq<Item<T>>): map<Path, nat>
    decreases |items|
  {
    if items == [] then saved
    else Marked(saved, items[..|items| - 1])[items[|items| - 1].path := items[|items| - 1].mark]
  }

  lemma ChangedMore<T>(saved: map<Path, nat>, items: seq<Item<T>>, k: nat)
    requires k < |items|
    ensures Changed(saved, items[..k + 1]) == Changed(saved, items[..k]) + if Differs(saved, items[k]) then [items[k]] else []
  {
    assert items[..k + 1][..k] == items[..k];
  }

  lemma MarkedMore<T>(saved: map<Path, nat>, items: seq<Item<T>>, x: Item<T>)
    ensures Marked(saved, items + [x]) == Marked(saved, items)[x.path := x.mark]
  {
    assert (items + [x])[..|items|] == items;
  }

  /** After k of the items: those count as saved, the others are as they were. */
  ghost predicate MarkedUpTo<T>(was: map<Path, nat>, saved: map<Path, nat>, items: seq<Item<T>>, k: nat)
    requires k <= |items|
  {
    && (forall i :: 0 <= i < k ==> !Differs(saved, items[i]))
    && (forall i :: k <= i < |items| ==> Differs(saved, items[i]) == Differs(was, items[i]))
  }

  lemma MarkedOneMore<T>(was: map<Path, nat>, saved: map<Path, nat>, items: seq<Item<T>>, k: nat)
    requires k < |items| && Distinct(items) && MarkedUpTo(was, saved, items, k)
    ensures MarkedUpTo(was, saved[items[k].path := items[k].mark], items, k + 1)
    ensures !Differs(saved, items[k]) ==> MarkedUpTo(was, saved, items, k + 1)
  {
  }

  lemma AsBefore<T>(was: map<Path, nat>, saved: map<Path, nat>, items: seq<Item<T>>, k: nat)
    requires k < |items| && MarkedUpTo(was, saved, items, k)
    ensures Differs(saved, items[k]) == Differs(was, items[k])
  {
  }

  lemma InFirst<T>(items: seq<Item<T>>, i: Item<T>)
    requires items != []
    ensures i in items <==> i in items[..|items| - 1] || i == items[|items| - 1]
  {
    assert items == items[..|items| - 1] + [items[|items| - 1]];
  }

  /** Exactly the items whose mark is not the saved one. */
  lemma {:induction false} ChangedExactly<T>(saved: map<Path, nat>, items: seq<Item<T>>, i: Item<T>)
    ensures i in Changed(saved, items) <==> i in items && (i.path !in saved || saved[i.path] != i.mark)
    decreases |items|
  {
    if items != [] {
      ChangedExactly(saved, items[..|items| - 1], i);
      InFirst(items, i);
    }
  }

  lemma ApartFromLast<T>(items: seq<Item<T>>, i: Item<T>)
    requires items != [] && Distinct(items) && i in items[..|items| - 1]
    ensures i.path != items[|items| - 1].path
  {
    var k :| 0 <= k < |items| - 1 && items[..|items| - 1][k] == i;
    assert items[k].path == i.path;
  }

  /** Each once, in the order they are in. */
  lemma {:induction false} ChangedInOrder<T>(saved: map<Path, nat>, items: seq<Item<T>>)
    requires Distinct(items)
    ensures Distinct(Changed(saved, items)) && InOrderOf(Changed(saved, items), items)
    decreases |items|
  {
    if items != [] {
      var n := |items| - 1;
      var c := Changed(saved, items[..n]);
      ChangedInOrder(saved, items[..n]);
      forall j | 0 <= j < |c|
        ensures c[j] in items[..n] && c[j].path != items[n].path
      {
        ChangedExactly(saved, items[..n], c[j]);
        ApartFromLast(items, c[j]);
      }
      assert Changed(saved, items) == c + [items[n]] || Changed(saved, items) == c;
      hide Changed, InOrderOf;
      LastInOrder(c, items, n);
      FewerInOrder(c, items, n);
    }
  }

  /** Of two, the one that is first in the one list is first in the other. */
  ghost predicate InOrderOf<T>(c: seq<Item<T>>, items: seq<Item<T>>) {
    forall j, k, p, q :: 0 <= j < k < |c| && 0 <= p < |items| && 0 <= q < |items| && items[p] == c[j] && items[q] == c[k] ==> p < q
  }

  lemma FewerInOrder<T>(c: seq<Item<T>>, items: seq<Item<T>>, n: nat)
    requires n == |items| - 1 && InOrderOf(c, items[..n])
    requires forall j :: 0 <= j < |c| ==> c[j] in items[..n] && c[j].path != items[n].path
    ensures InOrderOf(c, items)
  {
    forall j, k, p, q | 0 <= j < k < |c| && 0 <= p < |items| && 0 <= q < |items| && items[p] == c[j] && items[q] == c[k]
      ensures p < q
    {
      assert p < n && q < n;
      assert items[..n][p] == c[j] && items[..n][q] == c[k];
    }
  }

  lemma LastInOrder<T>(c: seq<Item<T>>, items: seq<Item<T>>, n: nat)
    requires n == |items| - 1 && InOrderOf(c, items[..n]) && Distinct(items)
    requires forall j :: 0 <= j < |c| ==> c[j] in items[..n] && c[j].path != items[n].path
    ensures InOrderOf(c + [items[n]], items)
  {
    var d := c + [items[n]];
    FewerInOrder(c, items, n);
    forall j, k, p, q | 0 <= j < k < |d| && 0 <= p < |items| && 0 <= q < |items| && items[p] == d[j] && items[q] == d[k]
      ensures p < q
    {
      assert d[j] == c[j];
      if k < |c| {
        assert d[k] == c[k];
      }
    }
  }

  /** Marking changes no mark but those of the items' files. */
  lemma {:induction false} MarkedOthers<T>(saved: map<Path, nat>, items: seq<Item<T>>, p: Path)
    requires forall i :: i in items ==> i.path != p
    ensures var m := Marked(saved, items); (p in m <==> p in saved) && (p in m ==> m[p] == saved[p])
    decreases |items|
  {
    if items != [] {
      MarkedOthers(saved, items[..|items| - 1], p);
    }
  }

  /** Those are the items' marks then. */
  lemma {:induction false} MarkedExactly<T>(saved: map<Path, nat>, items: seq<Item<T>>, i: Item<T>)
    requires Distinct(items) && i in items
    ensures var m := Marked(saved, items); i.path in m && m[i.path] == i.mark
    decreases |items|
  {
    InFirst(items, i);
    if i != items[|items| - 1] {
      MarkedExactly(saved, items[..|items| - 1], i);
      ApartFromLast(items, i);
    }
  }

  /** The marks of files that are none of these are as they were. */
  ghost predicate OthersKept<T>(was: map<Path, nat>, saved: map<Path, nat>, handed: seq<Item<T>>) {
    forall p :: (p in was || p in saved) && (forall i :: i in handed ==> i.path != p) ==> p in was && p in saved && saved[p] == was[p]
  }

  lemma MarkedAre<T>(saved: map<Path, nat>, items: seq<Item<T>>)
    requires Distinct(items)
    ensures var m := Marked(saved, items);
            && (forall i :: i in items ==> i.path in m && m[i.path] == i.mark)
            && OthersKept(saved, m, items)
  {
    hide Marked, Distinct;
    forall i | i in items
      ensures i.path in Marked(saved, items) && Marked(saved, items)[i.path] == i.mark
    {
      MarkedExactly(saved, items, i);
    }
    forall p | forall i :: i in items ==> i.path != p
      ensures var m := Marked(saved, items); (p in m <==> p in saved) && (p in m ==> m[p] == saved[p])
    {
      MarkedOthers(saved, items, p);
    }
  }

  /** Hand-overs only add to what is owed and to the log. */
  lemma {:induction false} HandAllLogs<T>(w: Writer<T>, items: seq<Item<T>>)
    requires !w.ending
    ensures var x, n := HandAll(w, items), |w.log|;
            && x.batch == w.batch && x.disk == w.disk && x.failed == w.failed && x.thread == w.thread
            && |x.log| == n + |items| && x.log[..n] == w.log
            && (forall k :: 0 <= k < |items| ==> x.log[n + k] == (items[k].path, items[k].text))
    decreases |items|
  {
    if items != [] {
      HandAllLogs(w, items[..|items| - 1]);
    }
  }

  /** A hand-over: its file is owed it, and it is the newest; other files are as they were. */
  lemma HandOne<T>(w: Writer<T>, q: Path, text: T, p: Path)
    requires !w.ending
    ensures var x := Apply(w, HandOver(q, text));
            if p == q then p in x.owed && x.owed[p] == Version(text, |w.log|) && Newest(x.log, p) == Some(Version(text, |w.log|))
            else (p in x.owed <==> p in w.owed) && (p in x.owed ==> x.owed[p] == w.owed[p]) && Newest(x.log, p) == Newest(w.log, p)
  {
    NewestMore(w.log, q, text, p);
    hide Newest;
  }

  lemma {:induction false} OthersOwed<T>(w: Writer<T>, items: seq<Item<T>>, p: Path)
    requires !w.ending && forall k :: 0 <= k < |items| ==> items[k].path != p
    ensures var x := HandAll(w, items);
            (p in x.owed <==> p in w.owed) && (p in x.owed ==> x.owed[p] == w.owed[p]) && Newest(x.log, p) == Newest(w.log, p)
    decreases |items|
  {
    hide Apply, Newest;
    if items != [] {
      var m := |items| - 1;
      OthersOwed(w, items[..m], p);
      HandOne(HandAll(w, items[..m]), items[m].path, items[m].text, p);
    }
  }

  /** Each is then owed, and the newest of its file. */
  lemma {:induction false} HandAllOwes<T>(w: Writer<T>, items: seq<Item<T>>, k: nat)
    requires !w.ending && Distinct(items) && k < |items|
    ensures var x, p, v := HandAll(w, items), items[k].path, Version(items[k].text, |w.log| + k);
            p in x.owed && x.owed[p] == v && Newest(x.log, p) == Some(v)
    decreases |items|
  {
    hide Apply, Newest;
    var m := |items| - 1;
    HandAllLogs(w, items[..m]);
    HandOne(HandAll(w, items[..m]), items[m].path, items[m].text, items[k].path);
    if k < m {
      HandAllOwes(w, items[..m], k);
    }
  }

  /** All of that, for every file. */
  lemma HandAllExactly<T>(w: Writer<T>, items: seq<Item<T>>)
    requires !w.ending && Distinct(items)
    ensures Logged(w.log, HandAll(w, items).log, items)
  {
    HandAllLogs(w, items);
    hide HandAll, Newest;
    forall k | 0 <= k < |items|
      ensures Newest(HandAll(w, items).log, items[k].path) == Some(Version(items[k].text, |w.log| + k))
    {
      HandAllOwes(w, items, k);
    }
  }

  /**
   A pass that is made hands over exactly the parts whose mark is not the saved one, once each and in order, after which every
   part's mark is saved; one that is not made says exactly whether there is such a part. No other mark changes.
   */
  ghost predicate Saves<T>(was: map<Path, nat>, saved: map<Path, nat>, items: seq<Item<T>>, made: bool, throttled: bool, owed: bool,
                           handed: seq<Item<T>>)
  {
    && (forall i :: i in items ==> (i in handed <==> made && (i.path !in was || was[i.path] != i.mark)))
    && (forall i :: i in handed ==> i in items) && Distinct(handed) && InOrderOf(handed, items)
    && (made ==> forall i :: i in items ==> i.path in saved && saved[i.path] == i.mark)
    && OthersKept(was, saved, handed)
    && (owed <==> throttled && exists i :: i in items && (i.path !in was || was[i.path] != i.mark))
  }

  /** The hand-overs are logged in order, after those before, and each is the newest of its file. */
  ghost predicate Logged<T>(was: seq<(Path, T)>, log: seq<(Path, T)>, handed: seq<Item<T>>) {
    && |log| == |was| + |handed| && log[..|was|] == was
    && forall k :: 0 <= k < |handed| ==>
         && log[|was| + k] == (handed[k].path, handed[k].text)
         && Newest(log, handed[k].path) == Some(Version(handed[k].text, |was| + k))
  }

  class Saver<T> {
    var saved: map<Path, nat>
    var lastWrite: int

    constructor (start: int)
      ensures saved == map[] && lastWrite == start
    {
      saved, lastWrite := map[], start;
    }

    /** The parts, one after another. */
    method Parts(writer: Shared<T>, items: seq<Item<T>>, now: int, throttled: bool) returns (owed: bool, handed: seq<Item<T>>)
      requires Distinct(items) && !writer.ending
      modifies this, writer
      ensures !writer.ending && writer.State() == HandAll(old(writer.State()), handed)
      ensures handed == if throttled then [] else Changed(old(saved), items)
      ensures owed <==> throttled && Changed(old(saved), items) != []
      ensures saved == Marked(old(saved), handed)
      ensures lastWrite == if handed == [] then old(lastWrite) else now
    {
      hide Changed, Marked, Differs, MarkedUpTo, HandAll, Apply;
      ghost var before := writer.State();
      owed, handed := false, [];
      ghost var was := saved;
      Nothing(was, items);
      HandNone(before);
      assert items[..0] == [];
      for k := 0 to |items|
        invariant handed == if throttled then [] else Changed(was, items[..k])
        invariant owed <==> throttled && Changed(was, items[..k]) != []
        invariant owed || MarkedUpTo(was, saved, items, k)
        invariant saved == Marked(was, handed)
        invariant !writer.ending && writer.State() == HandAll(before, handed)
        invariant lastWrite == if handed == [] then old(lastWrite) else now
      {
        ChangedMore(was, items, k);
        Nothing(was, items);
        if !owed {
          MarkedOneMore(was, saved, items, k);
          AsBefore(was, saved, items, k);
        }
        MarkedMore(was, handed, items[k]);
        if Differs(saved, items[k]) {
          if throttled {
            owed := true;
          } else {
            HandAllMore(before, handed, items[k]);
            writer.Write(items[k].path, items[k].text);
            handed := handed + [items[k]];
            saved := saved[items[k].path := items[k].mark];
            lastWrite := now;
          }
        }
      }
      assert items[..|items|] == items;
    }

    /**
     save_profile: with no profile nothing; within a second of the last write nothing but the news of what is owed; else every
     part whose mark is not the saved one is handed over, in order, and after that every part counts as saved.
     */
    method Save(writer: Shared<T>, hasProfile: bool, items: seq<Item<T>>, now: int, regardless: bool)
      returns (owed: bool, handed: seq<Item<T>>)
      requires Distinct(items) && !writer.ending
      modifies this, writer
      ensures !writer.ending && writer.State() == HandAll(old(writer.State()), handed)
      ensures Logged(old(writer.log), writer.log, handed)
      ensures var throttled := !regardless && now - old(lastWrite) < 1000;
              Saves(old(saved), saved, items, hasProfile && !throttled, hasProfile && throttled, owed, handed)
      ensures lastWrite == if handed == [] then old(lastWrite) else now
    {
      hide Saves, Logged, Changed, Marked, HandAll, Newest;
      ghost var before, was := writer.State(), saved;
      owed, handed := false, [];
      var throttled := !regardless && now - lastWrite < 1000;
      if hasProfile {
        owed, handed := Parts(writer, items, now, throttled);
        SavedExactly(was, saved, items, handed, throttled, owed);
      } else {
        HandNone(before);
        NoneSaved(was, items);
      }
      HandAllExactly(before, handed);
      ghost var after := writer.State();
      assert after.log == writer.log && before.log == old(writer.log);
    }
  }

  lemma NoneSaved<T>(was: map<Path, nat>, items: seq<Item<T>>)
    ensures Saves<T>(was, was, items, false, false, false, []) && Distinct<T>([])
  {
  }

  lemma HandNone<T>(w: Writer<T>)
    requires !w.ending
    ensures HandAll(w, []) == w
  {
  }

  lemma Nothing<T>(was: map<Path, nat>, items: seq<Item<T>>)
    ensures Changed<T>(was, []) == [] && Marked<T>(was, []) == was && MarkedUpTo(was, was, items, 0)
  {
  }

  lemma NotMade<T>(was: map<Path, nat>, items: seq<Item<T>>)
    ensures Saves(was, was, items, false, true, Changed(was, items) != [], []) && Distinct<T>([])
  {
    ChangedSome(was, items);
    hide Changed;
  }

  lemma Made<T>(was: map<Path, nat>, items: seq<Item<T>>)
    requires Distinct(items)
    ensures var c := Changed(was, items); Saves(was, Marked(was, c), items, true, false, false, c) && Distinct(c)
  {
    var c := Changed(was, items);
    ChangedInOrder(was, items);
    ChangedAre(was, items);
    MarkedAre(was, c);
    hide *;
    MadeWith(was, Marked(was, c), items, c);
  }

  lemma MadeWith<T>(was: map<Path, nat>, saved: map<Path, nat>, items: seq<Item<T>>, c: seq<Item<T>>)
    requires Distinct(items) && Distinct(c) && InOrderOf(c, items) && OthersKept(was, saved, c)
    requires forall i :: i in c <==> i in items && (i.path !in was || was[i.path] != i.mark)
    requires forall i :: i in c ==> i.path in saved && saved[i.path] == i.mark
    ensures Saves(was, saved, items, true, false, false, c)
  {
    hide Distinct, InOrderOf, OthersKept;
    AllSaved(was, saved, items, c);
  }

  /** What the pass comes to, mark by mark. */
  lemma SavedExactly<T>(was: map<Path, nat>, saved: map<Path, nat>, items: seq<Item<T>>, handed: seq<Item<T>>, throttled: bool, owed: bool)
    requires Distinct(items) && saved == Marked(was, handed)
    requires handed == (if throttled then [] else Changed(was, items)) && (owed <==> throttled && Changed(was, items) != [])
    ensures Saves(was, saved, items, !throttled, throttled, owed, handed) && Distinct(handed)
  {
    Nothing(was, items);
    hide *;
    if throttled {
      NotMade(was, items);
    } else {
      Made(was, items);
    }
  }

  lemma ChangedAre<T>(was: map<Path, nat>, items: seq<Item<T>>)
    ensures forall i :: i in Changed(was, items) <==> i in items && (i.path !in was || was[i.path] != i.mark)
  {
    forall i
      ensures i in Changed(was, items) <==> i in items && (i.path !in was || was[i.path] != i.mark)
    {
      ChangedExactly(was, items, i);
    }
  }

  lemma ChangedSome<T>(was: map<Path, nat>, items: seq<Item<T>>)
    ensures Changed(was, items) != [] <==> exists i :: i in items && (i.path !in was || was[i.path] != i.mark)
  {
    ChangedAre(was, items);
    if Changed(was, items) != [] {
      var i := Changed(was, items)[0];
      assert i in Changed(was, items);
      ChangedExactly(was, items, i);
    }
  }

  lemma AllSaved<T>(was: map<Path, nat>, saved: map<Path, nat>, items: seq<Item<T>>, handed: seq<Item<T>>)
    requires Distinct(items)
    requires forall i :: i in handed <==> i in items && (i.path !in was || was[i.path] != i.mark)
    requires forall i :: i in handed ==> i.path in saved && saved[i.path] == i.mark
    requires OthersKept(was, saved, handed)
    ensures forall i :: i in items ==> i.path in saved && saved[i.path] == i.mark
  {
    forall i | i in items
      ensures i.path in saved && saved[i.path] == i.mark
    {
      if i !in handed {
        OthersApart(items, handed, i);
      }
    }
  }

  lemma OthersApart<T>(items: seq<Item<T>>, handed: seq<Item<T>>, i: Item<T>)
    requires Distinct(items) && i in items && i !in handed && forall h :: h in handed ==> h in items
    ensures forall h :: h in handed ==> h.path != i.path
  {
    forall h | h in handed
      ensures h.path != i.path
    {
      var j :| 0 <= j < |items| && items[j] == h;
      var k :| 0 <= k < |items| && items[k] == i;
    }
  }
}
