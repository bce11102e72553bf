/**
 The profile writer (src/main.cpp): the window's thread hands files over, a thread of the writer's own puts them on
 disk. The writer is a machine whose actions are what happens under the lock or between two locks, in any order the
 threads may take them.
 */
module ProfileWriter {
  import opened Wrappers

  type Path = string

  /** A text handed over, and which hand-over it was. */
  datatype Version<T> = Version(text: T, turn: nat)

  datatype Thread = Waiting | Writing | Ended

  /**
   `owed` is shared under the lock; `batch` is what the thread took and has not written; `failed` names the files whose
   last write failed; `log` is every hand-over so far.
   */
  datatype Writer<T> = Writer(owed: map<Path, Version<T>>, batch: map<Path, Version<T>>, disk: map<Path, Version<T>>,
                              failed: set<Path>, ending: bool, thread: Thread, log: seq<(Path, T)>)

  datatype Action<T> =
    | HandOver(path: Path, text: T)  // write(): only before the end, by the thread that will end it
    | End                            // the destructor sets the flag
    | Take                           // the thread wakes to something owed
    | WriteOne(path: Path)           // one file of the batch put in place
    | FailOne(path: Path)            // or not: the disk keeps what it had
    | FinishBatch
    | Finish                         // the thread wakes to the end with nothing owed

  function Started<T>(): Writer<T> { Writer(map[], map[], map[], {}, false, Waiting, []) }

  predicate Enabled<T>(w: Writer<T>, a: Action<T>) {
    match a
    case HandOver(_, _) => !w.ending
    case End => !w.ending
    case Take => w.thread == Waiting && w.owed != map[]
    case WriteOne(p) => w.thread == Writing && p in w.batch
    case FailOne(p) => w.thread == Writing && p in w.batch
    case FinishBatch => w.thread == Writing && w.batch == map[]
    case Finish => w.thread == Waiting && w.ending && w.owed == map[]
  }

  function Apply<T>(w: Writer<T>, a: Action<T>): Writer<T>
    requires Enabled(w, a)
  {
    match a
    case HandOver(p, t) => w.(owed := w.owed[p := Version(t, |w.log|)], log := w.log + [(p, t)])
    case End => w.(ending := true)
    case Take => w.(batch := w.owed, owed := map[], thread := Writing)
    case WriteOne(p) => w.(disk := w.disk[p := w.batch[p]], batch := w.batch - {p}, failed := w.failed - {p})
    case FailOne(p) => w.(batch := w.batch - {p}, failed := w.failed + {p})
    case FinishBatch => w.(thread := Waiting)
    case Finish => w.(thread := Ended)
  }

  /** v is the hand-over it says it is. */
  predicate Handed<T(==)>(log: seq<(Path, T)>, p: Path, v: Version<T>) {
    v.turn < |log| && log[v.turn] == (p, v.text)
  }

  /** The last that was handed over for p. */
  function Newest<T>(log: seq<(Path, T)>, p: Path): (v: Option<Version<T>>)
    decreases |log|
  {
    if log == [] then None
    else
      var n := |log| - 1;
      if log[n].0 == p then Some(Version(log[n].1, n)) else Newest(log[..n], p)
  }

  /** It is a hand-over for p with none for p after it; there is none only if nothing was handed over for p. */
  lemma {:induction false} NewestIs<T>(log: seq<(Path, T)>, p: Path)
    ensures match Newest(log, p)
            case None => forall j :: 0 <= j < |log| ==> log[j].0 != p
            case Some(v) => Handed(log, p, v) && forall j :: v.turn < j < |log| ==> log[j].0 != p
    decreases |log|
  {
    if log != [] {
      NewestIs(log[..|log| - 1], p);
    }
  }

  lemma NewestMore<T>(log: seq<(Path, T)>, q: Path, t: T, p: Path)
    ensures Newest(log + [(q, t)], p) == if p == q then Some(Version(t, |log|)) else Newest(log, p)
  {
    assert (log + [(q, t)])[..|log|] == log;
  }

  /** How the places a text can be in stand to each other, for one file: what is owed is newer than the batch, that than the disk. */
  ghost predicate InvAt<T>(w: Writer<T>, p: Path) {
    var newest := Newest(w.log, p);
    && (p in w.owed ==> newest == Some(w.owed[p]) && Handed(w.log, p, w.owed[p]))
    && (p in w.batch ==>
          && Handed(w.log, p, w.batch[p])
          && if p in w.owed then w.batch[p].turn < w.owed[p].turn else newest == Some(w.batch[p]))
    && (p in w.disk ==>
          && Handed(w.log, p, w.disk[p])
          && (p in w.owed ==> w.disk[p].turn < w.owed[p].turn)
          && (p in w.batch ==> w.disk[p].turn < w.batch[p].turn)
          && (p in w.owed || p in w.batch || p in w.failed || newest == Some(w.disk[p])))
    && (newest.Some? ==> p in w.owed || p in w.batch || p in w.failed || p in w.disk)
  }

  ghost predicate ThreadInv<T>(w: Writer<T>) {
    && (w.thread != Writing ==> w.batch == map[])
    && (w.thread == Ended ==> w.ending && w.owed == map[])
  }

  ghost predicate Inv<T>(w: Writer<T>) {
    ThreadInv(w) && forall p :: InvAt(w, p)
  }

  lemma StartedInv<T>()
    ensures Inv(Started<T>())
  {
  }

  lemma HandOverKeeps<T>(w: Writer<T>, q: Path, t: T, p: Path)
    requires InvAt(w, p) && !w.ending
    ensures InvAt(Apply(w, HandOver(q, t)), p)
  {
    NewestMore(w.log, q, t, p);
    hide Newest;
  }

  lemma TakeKeeps<T>(w: Writer<T>, p: Path)
    requires ThreadInv(w) && InvAt(w, p) && Enabled(w, Take)
    ensures InvAt(Apply(w, Take), p)
  {
    hide Newest, Handed;
  }

  lemma WriteKeeps<T>(w: Writer<T>, a: Action<T>, p: Path)
    requires InvAt(w, p) && Enabled(w, a) && (a.WriteOne? || a.FailOne?)
    ensures InvAt(Apply(w, a), p)
  {
    hide Newest, Handed;
  }

  lemma RestKeeps<T>(w: Writer<T>, a: Action<T>, p: Path)
    requires InvAt(w, p) && Enabled(w, a) && (a.End? || a.FinishBatch? || a.Finish?)
    ensures InvAt(Apply(w, a), p)
  {
    hide Newest, Handed;
  }

  lemma StepKeepsAt<T>(w: Writer<T>, a: Action<T>, p: Path)
    requires ThreadInv(w) && InvAt(w, p) && Enabled(w, a)
    ensures InvAt(Apply(w, a), p)
  {
    hide InvAt, Apply;
    match a
    case HandOver(q, t) => HandOverKeeps(w, q, t, p);
    case Take => TakeKeeps(w, p);
    case WriteOne(q) => WriteKeeps(w, a, p);
    case FailOne(q) => WriteKeeps(w, a, p);
    case End => RestKeeps(w, a, p);
    case FinishBatch => RestKeeps(w, a, p);
    case Finish => RestKeeps(w, a, p);
  }

  lemma ThreadKeeps<T>(w: Writer<T>, a: Action<T>)
    requires ThreadInv(w) && Enabled(w, a)
    ensures ThreadInv(Apply(w, a))
  {
  }

  /** Every action keeps the invariant, whichever thread's it is. */
  lemma StepKeeps<T>(w: Writer<T>, a: Action<T>)
    requires Inv(w) && Enabled(w, a)
    ensures Inv(Apply(w, a))
  {
    hide InvAt, Apply, ThreadInv, Enabled;
    ThreadKeeps(w, a);
    forall p
      ensures InvAt(Apply(w, a), p)
    {
      StepKeepsAt(w, a, p);
    }
  }

  /** A write that is done puts the batch's text for its file on disk; one that fails changes no file. Either leaves the rest. */
  lemma WriteIs<T>(w: Writer<T>, p: Path)
    requires Enabled(w, WriteOne(p)) && Enabled(w, FailOne(p))
    ensures var x := Apply(w, WriteOne(p));
            && p in x.disk && x.disk[p] == w.batch[p] && p !in x.failed && p !in x.batch
            && (forall q :: q != p ==> (q in x.disk <==> q in w.disk) && (q in x.disk ==> x.disk[q] == w.disk[q]))
            && (forall q :: q != p ==> (q in x.failed <==> q in w.failed) && (q in x.batch <==> q in w.batch))
            && x.owed == w.owed && x.log == w.log && x.ending == w.ending && x.thread == w.thread
    ensures var x := Apply(w, FailOne(p));
            && x.disk == w.disk && p in x.failed && p !in x.batch
            && (forall q :: q != p ==> (q in x.failed <==> q in w.failed) && (q in x.batch <==> q in w.batch))
            && x.owed == w.owed && x.log == w.log && x.ending == w.ending && x.thread == w.thread
  {
  }

  /** Whether the actions can be taken in turn. */
  predicate Possible<T>(w: Writer<T>, run: seq<Action<T>>)
    decreases |run|
  {
    run == [] || (Enabled(w, run[0]) && Possible(Apply(w, run[0]), run[1..]))
  }

  function After<T>(w: Writer<T>, run: seq<Action<T>>): Writer<T>
    requires Possible(w, run)
    decreases |run|
  {
    if run == [] then w else After(Apply(w, run[0]), run[1..])
  }

  lemma {:induction false} RunKeeps<T>(w: Writer<T>, run: seq<Action<T>>)
    requires Inv(w) && Possible(w, run)
    ensures Inv(After(w, run))
    decreases |run|
  {
    hide Inv, Apply, Enabled;
    if run != [] {
      StepKeeps(w, run[0]);
      RunKeeps(Apply(w, run[0]), run[1..]);
    }
  }

  /** Where a text is: owed, or else in the batch, or else on disk, unless its write failed. */
  predicate Kept<T(==)>(w: Writer<T>, p: Path, v: Version<T>) {
    if p in w.owed then w.owed[p] == v
    else if p in w.batch then w.batch[p] == v
    else p in w.failed || (p in w.disk && w.disk[p] == v)
  }

  /** Nothing is lost: at every point of every run, a text handed over for a file is kept, unless a later one was handed over for it. */
  lemma NothingLost<T>(run: seq<Action<T>>, p: Path, turn: nat)
    requires Possible(Started<T>(), run)
    requires turn < |After(Started<T>(), run).log| && After(Started<T>(), run).log[turn].0 == p
    ensures var w := After(Started<T>(), run);
            || (exists later :: turn < later < |w.log| && w.log[later].0 == p)
            || Kept(w, p, Version(w.log[turn].1, turn))
  {
    hide Possible, After, Newest;
    StartedInv<T>();
    RunKeeps(Started<T>(), run);
    assert InvAt(After(Started<T>(), run), p);
    NewestIs(After(Started<T>(), run).log, p);
  }

  /** Each file's contents follow the order of the hand-overs: one is never put over a later one, in any run. */
  lemma {:induction false} DiskFollows<T>(w: Writer<T>, run: seq<Action<T>>, p: Path)
    requires Inv(w) && Possible(w, run) && p in w.disk
    ensures var x := After(w, run); p in x.disk && Handed(x.log, p, x.disk[p]) && w.disk[p].turn <= x.disk[p].turn
    decreases |run|
  {
    hide InvAt, Apply, Enabled, Handed;
    if run == [] {
      DiskHanded(w, p);
    } else {
      DiskStep(w, run[0], p);
      StepKeeps(w, run[0]);
      DiskFollows(Apply(w, run[0]), run[1..], p);
    }
  }

  lemma DiskHanded<T>(w: Writer<T>, p: Path)
    requires Inv(w) && p in w.disk
    ensures Handed(w.log, p, w.disk[p])
  {
    hide Newest;
    assert InvAt(w, p);
  }

  lemma DiskStep<T>(w: Writer<T>, a: Action<T>, p: Path)
    requires Inv(w) && Enabled(w, a) && p in w.disk
    ensures var x := Apply(w, a); p in x.disk && w.disk[p].turn <= x.disk[p].turn
  {
    hide Newest, Handed;
    assert InvAt(w, p);
  }

  /** The thread ends only with nothing owed: then each file holds the newest text handed over for it. */
  lemma EndsPaid<T>(run: seq<Action<T>>, p: Path)
    requires Possible(Started<T>(), run) && After(Started<T>(), run).thread == Ended
    ensures var w := After(Started<T>(), run);
            var newest := Newest(w.log, p);
            && w.owed == map[] && w.batch == map[]
            && (newest.Some? ==> p in w.failed || (p in w.disk && w.disk[p] == newest.value))
  {
    hide Possible, After, Newest;
    StartedInv<T>();
    RunKeeps(Started<T>(), run);
    assert InvAt(After(Started<T>(), run), p);
  }

  lemma {:induction false} NoneFails<T>(w: Writer<T>, run: seq<Action<T>>)
    requires Possible(w, run) && w.failed == {} && forall i :: 0 <= i < |run| ==> !run[i].FailOne?
    ensures After(w, run).failed == {}
    decreases |run|
  {
    hide Enabled;
    if run != [] {
      NoneFails(Apply(w, run[0]), run[1..]);
    }
  }

  /** Where no write fails, all of it: when the thread has ended each file that was handed over holds its newest text. */
  lemma AllOnDisk<T>(run: seq<Action<T>>, p: Path)
    requires Possible(Started<T>(), run) && After(Started<T>(), run).thread == Ended
    requires forall i :: 0 <= i < |run| ==> !run[i].FailOne?
    ensures var w := After(Started<T>(), run);
            var newest := Newest(w.log, p);
            newest.Some? ==> p in w.disk && w.disk[p] == newest.value
  {
    hide Possible, After, Newest;
    NoneFails(Started<T>(), run);
    EndsPaid(run, p);
  }

  /** What the thread still has to do. */
  function Work<T>(w: Writer<T>): nat {
    4 * |w.owed| + 2 * |w.batch| + (match w.thread case Ended => 0 case Waiting => 1 case Writing => 2)
  }

  predicate OfThread<T>(a: Action<T>) {
    a.Take? || a.WriteOne? || a.FailOne? || a.FinishBatch? || a.Finish?
  }

  /** Ending the writer does not wait for ever: until the thread has ended it can act, and each of its acts leaves less to do. */
  lemma EndArrives<T>(w: Writer<T>)
    requires ThreadInv(w) && w.ending
    ensures w.thread != Ended ==> exists a: Action<T> :: OfThread(a) && Enabled(w, a)
    ensures forall a: Action<T> :: OfThread(a) && Enabled(w, a) ==> Work(Apply(w, a)) < Work(w)
  {
    if w.thread == Waiting {
      assert Enabled(w, if w.owed == map[] then Finish else Take);
    } else if w.thread == Writing {
      if w.batch == map[] {
        assert Enabled(w, FinishBatch);
      } else {
        var p :| p in w.batch;
        assert Enabled(w, WriteOne(p));
      }
    }
    forall a: Action<T> | OfThread(a) && Enabled(w, a)
      ensures Work(Apply(w, a)) < Work(w)
    {
      WorkFalls(w, a);
    }
  }

  lemma WorkFalls<T>(w: Writer<T>, a: Action<T>)
    requires ThreadInv(w) && OfThread(a) && Enabled(w, a)
    ensures Work(Apply(w, a)) < Work(w)
  {
    if a.WriteOne? || a.FailOne? {
      var rest := w.batch - {a.path};
      assert w.batch == rest[a.path := w.batch[a.path]];
    }
  }
}
