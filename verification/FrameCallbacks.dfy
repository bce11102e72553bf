/**
 Animation-frame callbacks (src/bindings/Animations.cpp): the queue that request and cancel change and an update runs, as a
 machine, since a callback may ask for frames and cancel them while it runs.
 */
module FrameCallbacks {
  import opened Wrappers
  import opened Orders

  datatype Callback = Callback(id: nat, owner: nat)

  /** A callback run, and by which update. */
  datatype Ran = Ran(id: nat, update: nat)

  /**
   `nextId` numbers timers too; `updates` counts the rendering updates begun; `left` is what the update now on has yet to
   look at; `born` says for each callback how many updates had begun when it was asked for. A realm ends, or is discarded
   with its page.
   */
  datatype Page = Page(queue: seq<Callback>, nextId: nat, updates: nat, left: Option<seq<nat>>, ended: set<nat>,
                       discarded: set<nat>, ran: seq<Ran>, born: map<nat, nat>)

  datatype Act =
    | Request(owner: nat)
    | Timer                            // another taker of numbers
    | Cancel(owner: nat, id: nat)
    | End(owner: nat)
    | Discard(owner: nat)
    | Unload(owner: nat)               // its document unloads, or it is destroyed: what it asked for is dropped
    | Sweep                            // an update first drops the callbacks of realms that ended
    | Begin                            // and notes the callbacks there are
    | Next                             // then takes the next of them, and runs it if it is still there and its realm too
    | Stop                             // the interpreter was terminated while one ran
    | Finish

  function Opened(): Page { Page([], 1, 0, None, {}, {}, [], map[]) }

  function Find(q: seq<Callback>, id: nat): Option<Callback>
    decreases |q|
  {
    if q == [] then None else if q[0].id == id then Some(q[0]) else Find(q[1..], id)
  }

  /** The queue less the callback of a number, if it is an owner's; of any owner if none is said. */
  function Less(q: seq<Callback>, id: nat, owner: Option<nat>): seq<Callback>
    decreases |q|
  {
    if q == [] then []
    else (if q[0].id == id && (owner == None || owner == Some(q[0].owner)) then [] else [q[0]]) + Less(q[1..], id, owner)
  }

  function Living(q: seq<Callback>, gone: set<nat>): seq<Callback>
    decreases |q|
  {
    if q == [] then [] else (if q[0].owner in gone then [] else [q[0]]) + Living(q[1..], gone)
  }

  function Ids(q: seq<Callback>): (s: seq<nat>)
    ensures |s| == |q| && forall i :: 0 <= i < |q| ==> s[i] == q[i].id
  {
    seq(|q|, i requires 0 <= i < |q| => q[i].id)
  }

  predicate Can(p: Page, a: Act) {
    match a
    case Sweep => p.left == None
    case Begin => p.left == None
    case Next => p.left.Some? && p.left.value != []
    case Stop => p.left.Some?
    case Finish => p.left == Some([])
    case _ => true
  }

  function Do(p: Page, a: Act): Page
    requires Can(p, a)
  {
    match a
    case Request(owner) =>
      p.(queue := p.queue + [Callback(p.nextId, owner)], nextId := p.nextId + 1, born := p.born[p.nextId := p.updates])
    case Timer => p.(nextId := p.nextId + 1)
    case Cancel(owner, id) => p.(queue := Less(p.queue, id, Some(owner)))
    case End(owner) => p.(ended := p.ended + {owner})
    case Discard(owner) => p.(discarded := p.discarded + {owner})
    case Unload(owner) => p.(queue := Living(p.queue, {owner}))
    case Sweep => p.(queue := Living(p.queue, p.ended))
    case Begin => p.(left := Some(Ids(p.queue)), updates := p.updates + 1)
    case Next =>
      var id, rest := p.left.value[0], p.left.value[1..];
      var found := Find(p.queue, id);
      if found == None then p.(left := Some(rest))
      else
        var q := p.(left := Some(rest), queue := Less(p.queue, id, None));
        if found.value.owner in p.ended + p.discarded then q else q.(ran := p.ran + [Ran(id, p.updates)])
    case Stop => p.(left := None)
    case Finish => p.(left := None)
  }

  predicate CanRun(p: Page, run: seq<Act>)
    decreases |run|
  {
    run == [] || (Can(p, run[0]) && CanRun(Do(p, run[0]), run[1..]))
  }

  function After(p: Page, run: seq<Act>): Page
    requires CanRun(p, run)
    decreases |run|
  {
    if run == [] then p else After(Do(p, run[0]), run[1..])
  }

  ghost predicate QueueRises(q: seq<Callback>) { forall i, j :: 0 <= i < j < |q| ==> q[i].id < q[j].id }

  ghost predicate RanRises(s: seq<Ran>) { forall i, j :: 0 <= i < j < |s| ==> s[i].id < s[j].id }

  function LastRan(p: Page): int { if p.ran == [] then -1 else p.ran[|p.ran| - 1].id }

  /** The queue is in the order of asking, and all in it later than all that ran. */
  ghost predicate OrderInv(p: Page) {
    && QueueRises(p.queue) && RanRises(p.ran) && LastRan(p) < p.nextId
    && forall c :: c in p.queue ==> LastRan(p) < c.id < p.nextId
  }

  /** The later asked for, the later the update it was asked in. */
  ghost predicate BornInv(p: Page) {
    && (forall c :: c in p.queue ==> c.id in p.born)
    && (forall id :: id in p.born ==> p.born[id] <= p.updates && id < p.nextId)
    && (forall id, jd :: id in p.born && jd in p.born && id < jd ==> p.born[id] <= p.born[jd])
    && (forall r :: r in p.ran ==> r.id in p.born && p.born[r.id] < r.update <= p.updates)
  }

  /** What an update has left was asked for before it; what is in the queue besides was asked for during it. */
  ghost predicate LeftInv(p: Page) {
    p.left.Some? ==>
      && Rising(p.left.value)
      && (forall id :: id in p.left.value ==> id in p.born && p.born[id] < p.updates)
      && (forall c :: c in p.queue ==> c.id in p.left.value || (c.id in p.born && p.born[c.id] == p.updates))
  }

  ghost predicate Inv(p: Page) { OrderInv(p) && BornInv(p) && LeftInv(p) }

  lemma {:induction false} LessIs(q: seq<Callback>, id: nat, owner: Option<nat>)
    ensures forall c :: c in Less(q, id, owner) <==> c in q && !(c.id == id && (owner == None || owner == Some(c.owner)))
    ensures QueueRises(q) ==> QueueRises(Less(q, id, owner))
    decreases |q|
  {
    if q != [] {
      LessIs(q[1..], id, owner);
      Thinned(q, Less(q[1..], id, owner));
    }
  }

  lemma {:induction false} LivingIs(q: seq<Callback>, gone: set<nat>)
    ensures forall c :: c in Living(q, gone) <==> c in q && c.owner !in gone
    ensures QueueRises(q) ==> QueueRises(Living(q, gone))
    decreases |q|
  {
    if q != [] {
      LivingIs(q[1..], gone);
      Thinned(q, Living(q[1..], gone));
    }
  }

  lemma Thinned(q: seq<Callback>, t: seq<Callback>)
    requires q != []
    ensures forall c :: c in q <==> c == q[0] || c in q[1..]
    ensures QueueRises(q) ==> QueueRises(q[1..])
    ensures QueueRises(q) && QueueRises(t) && (forall c :: c in t ==> c in q[1..]) ==> QueueRises([q[0]] + t)
  {
    assert q == [q[0]] + q[1..];
    assert QueueRises(q) ==> QueueRises(q[1..]);
    if QueueRises(q) && QueueRises(t) && forall c :: c in t ==> c in q[1..] {
      ThinnedRises(q, t);
    }
  }

  /** As of numbers, so of callbacks by their numbers. */
  lemma ThinnedRises(q: seq<Callback>, t: seq<Callback>)
    requires q != [] && QueueRises(q) && QueueRises(t) && forall c :: c in t ==> c in q[1..]
    ensures QueueRises([q[0]] + t)
  {
    QueueIds(q);
    QueueIds(t);
    hide QueueRises, Rising;
    forall y | y in Ids(t)
      ensures y in Ids(q)[1..]
    {
      var j :| 0 <= j < |Ids(t)| && Ids(t)[j] == y;
      assert t[j] in t;
      var k :| 0 <= k < |q[1..]| && q[1..][k] == t[j];
      assert Ids(q)[1..][k] == y;
    }
    Headed(Ids(q), Ids(t));
    assert [Ids(q)[0]] + Ids(t) == Ids([q[0]] + t);
    QueueIds([q[0]] + t);
  }

  lemma QueueIds(q: seq<Callback>)
    ensures QueueRises(q) <==> Rising(Ids(q))
  {
    assert forall i :: 0 <= i < |q| ==> Ids(q)[i] == q[i].id;
  }

  lemma {:induction false} FindIs(q: seq<Callback>, id: nat)
    ensures match Find(q, id)
            case None => forall c :: c in q ==> c.id != id
            case Some(c) => c in q && c.id == id
    decreases |q|
  {
    if q != [] {
      FindIs(q[1..], id);
      assert q == [q[0]] + q[1..];
    }
  }

  /** In a queue in order a number is one callback's. */
  lemma OneOfId(q: seq<Callback>, c: Callback, d: Callback)
    requires QueueRises(q) && c in q && d in q && c.id == d.id
    ensures c == d
  {
    var i :| 0 <= i < |q| && q[i] == c;
    var j :| 0 <= j < |q| && q[j] == d;
  }

  lemma NextKeeps(p: Page)
    requires Can(p, Next) && Inv(p)
    ensures Inv(Do(p, Next))
  {
    var id, rest := p.left.value[0], p.left.value[1..];
    FindIs(p.queue, id);
    LessIs(p.queue, id, None);
    assert p.left.value == [id] + rest;
    hide Find, Less;
    var x := Do(p, Next);
    forall d | d in rest
      ensures id < d
    {
      var k :| 0 <= k < |rest| && rest[k] == d;
      assert p.left.value[k + 1] == d;
    }
    hide OrderInv, BornInv, LeftInv, QueueRises;
    NextOrder(p, x, id);
    NextLeft(p, x, id, rest);
  }

  lemma NextOrder(p: Page, x: Page, id: nat)
    requires Inv(p) && p.left.Some? && id in p.left.value && forall d :: d in p.left.value && d != id ==> id < d
    requires QueueRises(x.queue) && x.nextId == p.nextId && x.born == p.born && x.updates == p.updates
    requires forall c :: c in x.queue ==> c in p.queue && c.id != id
    requires x.ran == p.ran || (x.ran == p.ran + [Ran(id, p.updates)] && exists c :: c in p.queue && c.id == id)
    ensures OrderInv(x) && BornInv(x)
  {
    assert x.ran != p.ran ==> LastRan(p) < id && LastRan(x) == id;
    forall c | c in x.queue && x.ran != p.ran
      ensures id < c.id
    {
      assert c in p.queue;
      if c.id !in p.left.value {
        assert p.born[c.id] == p.updates && p.born[id] < p.updates;
      }
    }
    forall i, j | 0 <= i < j < |x.ran|
      ensures x.ran[i].id < x.ran[j].id
    {
      if j == |p.ran| {
        assert p.ran[i].id <= LastRan(p);
      }
    }
  }

  lemma NextLeft(p: Page, x: Page, id: nat, rest: seq<nat>)
    requires Inv(p) && p.left == Some([id] + rest) && x.left == Some(rest) && x.born == p.born && x.updates == p.updates
    requires forall c :: c in x.queue ==> c in p.queue && c.id != id
    ensures LeftInv(x)
  {
    var l := p.left.value;
    assert forall i :: 0 <= i < |rest| ==> rest[i] == l[i + 1];
    assert forall d :: d in rest ==> d in l;
  }

  lemma RequestOrder(p: Page, owner: nat)
    requires OrderInv(p)
    ensures OrderInv(Do(p, Request(owner)))
  {
    var x := Do(p, Request(owner));
    assert forall i :: 0 <= i < |p.queue| ==> p.queue[i] in p.queue;
    assert forall c :: c in x.queue ==> c in p.queue || c.id == p.nextId;
    hide RanRises;
  }

  lemma RequestBorn(p: Page, owner: nat)
    requires BornInv(p)
    ensures BornInv(Do(p, Request(owner)))
  {
  }

  lemma RequestKeeps(p: Page, owner: nat)
    requires Inv(p)
    ensures Inv(Do(p, Request(owner)))
  {
    RequestOrder(p, owner);
    RequestBorn(p, owner);
    hide OrderInv, Rising;
    var x := Do(p, Request(owner));
    if p.left.Some? {
      assert forall id :: id in p.left.value ==> id < p.nextId;
      assert forall c :: c in x.queue ==> c in p.queue || c.id == p.nextId;
    }
  }

  lemma BeginKeeps(p: Page)
    requires Can(p, Begin) && Inv(p)
    ensures Inv(Do(p, Begin))
  {
    var x := Do(p, Begin);
    forall id | id in x.left.value
      ensures id in x.born && x.born[id] < x.updates
    {
      var i :| 0 <= i < |x.left.value| && x.left.value[i] == id;
      assert p.queue[i] in p.queue;
    }
    forall c | c in x.queue
      ensures c.id in x.left.value
    {
      var i :| 0 <= i < |p.queue| && p.queue[i] == c;
      assert x.left.value[i] == c.id;
    }
  }

  /** Callbacks dropped from the queue, numbers taken by others, an update over: nothing that matters changes. */
  lemma DroppedKeeps(p: Page, x: Page)
    requires Inv(p) && QueueRises(x.queue) && (forall c :: c in x.queue ==> c in p.queue)
    requires x.ran == p.ran && x.born == p.born && x.updates == p.updates && x.nextId >= p.nextId
    requires x.left == p.left || x.left == None
    ensures Inv(x)
  {
    hide QueueRises, RanRises, Rising;
  }

  lemma RestKeeps(p: Page, a: Act)
    requires Can(p, a) && Inv(p) && !a.Next? && !a.Begin? && !a.Request?
    ensures Inv(Do(p, a))
  {
    var x := Do(p, a);
    if a.Cancel? {
      LessIs(p.queue, a.id, Some(a.owner));
    } else if a.Sweep? {
      LivingIs(p.queue, p.ended);
    } else if a.Unload? {
      LivingIs(p.queue, {a.owner});
    }
    hide Less, Living, QueueRises, BornInv, LeftInv, RanRises;
    DroppedKeeps(p, x);
  }

  /** Every act keeps the invariant, whether it comes from outside or from a callback that is running. */
  lemma StepKeeps(p: Page, a: Act)
    requires Can(p, a) && Inv(p)
    ensures Inv(Do(p, a))
  {
    hide Inv, Do;
    match a
    case Next => NextKeeps(p);
    case Begin => BeginKeeps(p);
    case Request(owner) => RequestKeeps(p, owner);
    case _ => RestKeeps(p, a);
  }

  lemma {:induction false} RunKeeps(p: Page, run: seq<Act>)
    requires CanRun(p, run) && Inv(p)
    ensures Inv(After(p, run))
    decreases |run|
  {
    hide Inv, Do, Can;
    if run != [] {
      StepKeeps(p, run[0]);
      RunKeeps(Do(p, run[0]), run[1..]);
    }
  }

  lemma OpenedInv()
    ensures Inv(Opened())
  {
  }

  /**
   In every run: callbacks run in the order they were asked for, over all the updates, so none runs twice; and none in the
   update that was on, or was the last, when it was asked for.
   */
  lemma InOrderOnceLater(run: seq<Act>, i: nat, j: nat)
    requires CanRun(Opened(), run) && i < |After(Opened(), run).ran|
    ensures var p := After(Opened(), run);
            && (i < j < |p.ran| ==> p.ran[i].id < p.ran[j].id)
            && p.ran[i].id in p.born && p.born[p.ran[i].id] < p.ran[i].update
  {
    OpenedInv();
    RunKeeps(Opened(), run);
    hide After, CanRun;
    var p := After(Opened(), run);
    assert p.ran[i] in p.ran;
  }

  ghost predicate Waits(p: Page, id: nat) { exists c :: c in p.queue && c.id == id }

  ghost predicate HasRun(p: Page, id: nat) { exists r :: r in p.ran && r.id == id }

  lemma GoneStep(p: Page, a: Act, id: nat)
    requires Can(p, a) && !Waits(p, id) && id < p.nextId
    ensures var x := Do(p, a); !Waits(x, id) && id < x.nextId && (HasRun(x, id) <==> HasRun(p, id))
  {
    if a.Cancel? {
      LessIs(p.queue, a.id, Some(a.owner));
    } else if a.Next? {
      FindIs(p.queue, p.left.value[0]);
      LessIs(p.queue, p.left.value[0], None);
    } else if a.Unload? {
      LivingIs(p.queue, {a.owner});
    }
    LivingIs(p.queue, p.ended);
    hide Less, Living, Find, QueueRises;
    var x := Do(p, a);
    assert forall r :: r in p.ran ==> r in x.ran;
  }

  lemma {:induction false} GoneForGood(p: Page, run: seq<Act>, id: nat)
    requires CanRun(p, run) && !Waits(p, id) && id < p.nextId
    ensures !Waits(After(p, run), id) && (HasRun(After(p, run), id) <==> HasRun(p, id))
    decreases |run|
  {
    hide Waits, HasRun, Do, Can;
    if run != [] {
      GoneStep(p, run[0], id);
      GoneForGood(Do(p, run[0]), run[1..], id);
    }
  }

  /** Never after its cancel: a callback its realm has cancelled runs no more than it had, whatever comes. */
  lemma NeverAfterCancel(p: Page, owner: nat, id: nat, run: seq<Act>)
    requires Inv(p) && id < p.nextId && (forall c :: c in p.queue && c.id == id ==> c.owner == owner)
    requires CanRun(Do(p, Cancel(owner, id)), run)
    ensures HasRun(After(Do(p, Cancel(owner, id)), run), id) <==> HasRun(p, id)
  {
    LessIs(p.queue, id, Some(owner));
    var x := Do(p, Cancel(owner, id));
    hide Less, After, CanRun;
    GoneForGood(x, run, id);
  }

  /** What touches a callback's turn: its cancel, the end or discarding of its realm, the unloading of its document, the end of the interpreter. */
  predicate Spares(a: Act, c: Callback) {
    a != Cancel(c.owner, c.id) && a != End(c.owner) && a != Discard(c.owner) && a != Unload(c.owner) && a != Stop
  }

  ghost predicate Turn(p: Page, c: Callback, update: nat) {
    || (p.updates == update && p.left.Some? && c in p.queue && c.id in p.left.value && c.owner !in p.ended + p.discarded)
    || Ran(c.id, update) in p.ran
  }

  lemma TurnNext(p: Page, c: Callback, update: nat)
    requires QueueRises(p.queue) && Can(p, Next) && Turn(p, c, update)
    ensures Turn(Do(p, Next), c, update)
  {
    var id := p.left.value[0];
    FindIs(p.queue, id);
    LessIs(p.queue, id, None);
    assert p.left.value == [id] + p.left.value[1..];
    if c in p.queue && c.id == id {
      OneOfId(p.queue, c, Find(p.queue, id).value);
    }
    hide Less, Find, QueueRises;
  }

  lemma TurnStep(p: Page, a: Act, c: Callback, update: nat)
    requires Inv(p) && Can(p, a) && Spares(a, c) && Turn(p, c, update)
    ensures Turn(Do(p, a), c, update)
  {
    hide BornInv, LeftInv, QueueRises, RanRises, Less, Living, Find;
    if a.Cancel? {
      LessIs(p.queue, a.id, Some(a.owner));
    } else if a.Unload? {
      LivingIs(p.queue, {a.owner});
    } else if a.Next? {
      TurnNext(p, c, update);
    }
  }

  /** Every callback's turn comes: once an update has begun, each there was runs in it, if it is spared, before the update is over. */
  lemma {:induction false} TurnComes(p: Page, run: seq<Act>, c: Callback, update: nat)
    requires Inv(p) && CanRun(p, run) && Turn(p, c, update) && forall i :: 0 <= i < |run| ==> Spares(run[i], c)
    ensures Turn(After(p, run), c, update)
    ensures After(p, run).left == None ==> Ran(c.id, update) in After(p, run).ran
    decreases |run|
  {
    hide Inv, Do, Can, Spares;
    if run != [] {
      TurnStep(p, run[0], c, update);
      StepKeeps(p, run[0]);
      TurnComes(Do(p, run[0]), run[1..], c, update);
    }
  }

  /** And as an update is over, whatever is in the queue was asked for during it. */
  lemma OnlyNewLeft(p: Page, c: Callback)
    requires Inv(p) && Can(p, Finish) && c in p.queue
    ensures c.id in p.born && p.born[c.id] == p.updates
  {
  }

  // A realm that is gone.

  lemma {:induction false} RunSplit(p: Page, run: seq<Act>, n: nat)
    requires CanRun(p, run) && n <= |run|
    ensures CanRun(p, run[..n]) && CanRun(After(p, run[..n]), run[n..]) && After(After(p, run[..n]), run[n..]) == After(p, run)
    decreases n
  {
    hide Do, Can;
    if n == 0 {
      assert run[..0] == [] && run[0..] == run;
    } else {
      RunSplit(Do(p, run[0]), run[1..], n - 1);
      assert run[..n][0] == run[0] && run[..n][1..] == run[1..][..n - 1] && run[n..] == run[1..][n - 1..];
    }
  }

  lemma GoneStays(p: Page, a: Act)
    requires Can(p, a)
    ensures p.ended <= Do(p, a).ended && p.discarded <= Do(p, a).discarded
  {
    hide Find, Less, Living;
  }

  lemma {:induction false} GoneStaysRun(p: Page, run: seq<Act>)
    requires CanRun(p, run)
    ensures p.ended <= After(p, run).ended && p.discarded <= After(p, run).discarded
    decreases |run|
  {
    hide Do, Can;
    if run != [] {
      GoneStays(p, run[0]);
      GoneStaysRun(Do(p, run[0]), run[1..]);
    }
  }

  /** Number id is a callback's whose realm is gone, if it is any that waits. */
  ghost predicate Barred(p: Page, owner: nat, id: nat) {
    id < p.nextId && (owner in p.ended || owner in p.discarded) && forall c :: c in p.queue && c.id == id ==> c.owner == owner
  }

  lemma BarredStep(p: Page, a: Act, owner: nat, id: nat)
    requires Can(p, a) && Barred(p, owner, id)
    ensures Barred(Do(p, a), owner, id) && (HasRun(Do(p, a), id) <==> HasRun(p, id))
  {
    if a.Cancel? {
      LessIs(p.queue, a.id, Some(a.owner));
    } else if a.Next? {
      FindIs(p.queue, p.left.value[0]);
      LessIs(p.queue, p.left.value[0], None);
    } else if a.Sweep? {
      LivingIs(p.queue, p.ended);
    } else if a.Unload? {
      LivingIs(p.queue, {a.owner});
    }
    hide Less, Living, Find, QueueRises;
    var x := Do(p, a);
    assert forall r :: r in p.ran ==> r in x.ran;
  }

  lemma {:induction false} BarredRun(p: Page, run: seq<Act>, owner: nat, id: nat)
    requires CanRun(p, run) && Barred(p, owner, id)
    ensures HasRun(After(p, run), id) <==> HasRun(p, id)
    decreases |run|
  {
    hide Barred, HasRun, Do, Can;
    if run != [] {
      BarredStep(p, run[0], owner, id);
      BarredRun(Do(p, run[0]), run[1..], owner, id);
    }
  }

  lemma WaitingBarred(p: Page, c: Callback)
    requires Inv(p) && c in p.queue && (c.owner in p.ended || c.owner in p.discarded)
    ensures Barred(p, c.owner, c.id) && !HasRun(p, c.id)
  {
    assert LastRan(p) < c.id;
    hide BornInv, LeftInv;
    forall d | d in p.queue && d.id == c.id
      ensures d == c
    {
      OneOfId(p.queue, c, d);
    }
    forall i | 0 <= i < |p.ran|
      ensures p.ran[i].id <= LastRan(p)
    {
    }
  }

  /**
   Never once its realm is gone: in any run that ends a realm or discards it, no callback of its that waits then, or is asked
   for at any time after, ever runs.
   */
  lemma NeverOnceGone(run: seq<Act>, n: nat, k: nat, c: Callback)
    requires CanRun(Opened(), run) && n < k <= |run| && (run[n] == End(c.owner) || run[n] == Discard(c.owner))
    requires CanRun(Opened(), run[..k]) && c in After(Opened(), run[..k]).queue
    ensures !HasRun(After(Opened(), run), c.id)
  {
    var p := Opened();
    var early := run[..k];
    RunSplit(p, early, n);
    var u := After(p, early[..n]);
    assert early[n..][0] == run[n];
    GoneStaysRun(Do(u, run[n]), early[n..][1..]);
    OpenedInv();
    RunKeeps(p, early);
    RunSplit(p, run, k);
    hide Inv, Barred, HasRun, CanRun;
    WaitingBarred(After(p, early), c);
    BarredRun(After(p, early), run[k..], c.owner, c.id);
  }

  // What each act does to the queue.

  /** Nothing but the queue is other than it was. */
  ghost predicate OnlyQueue(p: Page, x: Page) { x == p.(queue := x.queue) }

  /** Asking appends one callback, of a number never given before and the owner that asks. */
  lemma RequestIs(p: Page, owner: nat)
    requires Inv(p)
    ensures var x := Do(p, Request(owner));
            && |x.queue| == |p.queue| + 1 && x.queue[..|p.queue|] == p.queue && x.queue[|p.queue|].owner == owner
            && x.queue[|p.queue|].id !in p.born && (forall c :: c in p.queue ==> c.id < x.queue[|p.queue|].id)
            && x.ran == p.ran && x.left == p.left && x.updates == p.updates && x.ended == p.ended && x.discarded == p.discarded
  {
  }

  /** A cancel drops the callback of the number if it is the caller's, and no other. */
  lemma CancelIs(p: Page, owner: nat, id: nat)
    ensures var x := Do(p, Cancel(owner, id));
            OnlyQueue(p, x) && (QueueRises(p.queue) ==> QueueRises(x.queue))
            && forall c :: c in x.queue <==> c in p.queue && c != Callback(id, owner)
  {
    LessIs(p.queue, id, Some(owner));
    hide Less, QueueRises;
  }

  /** An update first drops the callbacks of the realms that ended, and no other. */
  lemma SweepIs(p: Page)
    requires Can(p, Sweep)
    ensures var x := Do(p, Sweep);
            OnlyQueue(p, x) && (QueueRises(p.queue) ==> QueueRises(x.queue))
            && forall c :: c in x.queue <==> c in p.queue && c.owner !in p.ended
  {
    LivingIs(p.queue, p.ended);
    hide Living, QueueRises;
  }

  /** A document that unloads drops its own callbacks, and no other. */
  lemma UnloadIs(p: Page, owner: nat)
    ensures var x := Do(p, Unload(owner));
            OnlyQueue(p, x) && (QueueRises(p.queue) ==> QueueRises(x.queue))
            && forall c :: c in x.queue <==> c in p.queue && c.owner != owner
  {
    LivingIs(p.queue, {owner});
    hide Living, QueueRises;
  }

  /** The next callback noted leaves the queue, if it still waits, and runs exactly if its realm has not ended nor been discarded. */
  lemma NextIs(p: Page)
    requires Can(p, Next) && Inv(p)
    ensures var x, id := Do(p, Next), p.left.value[0];
            && p.left.value == [id] + x.left.value
            && (forall c :: c in x.queue <==> c in p.queue && c.id != id)
            && (forall c :: c in p.queue && c.id == id ==>
                  x.ran == if c.owner in p.ended || c.owner in p.discarded then p.ran else p.ran + [Ran(id, p.updates)])
            && (!Waits(p, id) ==> x.ran == p.ran)
            && x.updates == p.updates && x.nextId == p.nextId && x.born == p.born && x.ended == p.ended && x.discarded == p.discarded
  {
    var id := p.left.value[0];
    FindIs(p.queue, id);
    LessIs(p.queue, id, None);
    hide Less, Find, BornInv, LeftInv;
    forall c | c in p.queue && c.id == id
      ensures Find(p.queue, id) == Some(c)
    {
      OneOfId(p.queue, c, Find(p.queue, id).value);
    }
    hide QueueRises, RanRises;
  }
}
