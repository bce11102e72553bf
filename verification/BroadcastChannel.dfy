/**
 BroadcastChannel (src/bindings/BroadcastChannel.cpp, section 9.6 of the HTML Standard) as a machine: agents on threads
 of their own, realms that may end at any time, one list of open channels behind a lock, and a queue of tasks for each
 agent. Every act is what a thread does under one lock, so any order of acts is an interleaving of the threads.
 */
module BroadcastChannel {
  import opened Wrappers
  import opened Orders

  type Key = string

  /** A realm: its agent, whether it still lives, and whether it is eligible for messaging. */
  datatype Realm = Realm(agent: nat, alive: bool, eligible: bool)

  datatype Channel = Channel(key: Key, realm: nat, closed: bool)

  /** A message on its way to a channel. */
  datatype Task = Task(dest: nat, msg: nat)

  /** A message whose tasks are being put in their queues, one receiver at a time. */
  datatype Sending = Sending(msg: nat, rest: seq<nat>)

  /** What a task comes to: nothing, the message, or word of a message that could not be read again. */
  datatype Outcome = Nothing | Message | MessageError

  /** An agent: the tasks it has run, what came of each, the tasks it has yet to run, and the message it is sending. */
  datatype Agent = Agent(ran: seq<Task>, outcomes: seq<Outcome>, queue: seq<Task>, sending: Option<Sending>)

  /** A message posted: by which channel, of which agent, and to which channels. */
  datatype Posted = Posted(from: nat, agent: nat, dests: seq<nat>)

  /** Channels are numbered by their creation order; `open` is the list they are subscribed in. */
  datatype World = World(agents: seq<Agent>, realms: seq<Realm>, channels: seq<Channel>, open: seq<nat>,
                         checked: multiset<nat>, posts: seq<Posted>)

  datatype Act =
    | NewAgent
    | NewRealm(agent: nat)
    | SetEligible(realm: nat, on: bool)
    | Die(realm: nat)
    | Construct(realm: nat, key: Key)
    | Close(channel: nat)
    | Check(channel: nat)   // postMessage begins: the channel is open and its realm eligible; serializing may run any script
    | Post(channel: nat)    // serialized: the receivers are read off the list
    | Push(agent: nat)      // one receiver's queue gets its task
    | RunTask(agent: nat, readable: bool)   // the next task; whether the receiving realm can deserialize the message

  function Empty(): World { World([], [], [], [], multiset{}, []) }

  /** The parts of the world refer to each other rightly. */
  ghost predicate Shape(w: World) {
    && (forall r :: 0 <= r < |w.realms| ==> w.realms[r].agent < |w.agents|)
    && (forall c :: 0 <= c < |w.channels| ==> w.channels[c].realm < |w.realms|)
    && (forall c :: c in w.open ==> c < |w.channels|)
    && (forall c :: c in w.checked ==> c < |w.channels|)
  }

  function RealmOf(w: World, c: nat): Realm {
    if c < |w.channels| && w.channels[c].realm < |w.realms| then w.realms[w.channels[c].realm] else Realm(0, false, false)
  }

  predicate Closed(w: World, c: nat) { c < |w.channels| ==> w.channels[c].closed }

  function KeyOf(w: World, c: nat): Key { if c < |w.channels| then w.channels[c].key else "" }

  function Without(s: seq<nat>, x: nat): seq<nat>
    decreases |s|
  {
    if s == [] then [] else (if s[0] == x then [] else [s[0]]) + Without(s[1..], x)
  }

  /** The list less the channels whose realm is gone. */
  function Living(w: World, s: seq<nat>): seq<nat>
    decreases |s|
  {
    if s == [] then [] else (if RealmOf(w, s[0]).alive then [s[0]] else []) + Living(w, s[1..])
  }

  /** The channels of a list a message goes to. */
  function Receivers(w: World, s: seq<nat>, from: nat): seq<nat>
    decreases |s|
  {
    if s == [] then []
    else (if s[0] != from && KeyOf(w, s[0]) == KeyOf(w, from) then [s[0]] else []) + Receivers(w, s[1..], from)
  }

  predicate Can(w: World, a: Act) {
    match a
    case NewAgent => true
    case NewRealm(g) => g < |w.agents|
    case SetEligible(r, _) => r < |w.realms| && w.realms[r].alive
    case Die(r) => r < |w.realms|
    case Construct(r, _) => r < |w.realms| && w.realms[r].alive
    case Close(c) => c < |w.channels|
    case Check(c) => c < |w.channels| && !Closed(w, c) && RealmOf(w, c).eligible
    case Post(c) => c in w.checked && RealmOf(w, c).agent < |w.agents| && w.agents[RealmOf(w, c).agent].sending.None?
    case Push(g) => g < |w.agents| && w.agents[g].sending.Some?
    case RunTask(g, _) => g < |w.agents| && w.agents[g].sending.None? && w.agents[g].queue != []
  }

  /** A sender's next step: one task into the receiver's queue, or, with no receiver left, done. */
  function PushOne(w: World, g: nat): World
    requires Can(w, Push(g))
  {
    var s := w.agents[g].sending.value;
    if s.rest == [] then w.(agents := w.agents[g := w.agents[g].(sending := None)])
    else
      var agents := w.agents[g := w.agents[g].(sending := Some(Sending(s.msg, s.rest[1..])))];
      var to := RealmOf(w, s.rest[0]).agent;
      if to < |agents| then w.(agents := agents[to := agents[to].(queue := agents[to].queue + [Task(s.rest[0], s.msg)])])
      else w.(agents := agents)
  }

  /** What a task that runs now comes to: nothing unless its realm lives and is eligible, and its channel is open. */
  function OutcomeNow(w: World, c: nat, readable: bool): Outcome {
    if !(RealmOf(w, c).alive && !Closed(w, c) && RealmOf(w, c).eligible) then Nothing
    else if readable then Message else MessageError
  }

  function Do(w: World, a: Act): World
    requires Can(w, a)
  {
    match a
    case NewAgent => w.(agents := w.agents + [Agent([], [], [], None)])
    case NewRealm(g) => w.(realms := w.realms + [Realm(g, true, true)])
    case SetEligible(r, on) => w.(realms := w.realms[r := w.realms[r].(eligible := on)])
    case Die(r) => w.(realms := w.realms[r := w.realms[r].(alive := false)])
    case Construct(r, key) => w.(channels := w.channels + [Channel(key, r, false)], open := w.open + [|w.channels|])
    case Close(c) =>
      if Closed(w, c) then w
      else w.(channels := w.channels[c := w.channels[c].(closed := true)], open := Without(w.open, c))
    case Check(c) => w.(checked := w.checked + multiset{c})
    case Post(c) =>
      var g := RealmOf(w, c).agent;
      var open := Living(w, w.open);
      var dests := Receivers(w, open, c);
      w.(open := open, checked := w.checked - multiset{c}, posts := w.posts + [Posted(c, g, dests)],
         agents := w.agents[g := w.agents[g].(sending := Some(Sending(|w.posts|, dests)))])
    case Push(g) => PushOne(w, g)
    case RunTask(g, readable) =>
      var x := w.agents[g];
      w.(agents := w.agents[g := x.(ran := x.ran + [x.queue[0]], queue := x.queue[1..],
                                    outcomes := x.outcomes + [OutcomeNow(w, x.queue[0].dest, readable)])])
  }

  predicate CanRun(w: World, run: seq<Act>)
    decreases |run|
  {
    run == [] || (Can(w, run[0]) && CanRun(Do(w, run[0]), run[1..]))
  }

  function After(w: World, run: seq<Act>): World
    requires CanRun(w, run)
    decreases |run|
  {
    if run == [] then w else After(Do(w, run[0]), run[1..])
  }

  // The list of open channels.

  lemma {:induction false} WithoutIs(s: seq<nat>, x: nat)
    ensures forall y :: y in Without(s, x) <==> y in s && y != x
    ensures Rising(s) ==> Rising(Without(s, x))
    decreases |s|
  {
    if s != [] {
      WithoutIs(s[1..], x);
      Headed(s, Without(s[1..], x));
    }
  }

  lemma {:induction false} LivingIs(w: World, s: seq<nat>)
    ensures forall y :: y in Living(w, s) <==> y in s && RealmOf(w, y).alive
    ensures Rising(s) ==> Rising(Living(w, s))
    decreases |s|
  {
    hide RealmOf;
    if s != [] {
      LivingIs(w, s[1..]);
      Headed(s, Living(w, s[1..]));
    }
  }

  lemma {:induction false} ReceiversAre(w: World, s: seq<nat>, from: nat)
    ensures forall y :: y in Receivers(w, s, from) <==> y in s && y != from && KeyOf(w, y) == KeyOf(w, from)
    ensures Rising(s) ==> Rising(Receivers(w, s, from))
    decreases |s|
  {
    hide KeyOf;
    if s != [] {
      ReceiversAre(w, s[1..], from);
      Headed(s, Receivers(w, s[1..], from));
    }
  }

  /** The list holds the open channels, all those whose realm lives, in the order of their creation. */
  ghost predicate ListOk(w: World) {
    && Rising(w.open)
    && (forall c :: c in w.open ==> c < |w.channels| && !Closed(w, c))
    && (forall c: nat :: c < |w.channels| && !Closed(w, c) && RealmOf(w, c).alive ==> c in w.open)
  }

  lemma ListKeeps(w: World, a: Act)
    requires Can(w, a) && Shape(w) && ListOk(w)
    ensures ListOk(Do(w, a))
  {
    hide PushOne, Living, Without, Receivers, Rising;
    match a
    case Close(c) => CloseKeeps(w, c);
    case Post(c) =>
      LivingIs(w, w.open);
      assert forall d: nat :: RealmOf(Do(w, a), d) == RealmOf(w, d);
    case Construct(r, key) => ConstructKeeps(w, r, key);
    case _ => ListStays(w, a);
  }

  /** No other act changes the list or closes a channel, and none brings a realm back. */
  lemma ListStays(w: World, a: Act)
    requires Can(w, a) && Shape(w) && ListOk(w) && !a.Close? && !a.Post? && !a.Construct?
    ensures ListOk(Do(w, a))
  {
    var x := Do(w, a);
    assert x.open == w.open && x.channels == w.channels by {
      if a.Push? {
        PushFrame(w, a.agent);
      }
    }
    RealmsStay(w, a);
    hide RealmOf, Rising, Do;
  }

  lemma RealmsStay(w: World, a: Act)
    requires Can(w, a) && Shape(w) && !a.Close? && !a.Post? && !a.Construct?
    ensures forall d: nat :: d < |w.channels| && RealmOf(Do(w, a), d).alive ==> RealmOf(w, d).alive
  {
    hide PushOne;
    if a.Push? {
      PushFrame(w, a.agent);
    }
  }

  lemma CloseKeeps(w: World, c: nat)
    requires Can(w, Close(c)) && Shape(w) && ListOk(w)
    ensures ListOk(Do(w, Close(c)))
  {
    WithoutIs(w.open, c);
    hide Without, Rising;
  }

  lemma ConstructKeeps(w: World, r: nat, key: Key)
    requires Can(w, Construct(r, key)) && Shape(w) && ListOk(w)
    ensures ListOk(Do(w, Construct(r, key)))
  {
    var x := Do(w, Construct(r, key));
    assert forall d: nat :: d < |w.channels| ==> RealmOf(x, d) == RealmOf(w, d) && Closed(x, d) == Closed(w, d);
    forall i | 0 <= i < |w.open|
      ensures x.open[i] == w.open[i] && w.open[i] < |w.channels|
    {
      assert w.open[i] in w.open;
    }
    assert x.open[|w.open|] == |w.channels|;
  }

  lemma PushFrame(w: World, g: nat)
    requires Can(w, Push(g))
    ensures var x := PushOne(w, g);
            && x.realms == w.realms && x.channels == w.channels && x.open == w.open && x.checked == w.checked
            && x.posts == w.posts && |x.agents| == |w.agents|
  {
  }

  lemma ShapeKeeps(w: World, a: Act)
    requires Can(w, a) && Shape(w)
    ensures Shape(Do(w, a))
  {
    hide PushOne;
    match a
    case Close(c) => WithoutIs(w.open, c);
    case Post(c) => LivingIs(w, w.open);
    case Push(g) => PushFrame(w, g);
    case _ =>
  }

  /** Who a message is posted to: exactly the other channels of the same key that are open as it is posted, in a realm that lives. */
  lemma PostedTo(w: World, c: nat, d: nat)
    requires Can(w, Post(c)) && Shape(w) && ListOk(w)
    ensures var posts := Do(w, Post(c)).posts;
            && |posts| == |w.posts| + 1 && posts[|w.posts|].from == c
            && Rising(posts[|w.posts|].dests)
            && (d in posts[|w.posts|].dests <==>
                  d < |w.channels| && d != c && KeyOf(w, d) == KeyOf(w, c) && !Closed(w, d) && RealmOf(w, d).alive)
  {
    LivingIs(w, w.open);
    ReceiversAre(w, Living(w, w.open), c);
    hide Receivers, Living;
  }

  // Mail on its way.

  /** All the tasks an agent was ever given, in order: those it ran, then those that wait. */
  function Line(w: World, g: nat): seq<Task> {
    if g < |w.agents| then w.agents[g].ran + w.agents[g].queue else []
  }

  function SendingOf(w: World, g: nat): Option<Sending> { if g < |w.agents| then w.agents[g].sending else None }

  /** A task is for a channel its message was posted to, and is with that channel's agent. */
  predicate Addressed(w: World, g: nat, t: Task) {
    && t.msg < |w.posts| && t.dest in w.posts[t.msg].dests && t.dest < |w.channels|
    && RealmOf(w, t.dest).agent == g
  }

  /** Of two tasks for one channel from one agent, the later is of a later message. */
  predicate InTurn(w: World, t: Task, u: Task) {
    t.dest == u.dest && t.msg < |w.posts| && u.msg < |w.posts| && w.posts[t.msg].agent == w.posts[u.msg].agent ==> t.msg < u.msg
  }

  ghost predicate LineOk(w: World, g: nat) {
    && (forall i :: 0 <= i < |Line(w, g)| ==> Addressed(w, g, Line(w, g)[i]))
    && (forall i, j :: 0 <= i < j < |Line(w, g)| ==> InTurn(w, Line(w, g)[i], Line(w, g)[j]))
  }

  /** What is being sent is its agent's latest message, and goes only where it has not yet been put. */
  ghost predicate SendingOk(w: World, g: nat) {
    SendingOf(w, g).Some? ==>
      var s := SendingOf(w, g).value;
      && s.msg < |w.posts| && w.posts[s.msg].agent == g && Rising(s.rest)
      && (forall m :: 0 <= m < |w.posts| && w.posts[m].agent == g ==> m <= s.msg)
      && (forall c :: c in s.rest ==> c in w.posts[s.msg].dests && Task(c, s.msg) !in Line(w, RealmOf(w, c).agent))
  }

  /** A message has a task for each of its receivers, or is still being sent to it. */
  predicate Reaches(w: World, m: nat, c: nat)
    requires m < |w.posts|
  {
    || Task(c, m) in Line(w, RealmOf(w, c).agent)
    || (SendingOf(w, w.posts[m].agent).Some? && SendingOf(w, w.posts[m].agent).value.msg == m
        && c in SendingOf(w, w.posts[m].agent).value.rest)
  }

  ghost predicate PostOk(w: World, m: nat)
    requires m < |w.posts|
  {
    && w.posts[m].agent < |w.agents|
    && forall c :: c in w.posts[m].dests ==> c < |w.channels| && Reaches(w, m, c)
  }

  ghost predicate MailOk(w: World) {
    && (forall g :: 0 <= g < |w.agents| ==> LineOk(w, g))
    && (forall g :: 0 <= g < |w.agents| ==> SendingOk(w, g))
    && (forall m :: 0 <= m < |w.posts| ==> PostOk(w, m))
    && (forall g :: 0 <= g < |w.agents| ==> |w.agents[g].outcomes| == |w.agents[g].ran|)
  }

  ghost predicate Inv(w: World) { Shape(w) && ListOk(w) && MailOk(w) }

  /** Nothing of the mail is touched; agents, realms and channels may be added. */
  ghost predicate Quiet(w: World, x: World) {
    && x.posts == w.posts && |w.channels| <= |x.channels| && |w.agents| <= |x.agents|
    && (forall g :: 0 <= g < |w.agents| ==> Line(x, g) == Line(w, g) && SendingOf(x, g) == SendingOf(w, g))
    && (forall g :: |w.agents| <= g < |x.agents| ==> Line(x, g) == [] && SendingOf(x, g) == None)
    && (forall c :: 0 <= c < |w.channels| ==> RealmOf(x, c).agent == RealmOf(w, c).agent < |w.agents|)
    && (forall g :: 0 <= g < |x.agents| ==> |x.agents[g].outcomes| == |x.agents[g].ran|)
  }

  lemma QuietLines(w: World, x: World, g: nat)
    requires Quiet(w, x) && g < |x.agents| && (g < |w.agents| ==> LineOk(w, g))
    ensures LineOk(x, g)
  {
    hide Line, RealmOf, SendingOf;
    if g < |w.agents| {
      forall i | 0 <= i < |Line(x, g)|
        ensures Addressed(x, g, Line(x, g)[i])
      {
        assert Addressed(w, g, Line(w, g)[i]);
      }
      forall i, j | 0 <= i < j < |Line(x, g)|
        ensures InTurn(x, Line(x, g)[i], Line(x, g)[j])
      {
        assert InTurn(w, Line(w, g)[i], Line(w, g)[j]);
      }
    }
  }

  lemma QuietKeeps(w: World, x: World)
    requires Quiet(w, x) && MailOk(w)
    ensures MailOk(x)
  {
    hide Line, RealmOf, SendingOf, LineOk, Reaches;
    forall g | 0 <= g < |x.agents|
      ensures LineOk(x, g)
    {
      QuietLines(w, x, g);
    }
    forall g | 0 <= g < |x.agents|
      ensures SendingOk(x, g)
    {
      if g < |w.agents| {
        assert SendingOk(w, g);
        QuietSending(w, x, g);
      }
    }
    forall m | 0 <= m < |x.posts|
      ensures PostOk(x, m)
    {
      assert PostOk(w, m);
      forall c | c in x.posts[m].dests
        ensures c < |x.channels| && Reaches(x, m, c)
      {
        assert Reaches(w, m, c);
        QuietReach(w, x, m, c);
      }
    }
  }

  lemma QuietSending(w: World, x: World, g: nat)
    requires Quiet(w, x) && g < |w.agents| && SendingOk(w, g) && (forall m :: 0 <= m < |w.posts| ==> PostOk(w, m))
    ensures SendingOk(x, g)
  {
    hide Line, RealmOf, SendingOf, Reaches;
    if SendingOf(w, g).Some? && SendingOf(w, g).value.msg < |w.posts| {
      assert PostOk(w, SendingOf(w, g).value.msg);
    }
  }

  lemma QuietReach(w: World, x: World, m: nat, c: nat)
    requires Quiet(w, x) && m < |w.posts| && w.posts[m].agent < |w.agents| && c < |w.channels| && Reaches(w, m, c)
    ensures Reaches(x, m, c)
  {
    hide Line, RealmOf, SendingOf;
  }

  lemma QuietRealms(w: World, a: Act)
    requires Can(w, a) && Shape(w) && !a.Post? && !a.Push?
    ensures forall c :: 0 <= c < |w.channels| ==> RealmOf(Do(w, a), c).agent == RealmOf(w, c).agent < |w.agents|
  {
    hide Without, Living, Receivers, PushOne, OutcomeNow;
  }

  /** Every act but a post and a push leaves the mail as it is; running a task moves it along. */
  lemma QuietActs(w: World, a: Act)
    requires Can(w, a) && Shape(w) && MailOk(w) && !a.Post? && !a.Push?
    ensures Quiet(w, Do(w, a))
  {
    hide LineOk, SendingOk, PostOk, Without, Living, Receivers, PushOne, OutcomeNow;
    QuietRealms(w, a);
    hide RealmOf, ListOk;
    if a.RunTask? {
      QuietTask(w, a);
    } else {
      var x := Do(w, a);
      assert forall g :: 0 <= g < |w.agents| ==> x.agents[g] == w.agents[g];
    }
  }

  lemma QuietTask(w: World, a: Act)
    requires Can(w, a) && a.RunTask?
    ensures var x := Do(w, a);
            && x.posts == w.posts && x.channels == w.channels && |x.agents| == |w.agents|
            && (forall g :: 0 <= g < |w.agents| ==> Line(x, g) == Line(w, g) && SendingOf(x, g) == SendingOf(w, g))
            && (forall g :: 0 <= g < |w.agents| && |w.agents[g].outcomes| == |w.agents[g].ran| ==>
                  |x.agents[g].outcomes| == |x.agents[g].ran|)
  {
    hide OutcomeNow;
    var x, q := Do(w, a), w.agents[a.agent].queue;
    assert q == [q[0]] + q[1..];
    assert Line(x, a.agent) == Line(w, a.agent);
  }

  /** The mail as a message begins to be sent: the lines are as they were. */
  lemma PostKeeps(w: World, c: nat)
    requires Can(w, Post(c)) && Shape(w) && ListOk(w) && MailOk(w)
    ensures MailOk(Do(w, Post(c)))
  {
    var x := Do(w, Post(c));
    var g, m := RealmOf(w, c).agent, |w.posts|;
    PostedTo(w, c, c);
    assert forall d :: RealmOf(x, d) == RealmOf(w, d);
    assert forall h: nat :: Line(x, h) == Line(w, h);
    assert forall h: nat :: SendingOf(x, h) == if h == g then Some(Sending(m, x.posts[m].dests)) else SendingOf(w, h);
    assert forall k :: 0 <= k < m ==> x.posts[k] == w.posts[k];
    forall d | d in x.posts[m].dests
      ensures d < |w.channels|
    {
      PostedTo(w, c, d);
    }
    assert SendingOf(w, g) == None && x.posts[m].agent == g;
    PostMail(w, x, g);
  }

  lemma PostMail(w: World, x: World, g: nat)
    requires MailOk(w) && |x.posts| == |w.posts| + 1 && |x.agents| == |w.agents| && x.channels == w.channels
    requires g < |w.agents| && SendingOf(w, g) == None && x.posts[|w.posts|].agent == g && Rising(x.posts[|w.posts|].dests)
    requires forall d :: RealmOf(x, d) == RealmOf(w, d)
    requires forall h: nat :: Line(x, h) == Line(w, h)
    requires forall h: nat :: SendingOf(x, h) == if h == g then Some(Sending(|w.posts|, x.posts[|w.posts|].dests)) else SendingOf(w, h)
    requires forall k :: 0 <= k < |w.posts| ==> x.posts[k] == w.posts[k]
    requires forall d :: d in x.posts[|w.posts|].dests ==> d < |w.channels|
    requires forall h :: 0 <= h < |x.agents| ==> |x.agents[h].outcomes| == |x.agents[h].ran|
    ensures MailOk(x)
  {
    hide Line, RealmOf, SendingOf, LineOk, Reaches;
    var m := |w.posts|;
    forall h | 0 <= h < |x.agents|
      ensures LineOk(x, h)
    {
      PostLines(w, x, h);
    }
    forall h | 0 <= h < |x.agents|
      ensures SendingOk(x, h)
    {
      assert SendingOk(w, h);
      if h == g {
        forall d | d in x.posts[m].dests
          ensures Task(d, m) !in Line(x, RealmOf(x, d).agent)
        {
          NewTask(w, RealmOf(x, d).agent, d);
        }
      }
    }
    forall k | 0 <= k < |x.posts|
      ensures PostOk(x, k)
    {
      if k < m {
        assert PostOk(w, k);
        forall d | d in x.posts[k].dests
          ensures d < |x.channels| && Reaches(x, k, d)
        {
          assert Reaches(w, k, d);
          PostReach(w, x, g, k, d);
        }
      } else {
        forall d | d in x.posts[k].dests
          ensures Reaches(x, k, d)
        {
          FirstReach(x, d);
        }
      }
    }
  }

  lemma PostLines(w: World, x: World, h: nat)
    requires h < |w.agents| && LineOk(w, h) && Line(x, h) == Line(w, h) && |x.posts| == |w.posts| + 1 && x.channels == w.channels
    requires forall d :: RealmOf(x, d) == RealmOf(w, d)
    requires forall k :: 0 <= k < |w.posts| ==> x.posts[k] == w.posts[k]
    ensures LineOk(x, h)
  {
    hide Line, RealmOf;
    forall i | 0 <= i < |Line(x, h)|
      ensures Addressed(x, h, Line(x, h)[i])
    {
      assert Addressed(w, h, Line(w, h)[i]);
    }
    forall i, j | 0 <= i < j < |Line(x, h)|
      ensures InTurn(x, Line(x, h)[i], Line(x, h)[j])
    {
      assert Addressed(w, h, Line(w, h)[i]) && Addressed(w, h, Line(w, h)[j]);
      assert InTurn(w, Line(w, h)[i], Line(w, h)[j]);
    }
  }

  /** No line has a task of a message not yet posted. */
  lemma NewTask(w: World, g: nat, d: nat)
    requires g < |w.agents| ==> LineOk(w, g)
    ensures Task(d, |w.posts|) !in Line(w, g)
  {
    forall i | 0 <= i < |Line(w, g)|
      ensures Line(w, g)[i] != Task(d, |w.posts|)
    {
      assert Addressed(w, g, Line(w, g)[i]);
    }
  }

  lemma PostReach(w: World, x: World, g: nat, k: nat, d: nat)
    requires k < |w.posts| < |x.posts| && x.posts[k] == w.posts[k] && Reaches(w, k, d) && SendingOf(w, g) == None
    requires forall h: nat :: Line(x, h) == Line(w, h)
    requires forall h: nat :: h != g ==> SendingOf(x, h) == SendingOf(w, h)
    requires RealmOf(x, d) == RealmOf(w, d)
    ensures Reaches(x, k, d)
  {
    hide Line, RealmOf, SendingOf;
  }

  lemma FirstReach(x: World, d: nat)
    requires |x.posts| > 0
    requires var m: nat := |x.posts| - 1; d in x.posts[m].dests && SendingOf(x, x.posts[m].agent) == Some(Sending(m, x.posts[m].dests))
    ensures Reaches(x, |x.posts| - 1, d)
  {
    hide Line, RealmOf, SendingOf;
  }

  /** What a push does to the mail: one task at the end of one line, one receiver less to send to; or the sending is over. */
  ghost predicate Pushed(w: World, x: World, g: nat) {
    && x.posts == w.posts && x.channels == w.channels && |x.agents| == |w.agents| && g < |w.agents| && SendingOf(w, g).Some?
    && (forall d :: RealmOf(x, d) == RealmOf(w, d))
    && (forall h :: 0 <= h < |x.agents| ==> |x.agents[h].outcomes| == |w.agents[h].outcomes| && |x.agents[h].ran| == |w.agents[h].ran|)
    && var s := SendingOf(w, g).value;
       (forall h: nat :: h != g ==> SendingOf(x, h) == SendingOf(w, h))
       && if s.rest == [] then SendingOf(x, g) == None && forall h: nat :: Line(x, h) == Line(w, h)
          else SendingOf(x, g) == Some(Sending(s.msg, s.rest[1..]))
               && forall h: nat ::
                    Line(x, h) == Line(w, h) + if h == RealmOf(w, s.rest[0]).agent then [Task(s.rest[0], s.msg)] else []
  }

  lemma PushIs(w: World, g: nat)
    requires Can(w, Push(g))
    requires w.agents[g].sending.value.rest != [] ==> RealmOf(w, w.agents[g].sending.value.rest[0]).agent < |w.agents|
    ensures Pushed(w, PushOne(w, g), g)
  {
    var x, s := PushOne(w, g), w.agents[g].sending.value;
    assert forall d :: RealmOf(x, d) == RealmOf(w, d);
    hide RealmOf;
    if s.rest != [] {
      var to := RealmOf(w, s.rest[0]).agent;
      assert Line(x, to) == Line(w, to) + [Task(s.rest[0], s.msg)];
    }
  }

  lemma PushLines(w: World, x: World, g: nat, h: nat)
    requires Pushed(w, x, g) && SendingOk(w, g) && h < |w.agents| && LineOk(w, h)
    requires SendingOf(w, g).value.msg < |w.posts| && PostOk(w, SendingOf(w, g).value.msg)
    ensures LineOk(x, h)
  {
    hide Line, RealmOf, SendingOf, Reaches, Rising;
    var s := SendingOf(w, g).value;
    forall i | 0 <= i < |Line(x, h)|
      ensures Addressed(x, h, Line(x, h)[i])
    {
      if i < |Line(w, h)| {
        assert Addressed(w, h, Line(w, h)[i]);
      } else {
        assert s.rest[0] in s.rest;
      }
    }
    forall i, j | 0 <= i < j < |Line(x, h)|
      ensures InTurn(x, Line(x, h)[i], Line(x, h)[j])
    {
      var t := Line(w, h)[i];
      assert t in Line(w, h) && Addressed(w, h, t);
      if j < |Line(w, h)| {
        assert InTurn(w, t, Line(w, h)[j]);
      } else {
        assert s.rest[0] in s.rest;
        assert t.dest == s.rest[0] ==> t != Task(s.rest[0], s.msg);
      }
    }
  }

  lemma PushSending(w: World, x: World, g: nat, h: nat)
    requires Pushed(w, x, g) && h < |w.agents| && SendingOk(w, g) && SendingOk(w, h)
    ensures SendingOk(x, h)
  {
    hide Line, RealmOf, SendingOf;
    var s := SendingOf(w, g).value;
    if s.rest != [] && h == g {
      var rest := s.rest[1..];
      assert SendingOf(x, g) == Some(Sending(s.msg, rest));
      forall c | c in rest
        ensures c in s.rest && c != s.rest[0]
      {
        var i :| 0 <= i < |rest| && rest[i] == c;
        assert s.rest[i + 1] == c;
      }
    }
  }

  lemma PushReach(w: World, x: World, g: nat, m: nat, c: nat)
    requires Pushed(w, x, g) && m < |w.posts| && Reaches(w, m, c)
    requires SendingOk(w, g)
    ensures Reaches(x, m, c)
  {
    hide Line, RealmOf, SendingOf, Rising;
    var s := SendingOf(w, g).value;
    if s.rest != [] {
      assert s.rest == [s.rest[0]] + s.rest[1..];
    }
  }

  lemma PushKeeps(w: World, g: nat)
    requires Can(w, Push(g)) && Shape(w) && MailOk(w)
    ensures MailOk(Do(w, Push(g)))
  {
    hide PushOne, Line, LineOk, Reaches;
    assert SendingOk(w, g);
    var s := SendingOf(w, g).value;
    assert PostOk(w, s.msg);
    if s.rest != [] {
      assert s.rest[0] in s.rest;
    }
    var x := Do(w, Push(g));
    PushIs(w, g);
    hide SendingOf, RealmOf;
    forall h | 0 <= h < |x.agents|
      ensures LineOk(x, h) && SendingOk(x, h)
    {
      PushLines(w, x, g, h);
      PushSending(w, x, g, h);
    }
    forall m | 0 <= m < |x.posts|
      ensures PostOk(x, m)
    {
      assert PostOk(w, m);
      forall c | c in x.posts[m].dests
        ensures c < |x.channels| && Reaches(x, m, c)
      {
        PushReach(w, x, g, m, c);
      }
    }
  }

  /** Every act of every thread keeps the invariant. */
  lemma StepKeeps(w: World, a: Act)
    requires Can(w, a) && Inv(w)
    ensures Inv(Do(w, a))
  {
    hide Shape, ListOk, MailOk, Do, Can;
    ShapeKeeps(w, a);
    ListKeeps(w, a);
    match a
    case Post(c) => PostKeeps(w, c);
    case Push(g) => PushKeeps(w, g);
    case _ =>
      QuietActs(w, a);
      QuietKeeps(w, Do(w, a));
  }

  lemma {:induction false} RunKeeps(w: World, run: seq<Act>)
    requires CanRun(w, run) && Inv(w)
    ensures Inv(After(w, run))
    decreases |run|
  {
    hide Inv, Do, Can;
    if run != [] {
      StepKeeps(w, run[0]);
      RunKeeps(Do(w, run[0]), run[1..]);
    }
  }

  lemma EmptyInv()
    ensures Inv(Empty())
  {
  }

  ghost predicate Reachable(w: World) { exists run: seq<Act> :: CanRun(Empty(), run) && After(Empty(), run) == w }

  lemma ReachableInv(w: World)
    requires Reachable(w)
    ensures Inv(w)
  {
    var run :| CanRun(Empty(), run) && After(Empty(), run) == w;
    EmptyInv();
    RunKeeps(Empty(), run);
  }

  /** Messages from one sender arrive at one receiver in the order of their posting, each at most once; and only where they were posted. */
  lemma InOrderAtMostOnce(w: World, g: nat, i: nat, j: nat)
    requires Reachable(w) && g < |w.agents| && i < j < |w.agents[g].ran|
    ensures var t, u := w.agents[g].ran[i], w.agents[g].ran[j];
            && t != u && t.msg < |w.posts| && u.msg < |w.posts| && t.dest in w.posts[t.msg].dests
            && (t.dest == u.dest && w.posts[t.msg].agent == w.posts[u.msg].agent ==> t.msg < u.msg)
  {
    hide Reachable, Shape, ListOk, SendingOk, PostOk, RealmOf;
    ReachableInv(w);
    assert LineOk(w, g);
    assert Line(w, g)[i] == w.agents[g].ran[i] && Line(w, g)[j] == w.agents[g].ran[j];
    assert InTurn(w, Line(w, g)[i], Line(w, g)[j]);
    assert Addressed(w, g, Line(w, g)[i]) && Addressed(w, g, Line(w, g)[j]);
  }

  /** Nothing is on its way. */
  predicate Settled(w: World) {
    forall g :: 0 <= g < |w.agents| ==> w.agents[g].queue == [] && w.agents[g].sending == None
  }

  /** Once nothing is on its way, every receiver of every message has run its task, in its own agent. */
  lemma AllArrive(w: World, m: nat, c: nat)
    requires Reachable(w) && Settled(w) && m < |w.posts| && c in w.posts[m].dests
    ensures var g := RealmOf(w, c).agent; g < |w.agents| && Task(c, m) in w.agents[g].ran
  {
    hide Reachable, Shape, ListOk, SendingOk, LineOk, RealmOf;
    ReachableInv(w);
    assert PostOk(w, m) && Reaches(w, m, c);
    var g := RealmOf(w, c).agent;
    assert SendingOf(w, w.posts[m].agent) == None;
    assert g < |w.agents| && Line(w, g) == w.agents[g].ran;
  }

  /** Until then some thread can go on, so that no message waits for good. */
  lemma GoesOn(w: World)
    requires !Settled(w)
    ensures exists g: nat :: Can(w, Push(g)) || Can(w, RunTask(g, true))
  {
    var g :| 0 <= g < |w.agents| && !(w.agents[g].queue == [] && w.agents[g].sending == None);
    assert Can(w, Push(g)) || Can(w, RunTask(g, true));
  }

  /** What comes of a task is settled as it runs: nothing exactly if its channel is closed or its realm not alive or eligible then. */
  lemma DeliversIff(w: World, g: nat, readable: bool)
    requires Can(w, RunTask(g, readable)) && Inv(w)
    ensures var x, y, n := w.agents[g], Do(w, RunTask(g, readable)).agents[g], |w.agents[g].ran|;
            && y.ran == x.ran + [x.queue[0]] && |y.outcomes| == n + 1 && y.outcomes[..n] == x.outcomes
            && y.outcomes[n] == OutcomeNow(w, x.queue[0].dest, readable)
            && Fits(w, x.queue[0].dest, y.outcomes[n], readable)
  {
    hide ListOk, SendingOk, PostOk;
    assert LineOk(w, g);
    var t := w.agents[g].queue[0];
    assert Line(w, g)[|w.agents[g].ran|] == t;
    assert Addressed(w, g, t);
  }

  /** The channel and its realm as they are, and what a task may come to. */
  ghost predicate Fits(w: World, c: nat, o: Outcome, readable: bool) {
    && c < |w.channels| && w.channels[c].realm < |w.realms|
    && var realm := w.realms[w.channels[c].realm];
       (o == Nothing <==> w.channels[c].closed || !realm.alive || !realm.eligible)
       && (o != Nothing ==> (o == Message <==> readable))
  }

  /** What an agent has run stays as it is, and what came of it. */
  ghost predicate RanOn(w: World, x: World, g: nat) {
    && g < |w.agents| <= |x.agents| && w.agents[g].ran <= x.agents[g].ran && w.agents[g].outcomes <= x.agents[g].outcomes
    && |w.agents[g].outcomes| == |w.agents[g].ran| && |x.agents[g].outcomes| == |x.agents[g].ran|
  }

  lemma RanStep(w: World, a: Act, g: nat)
    requires Can(w, a) && Inv(w) && g < |w.agents|
    ensures RanOn(w, Do(w, a), g)
    ensures |Do(w, a).agents[g].ran| == |w.agents[g].ran| || (a.RunTask? && a.agent == g)
  {
    assert |w.agents[g].outcomes| == |w.agents[g].ran|;
    hide Inv, Living, Receivers, Without, RealmOf, OutcomeNow;
  }

  lemma {:induction false} RanRun(w: World, run: seq<Act>, g: nat)
    requires CanRun(w, run) && Inv(w) && g < |w.agents|
    ensures RanOn(w, After(w, run), g)
    decreases |run|
  {
    assert |w.agents[g].outcomes| == |w.agents[g].ran|;
    hide Inv, Do, Can;
    if run != [] {
      RanStep(w, run[0], g);
      StepKeeps(w, run[0]);
      RanRun(Do(w, run[0]), run[1..], g);
    }
  }

  function RanCount(w: World, g: nat): nat { if g < |w.agents| then |w.agents[g].ran| else 0 }

  /** Where in a run an agent runs its task i: step n. */
  ghost predicate RanThen(w: World, run: seq<Act>, g: nat, i: nat, n: nat)
    requires CanRun(w, run)
  {
    && n < |run| && CanRun(w, run[..n]) && run[n].RunTask? && run[n].agent == g
    && var v, x := After(w, run[..n]), After(w, run);
       && g < |v.agents| && g < |x.agents| && |v.agents[g].ran| == i < |x.agents[g].ran| && i < |x.agents[g].outcomes|
       && Inv(v) && Fits(v, x.agents[g].ran[i].dest, x.agents[g].outcomes[i], run[n].readable)
  }

  lemma RanFirst(w: World, run: seq<Act>, g: nat, i: nat)
    requires CanRun(w, run) && run != [] && Inv(w) && RanCount(w, g) <= i < RanCount(Do(w, run[0]), g)
    ensures RanThen(w, run, g, i, 0)
  {
    var a, x := run[0], Do(w, run[0]);
    NoneBefore(w, a, g);
    RanStep(w, a, g);
    DeliversIff(w, g, a.readable);
    StepKeeps(w, a);
    RanRun(x, run[1..], g);
    assert run[..0] == [];
    hide Inv, Do, Can, Fits;
  }

  /** Only a task that is run is one more. */
  lemma NoneBefore(w: World, a: Act, g: nat)
    requires Can(w, a) && RanCount(w, g) < RanCount(Do(w, a), g)
    ensures g < |w.agents| && a.RunTask? && a.agent == g && RanCount(Do(w, a), g) == RanCount(w, g) + 1
  {
    hide RealmOf, Living, Receivers, Without, OutcomeNow;
  }

  lemma RanLater(w: World, run: seq<Act>, g: nat, i: nat, n: nat)
    requires CanRun(w, run) && run != [] && RanThen(Do(w, run[0]), run[1..], g, i, n)
    ensures RanThen(w, run, g, i, n + 1)
  {
    hide Inv, Do, Can, Fits;
    assert run[..n + 1][0] == run[0] && run[..n + 1][1..] == run[1..][..n];
  }

  /** Every task run was run at some step of the run, and what came of it is what its channel and realm were at that step. */
  lemma {:induction false} WhenRun(w: World, run: seq<Act>, g: nat, i: nat) returns (n: nat)
    requires CanRun(w, run) && Inv(w) && RanCount(w, g) <= i < RanCount(After(w, run), g)
    ensures RanThen(w, run, g, i, n)
    decreases |run|
  {
    hide Inv, Do, Can, Fits, RanCount, RanThen;
    if i < RanCount(Do(w, run[0]), g) {
      n := 0;
      RanFirst(w, run, g, i);
    } else {
      StepKeeps(w, run[0]);
      n := WhenRun(Do(w, run[0]), run[1..], g, i);
      RanLater(w, run, g, i, n);
      n := n + 1;
    }
  }

  /**
   Every delivery, over a whole run that leaves nothing on its way: the agent of each receiver of each message has run one
   task of it, at one step of the run, and the message has come through, or word that it could not be read, exactly if
   at that step the channel was open and its realm alive and eligible.
   */
  lemma EveryDelivery(run: seq<Act>, m: nat, c: nat) returns (i: nat, n: nat)
    requires CanRun(Empty(), run) && Settled(After(Empty(), run))
    requires m < |After(Empty(), run).posts| && c in After(Empty(), run).posts[m].dests
    ensures var w := After(Empty(), run);
            var g := RealmOf(w, c).agent;
            && g < |w.agents| && i < |w.agents[g].ran|
            && (forall j :: 0 <= j < |w.agents[g].ran| ==> (w.agents[g].ran[j] == Task(c, m) <==> j == i))
            && RanThen(Empty(), run, g, i, n)
  {
    var w := After(Empty(), run);
    var g := RealmOf(w, c).agent;
    assert Reachable(w);
    AllArrive(w, m, c);
    i :| 0 <= i < |w.agents[g].ran| && w.agents[g].ran[i] == Task(c, m);
    forall j | 0 <= j < |w.agents[g].ran| && j != i
      ensures w.agents[g].ran[j] != Task(c, m)
    {
      InOrderAtMostOnce(w, g, if i < j then i else j, if i < j then j else i);
    }
    EmptyInv();
    hide Inv, RanThen;
    n := WhenRun(Empty(), run, g, i);
  }

  // What each act does, field by field.

  /** Closing closes this channel, takes it off the list, and touches nothing else. */
  lemma CloseCloses(w: World, c: nat)
    requires Can(w, Close(c)) && Inv(w)
    ensures var x := Do(w, Close(c));
            && |x.channels| == |w.channels| && x.channels[c] == Channel(w.channels[c].key, w.channels[c].realm, true)
            && (forall d :: 0 <= d < |w.channels| && d != c ==> x.channels[d] == w.channels[d])
            && Rising(x.open) && (forall d :: d in x.open <==> d in w.open && d != c)
            && x.agents == w.agents && x.realms == w.realms && x.checked == w.checked && x.posts == w.posts
  {
    WithoutIs(w.open, c);
    hide Without, MailOk;
  }

  /** A channel constructed is the newest, with the key and the realm given; it is open, and last on the list. */
  lemma ConstructOpens(w: World, r: nat, key: Key)
    requires Can(w, Construct(r, key))
    ensures var x, n := Do(w, Construct(r, key)), |w.channels|;
            && |x.channels| == n + 1 && x.channels[..n] == w.channels
            && x.channels[n].key == key && x.channels[n].realm == r && !x.channels[n].closed
            && |x.open| == |w.open| + 1 && x.open[..|w.open|] == w.open && x.open[|w.open|] == n
            && x.agents == w.agents && x.realms == w.realms && x.checked == w.checked && x.posts == w.posts
            && w.realms[r].alive
  {
  }

  /** Nothing but the realms is other than it was, and of those that were there only r. */
  ghost predicate OnlyRealm(w: World, x: World, r: nat) {
    && |w.realms| <= |x.realms| && (forall q :: 0 <= q < |w.realms| && q != r ==> x.realms[q] == w.realms[q])
    && x.agents == w.agents && x.channels == w.channels && x.open == w.open && x.checked == w.checked && x.posts == w.posts
  }

  /** A realm begins alive and eligible, in its agent; may stop being eligible and be so again while it lives; and ends for good. */
  lemma RealmActs(w: World, r: nat, g: nat, on: bool)
    ensures Can(w, NewRealm(g)) ==>
              var x := Do(w, NewRealm(g));
              && |x.realms| == |w.realms| + 1 && OnlyRealm(w, x, |w.realms|) && g < |w.agents|
              && x.realms[|w.realms|].agent == g && x.realms[|w.realms|].alive && x.realms[|w.realms|].eligible
    ensures Can(w, SetEligible(r, on)) ==>
              var x := Do(w, SetEligible(r, on));
              && |x.realms| == |w.realms| && OnlyRealm(w, x, r) && w.realms[r].alive
              && x.realms[r].agent == w.realms[r].agent && x.realms[r].alive && x.realms[r].eligible == on
    ensures Can(w, Die(r)) ==>
              var x := Do(w, Die(r));
              && |x.realms| == |w.realms| && OnlyRealm(w, x, r)
              && x.realms[r].agent == w.realms[r].agent && !x.realms[r].alive
    ensures r < |w.realms| && !w.realms[r].alive ==> !Can(w, SetEligible(r, on)) && forall key: Key :: !Can(w, Construct(r, key))
  {
  }

  lemma AgentBegins(w: World)
    ensures var x, n := Do(w, NewAgent), |w.agents|;
            && |x.agents| == n + 1 && x.agents[..n] == w.agents
            && x.agents[n].ran == [] && x.agents[n].outcomes == [] && x.agents[n].queue == [] && x.agents[n].sending == None
            && x.realms == w.realms && x.channels == w.channels && x.open == w.open && x.checked == w.checked && x.posts == w.posts
  {
  }

  /** Posting begins exactly where the channel is open and its realm eligible; one message more of the channel may then be posted. */
  lemma CheckExactly(w: World, c: nat)
    requires c < |w.channels| && w.channels[c].realm < |w.realms|
    ensures Can(w, Check(c)) <==> !w.channels[c].closed && w.realms[w.channels[c].realm].eligible
    ensures Can(w, Check(c)) ==>
              var x := Do(w, Check(c));
              && x.checked[c] == w.checked[c] + 1 && (forall d :: d != c ==> x.checked[d] == w.checked[d])
              && x.agents == w.agents && x.realms == w.realms && x.channels == w.channels && x.open == w.open && x.posts == w.posts
  {
  }

  /** A message begins to be sent to all it is posted to, by the agent of its channel, once for each time that posting began. */
  lemma PostBegins(w: World, c: nat)
    requires Can(w, Post(c)) && Shape(w)
    ensures var x, m, g := Do(w, Post(c)), |w.posts|, w.realms[w.channels[c].realm].agent;
            && |x.posts| == m + 1 && x.posts[..m] == w.posts && x.posts[m].from == c && x.posts[m].agent == g
            && |x.agents| == |w.agents| && g < |w.agents|
            && x.agents[g] == Agent(w.agents[g].ran, w.agents[g].outcomes, w.agents[g].queue, Some(Sending(m, x.posts[m].dests)))
            && (forall h :: 0 <= h < |w.agents| && h != g ==> x.agents[h] == w.agents[h])
            && w.checked[c] > 0 && x.checked[c] == w.checked[c] - 1 && (forall d :: d != c ==> x.checked[d] == w.checked[d])
            && (forall d :: d in x.open <==> d in w.open && RealmOf(w, d).alive)
            && x.realms == w.realms && x.channels == w.channels
  {
    LivingIs(w, w.open);
    hide Living, Receivers, OutcomeNow, PushOne;
  }

  /** Sending goes on with the first receiver left: its agent's queue gets one task, at its end, and no other queue changes. */
  lemma PushGives(w: World, g: nat)
    requires Can(w, Push(g)) && Inv(w)
    ensures var x, s := Do(w, Push(g)), w.agents[g].sending.value;
            && |x.agents| == |w.agents|
            && (forall h :: 0 <= h < |w.agents| ==> x.agents[h].ran == w.agents[h].ran && x.agents[h].outcomes == w.agents[h].outcomes)
            && (forall h :: 0 <= h < |w.agents| && h != g ==> x.agents[h].sending == w.agents[h].sending)
            && x.agents[g].sending == (if s.rest == [] then None else Some(Sending(s.msg, s.rest[1..])))
            && (forall h :: 0 <= h < |w.agents| ==>
                  x.agents[h].queue == if s.rest != [] && h == RealmOf(w, s.rest[0]).agent
                                       then w.agents[h].queue + [Task(s.rest[0], s.msg)] else w.agents[h].queue)
            && x.realms == w.realms && x.channels == w.channels && x.open == w.open && x.checked == w.checked && x.posts == w.posts
  {
    var s := w.agents[g].sending.value;
    assert SendingOk(w, g) && PostOk(w, s.msg);
    if s.rest != [] {
      assert s.rest[0] in s.rest;
    }
    hide ListOk, MailOk;
  }

  /** An agent runs the first of its tasks, and nothing changes but what it has run and what came of it. */
  lemma TaskRuns(w: World, g: nat, readable: bool)
    requires Can(w, RunTask(g, readable))
    ensures var x := Do(w, RunTask(g, readable));
            && |x.agents| == |w.agents| && x.agents[g].sending == w.agents[g].sending
            && w.agents[g].queue == [x.agents[g].ran[|w.agents[g].ran|]] + x.agents[g].queue
            && |x.agents[g].ran| == |w.agents[g].ran| + 1 && x.agents[g].ran[..|w.agents[g].ran|] == w.agents[g].ran
            && (forall h :: 0 <= h < |w.agents| && h != g ==> x.agents[h] == w.agents[h])
            && x.realms == w.realms && x.channels == w.channels && x.open == w.open && x.checked == w.checked && x.posts == w.posts
  {
    hide OutcomeNow;
  }

  function Checks(run: seq<Act>, c: nat): nat
    decreases |run|
  {
    if run == [] then 0 else (if run[0] == Check(c) then 1 else 0) + Checks(run[1..], c)
  }

  function PostsOf(posts: seq<Posted>, c: nat): nat
    decreases |posts|
  {
    if posts == [] then 0 else PostsOf(posts[..|posts| - 1], c) + if posts[|posts| - 1].from == c then 1 else 0
  }

  lemma CountStep(w: World, a: Act, c: nat)
    requires Can(w, a) && Inv(w)
    ensures var x := Do(w, a);
            x.checked[c] + PostsOf(x.posts, c) == w.checked[c] + PostsOf(w.posts, c) + if a == Check(c) then 1 else 0
  {
    if a.Post? {
      PostBegins(w, a.channel);
    } else if a.Push? {
      PushFrame(w, a.agent);
    }
    hide Inv, Living, Receivers, Without, OutcomeNow, PushOne, RealmOf;
  }

  /** No message without a check of its own: over any run, those posted and those yet to be posted are as many as the checks. */
  lemma {:induction false} PostsChecked(w: World, run: seq<Act>, c: nat)
    requires CanRun(w, run) && Inv(w)
    ensures var x := After(w, run); x.checked[c] + PostsOf(x.posts, c) == w.checked[c] + PostsOf(w.posts, c) + Checks(run, c)
    decreases |run|
  {
    hide Inv, Do, Can, PostsOf;
    if run != [] {
      CountStep(w, run[0], c);
      StepKeeps(w, run[0]);
      PostsChecked(Do(w, run[0]), run[1..], c);
    }
  }

  // A channel closed, or of a realm that has ended.

  /** Nothing comes to such a channel any more. */
  ghost predicate Silent(w: World, c: nat) {
    c < |w.channels| && w.channels[c].realm < |w.realms| && (w.channels[c].closed || !w.realms[w.channels[c].realm].alive)
  }

  lemma StaysSilent(w: World, a: Act, c: nat)
    requires Can(w, a) && Silent(w, c)
    ensures Silent(Do(w, a), c)
  {
    hide Living, Receivers, Without, RealmOf, OutcomeNow, Closed;
    if a.Push? {
      PushFrame(w, a.agent);
    }
    hide PushOne;
    if a.Close? {
      assert Closed(w, a.channel) || !Closed(w, a.channel);
    }
  }

  /** No task of channel c beyond what agent g had run delivers, and no message beyond those posted goes to it. */
  ghost predicate NoMore(w: World, x: World, c: nat, g: nat) {
    && (forall i :: RanCount(w, g) <= i < RanCount(x, g) && x.agents[g].ran[i].dest == c ==>
          i < |x.agents[g].outcomes| && x.agents[g].outcomes[i] == Nothing)
    && |w.posts| <= |x.posts| && (forall m :: |w.posts| <= m < |x.posts| ==> c !in x.posts[m].dests)
  }

  lemma PostsGrow(w: World, a: Act)
    requires Can(w, a)
    ensures w.posts <= Do(w, a).posts
    ensures |Do(w, a).posts| == |w.posts| || (a.Post? && |Do(w, a).posts| == |w.posts| + 1)
  {
    hide Living, Receivers, Without, RealmOf, OutcomeNow;
  }

  lemma {:induction false} PostsStay(w: World, run: seq<Act>)
    requires CanRun(w, run)
    ensures w.posts <= After(w, run).posts
    decreases |run|
  {
    hide Do, Can;
    if run != [] {
      PostsGrow(w, run[0]);
      PostsStay(Do(w, run[0]), run[1..]);
    }
  }

  lemma SilentStep(w: World, a: Act, c: nat, g: nat)
    requires Can(w, a) && Inv(w) && Silent(w, c)
    ensures NoMore(w, Do(w, a), c, g)
  {
    hide Inv, Do, Can;
    PostsGrow(w, a);
    if a.Post? {
      SilentPost(w, a.channel, c);
    }
    if RanCount(w, g) < RanCount(Do(w, a), g) {
      NoneBefore(w, a, g);
      DeliversIff(w, g, a.readable);
    }
  }

  lemma SilentPost(w: World, p: nat, c: nat)
    requires Can(w, Post(p)) && Inv(w) && Silent(w, c)
    ensures var posts := Do(w, Post(p)).posts; |posts| == |w.posts| + 1 && c !in posts[|w.posts|].dests
  {
    PostedTo(w, p, c);
    hide Do, Can, MailOk;
  }

  lemma {:induction false} NoMoreRun(w: World, run: seq<Act>, c: nat, g: nat)
    requires CanRun(w, run) && Inv(w) && Silent(w, c)
    ensures NoMore(w, After(w, run), c, g)
    decreases |run|
  {
    hide Inv, Do, Can, Silent, NoMore;
    if run == [] {
      NoMoreNow(w, c, g);
    } else {
      var y := Do(w, run[0]);
      SilentStep(w, run[0], c, g);
      StaysSilent(w, run[0], c);
      StepKeeps(w, run[0]);
      PostsStay(y, run[1..]);
      NoMoreRun(y, run[1..], c, g);
      if g < |y.agents| {
        RanRun(y, run[1..], g);
      }
      NoMoreJoin(w, y, After(w, run), c, g);
    }
  }

  lemma NoMoreNow(w: World, c: nat, g: nat)
    ensures NoMore(w, w, c, g)
  {
  }

  lemma NoMoreJoin(w: World, y: World, x: World, c: nat, g: nat)
    requires NoMore(w, y, c, g) && NoMore(y, x, c, g) && y.posts <= x.posts && (g < |y.agents| ==> RanOn(y, x, g))
    ensures NoMore(w, x, c, g)
  {
    forall i | RanCount(w, g) <= i < RanCount(x, g) && x.agents[g].ran[i].dest == c
      ensures i < |x.agents[g].outcomes| && x.agents[g].outcomes[i] == Nothing
    {
      if i < RanCount(y, g) {
        assert y.agents[g].ran[i] == x.agents[g].ran[i] && y.agents[g].outcomes[i] == x.agents[g].outcomes[i];
      }
    }
    forall m | |w.posts| <= m < |x.posts|
      ensures c !in x.posts[m].dests
    {
      if m < |y.posts| {
        assert y.posts[m] == x.posts[m];
      }
    }
  }

  lemma {:induction false} RunSplit(w: World, run: seq<Act>, n: nat)
    requires CanRun(w, run) && n <= |run|
    ensures CanRun(w, run[..n]) && CanRun(After(w, run[..n]), run[n..]) && After(After(w, run[..n]), run[n..]) == After(w, run)
    decreases n
  {
    hide Do, Can;
    if n == 0 {
      assert run[..0] == [] && run[0..] == run;
    } else {
      RunSplit(Do(w, run[0]), run[1..], n - 1);
      assert run[..n][0] == run[0] && run[..n][1..] == run[1..][..n - 1] && run[n..] == run[1..][n - 1..];
    }
  }

  /** The world just after step n of a run. */
  lemma StepOf(w: World, run: seq<Act>, n: nat)
    requires CanRun(w, run) && Inv(w) && n < |run|
    ensures CanRun(w, run[..n]) && CanRun(w, run[..n + 1])
    ensures var v := After(w, run[..n]); Inv(v) && Can(v, run[n]) && After(w, run[..n + 1]) == Do(v, run[n])
  {
    hide Inv, Do, Can;
    RunSplit(w, run, n);
    RunSplit(w, run, n + 1);
    RunKeeps(w, run[..n]);
    RunSplit(w, run[..n + 1], n);
    assert run[..n + 1][..n] == run[..n] && run[..n + 1][n..] == [run[n]];
    var v, one := After(w, run[..n]), [run[n]];
    assert one[1..] == [];
    assert After(v, one) == After(Do(v, run[n]), []);
  }

  /** In any run that closes a channel: from there on it is closed, no task of its delivers a message, and no message is posted to it. */
  lemma NeverAfterClose(run: seq<Act>, n: nat, c: nat, g: nat)
    requires CanRun(Empty(), run) && n < |run| && run[n] == Close(c)
    ensures CanRun(Empty(), run[..n + 1])
    ensures var v, x := After(Empty(), run[..n + 1]), After(Empty(), run);
            c < |v.channels| && v.channels[c].closed && c !in v.open && NoMore(v, x, c, g)
  {
    EmptyInv();
    StepOf(Empty(), run, n);
    RunSplit(Empty(), run, n + 1);
    var u := After(Empty(), run[..n]);
    CloseCloses(u, c);
    StepKeeps(u, Close(c));
    RealmThere(u, c);
    hide Inv, Do, Can, NoMore;
    NoMoreRun(Do(u, Close(c)), run[n + 1..], c, g);
  }

  lemma RealmThere(w: World, c: nat)
    requires Inv(w) && c < |w.channels|
    ensures w.channels[c].realm < |w.realms|
  {
  }

  /** In any run that ends a realm: from there on the same is true of every channel of its. */
  lemma NeverAfterEnd(run: seq<Act>, n: nat, r: nat, c: nat, g: nat)
    requires CanRun(Empty(), run) && n < |run| && run[n] == Die(r)
    ensures CanRun(Empty(), run[..n + 1])
    ensures var v, x := After(Empty(), run[..n + 1]), After(Empty(), run);
            && r < |v.realms| && !v.realms[r].alive
            && (c < |v.channels| && v.channels[c].realm == r ==> NoMore(v, x, c, g))
  {
    EmptyInv();
    StepOf(Empty(), run, n);
    RunSplit(Empty(), run, n + 1);
    var u := After(Empty(), run[..n]);
    RealmActs(u, r, 0, true);
    StepKeeps(u, Die(r));
    hide Inv, Do, Can, NoMore;
    var v := After(Empty(), run[..n + 1]);
    if c < |v.channels| && v.channels[c].realm == r {
      NoMoreRun(v, run[n + 1..], c, g);
    }
  }
}
