/** Processing events while the message bus is one of the receivers: every call is a run of
    the reference counting, and one run of the two queues. */
module BusEvents {
  import opened Events
  import opened Envelopes
  import opened EventManager
  import opened MsgBus
  import EventQueue
  import EventRuns

  /** What happens while one event is dispatched: what the handlers before the bus do, and
      what the subscribers do if the bus is called. */
  datatype Turn = Turn(own: seq<Action>, acts: seq<seq<Action>>)

  const IDLE := Turn([], [])

  function TurnAt(script: seq<Turn>, n: nat): Turn { if n < |script| then script[n] else IDLE }

  /** The most that the handlers of a turn, or of all turns from n on, post. */
  function TurnSize(t: Turn): nat { |t.own| + Actions(t.acts) }

  function SizeFrom(script: seq<Turn>, n: nat): nat
    decreases |script| - n
  {
    if n < |script| then TurnSize(script[n]) + SizeFrom(script, n + 1) else 0
  }

  lemma SizeStep(script: seq<Turn>, n: nat)
    ensures SizeFrom(script, n) == TurnSize(TurnAt(script, n)) + SizeFrom(script, n + 1)
  {
    assert TurnSize(IDLE) == 0;
  }

  // ----- what is known before a call -----

  /** The tables, the answers and the turns that a call of processEvents meets. */
  datatype Scene = Scene(listeners: seq<Listener>, receivers: seq<Receiver>, subs: seq<Sub>, bus: nat,
                         answers: Answers, script: seq<Turn>)

  ghost function SceneOf(b: Bus, answers: Answers, script: seq<Turn>): Scene
    reads b.subs, b.manager.listeners, b.manager.receivers
  {
    Scene(b.manager.listeners[..], b.manager.receivers[..], b.subs[..], b.number, answers, script)
  }

  /** In dispatch n, event e gets to the bus. */
  ghost predicate Gets(sc: Scene, e: Event, n: nat) {
    GetsTo(Targets(sc.listeners, sc.receivers, e), e, AnswersAt(sc.answers, n), ToReceiver(sc.bus))
  }

  /** It carries a message and does not. */
  ghost predicate Missed(sc: Scene, e: Event, n: nat) { Carried(e) != [] && !Gets(sc, e, n) }

  /** The messages missed in a log of dispatches, from number `from` on. */
  ghost function AllMissed(sc: Scene, log: seq<Event>, from: nat): multiset<nat> {
    if log == [] then multiset{}
    else
      var n := |log| - 1;
      AllMissed(sc, log[..n], from) + if Missed(sc, log[n], from + n) then multiset{log[n].userData} else multiset{}
  }

  lemma MissedNext(sc: Scene, log: seq<Event>, from: nat, e: Event)
    ensures AllMissed(sc, log + [e], from)
         == AllMissed(sc, log, from) + if Missed(sc, e, from + |log|) then multiset{e.userData} else multiset{}
  {
    assert (log + [e])[..|log|] == log;
  }

  lemma NoneMissed(sc: Scene, from: nat)
    ensures AllMissed(sc, [], from) == multiset{}
  {}

  lemma {:induction false} MissedJoin(sc: Scene, a: seq<Event>, b: seq<Event>)
    ensures AllMissed(sc, a + b, 0) == AllMissed(sc, a, 0) + AllMissed(sc, b, |a|)
    decreases |b|
  {
    hide Missed, AllMissed;
    if b == [] {
      NoneMissed(sc, |a|);
      assert a + b == a;
    } else {
      var n := |b| - 1;
      assert a + b == a + b[..n] + [b[n]] && b == b[..n] + [b[n]];
      MissedJoin(sc, a, b[..n]);
      MissedNext(sc, a + b[..n], 0, b[n]);
      MissedNext(sc, b[..n], |a|, b[n]);
      assert |a| + |b[..n]| == 0 + |a + b[..n]|;
    }
  }

  // ----- what a call does, as a function of that -----

  /** One dispatch, of an event taken off its queue. */
  ghost function Dispatches(w: World, q: EventRuns.Queues, e: Event, subs: seq<Sub>, turn: Turn, gets: bool): Did {
    var d := PerformsAll(w, q, true, turn.own);
    Both(d, AtBus(Reached(w, d.ran), EventRuns.PostAll(q, d.posts), e, subs, turn.acts, gets))
  }

  /** The bus delivers the message that gets to it; one that does not is lost. */
  ghost function AtBus(w: World, q: EventRuns.Queues, e: Event, subs: seq<Sub>, acts: seq<seq<Action>>, gets: bool): Did {
    if gets then Delivers(w, q, true, e, subs, acts)
    else if Carried(e) != [] then Did([Drop(0)], []) else NOTHING_DONE
  }

  /** An event taken off its queue. */
  function Taken(q: EventRuns.Queues, e: Event): EventRuns.Queues {
    if e.priority == IMMEDIATE then q.(immediate := if q.immediate == [] then [] else q.immediate[1..])
    else q.(main := if q.main == [] then [] else q.main[1..])
  }

  /** The state after a log of dispatches, the steps made, and the posts, dispatch by dispatch. */
  datatype Trace = Trace(world: World, queues: EventRuns.Queues, ran: seq<Step>, made: EventRuns.Script)

  ghost function TraceOf(sc: Scene, w: World, q: EventRuns.Queues, log: seq<Event>, from: nat): Trace {
    if log == [] then Trace(w, q, [], [])
    else
      var n := |log| - 1;
      TraceStep(sc, TraceOf(sc, w, q, log[..n], from), log[n], from + n)
  }

  ghost function TraceStep(sc: Scene, t: Trace, e: Event, n: nat): Trace {
    var q := Taken(t.queues, e);
    var d := Dispatches(t.world, q, e, sc.subs, TurnAt(sc.script, n), Gets(sc, e, n));
    Trace(Reached(t.world, d.ran), EventRuns.PostAll(q, d.posts), t.ran + d.ran, t.made + [d.posts])
  }

  lemma TraceNothing(sc: Scene, w: World, q: EventRuns.Queues, from: nat)
    ensures TraceOf(sc, w, q, [], from) == Trace(w, q, [], []) && AllMissed(sc, [], from) == multiset{}
  {}

  lemma TraceNext(sc: Scene, w: World, q: EventRuns.Queues, log: seq<Event>, from: nat, e: Event)
    ensures TraceOf(sc, w, q, log + [e], from) == TraceStep(sc, TraceOf(sc, w, q, log, from), e, from + |log|)
  {
    hide TraceStep;
    assert (log + [e])[..|log|] == log;
  }

  lemma {:induction false} TraceJoin(sc: Scene, w: World, q: EventRuns.Queues, a: seq<Event>, b: seq<Event>)
    ensures
      var s := TraceOf(sc, w, q, a, 0);
      var t := TraceOf(sc, s.world, s.queues, b, |a|);
      TraceOf(sc, w, q, a + b, 0) == Trace(t.world, t.queues, s.ran + t.ran, s.made + t.made)
    decreases |b|
  {
    hide TraceOf, TraceStep;
    var s := TraceOf(sc, w, q, a, 0);
    if b == [] {
      TraceNothing(sc, s.world, s.queues, |a|);
      assert a + b == a && s.ran + [] == s.ran && s.made + [] == s.made;
    } else {
      var n := |b| - 1;
      var t := TraceOf(sc, s.world, s.queues, b[..n], |a|);
      assert a + b == a + b[..n] + [b[n]] && b == b[..n] + [b[n]];
      TraceJoin(sc, w, q, a, b[..n]);
      TraceNext(sc, w, q, a + b[..n], 0, b[n]);
      TraceNext(sc, s.world, s.queues, b[..n], |a|, b[n]);
      assert |a| + |b[..n]| == 0 + |a + b[..n]|;
      Regroup(sc, s, t, b[n], |a| + n);
    }
  }

  lemma Regroup(sc: Scene, s: Trace, t: Trace, e: Event, n: nat)
    ensures var u := TraceStep(sc, t, e, n);
      TraceStep(sc, Trace(t.world, t.queues, s.ran + t.ran, s.made + t.made), e, n)
      == Trace(u.world, u.queues, s.ran + u.ran, s.made + u.made)
  {
    hide Dispatches, Gets, TurnAt, Taken;
    var d := Dispatches(t.world, Taken(t.queues, e), e, sc.subs, TurnAt(sc.script, n), Gets(sc, e, n));
    assert s.ran + t.ran + d.ran == s.ran + (t.ran + d.ran);
    assert s.made + t.made + [d.posts] == s.made + (t.made + [d.posts]);
  }

  // ----- runs -----

  /** A run of the step system from w to end, both in order. */
  ghost predicate Leads(w: World, ran: seq<Step>, end: World) {
    IsRun(w, ran) && After(w, ran) == end && Inv(w) && Inv(end)
  }

  lemma LeadsNowhere(w: World)
    requires Inv(w)
    ensures Leads(w, [], w)
  {}

  lemma LeadsOn(w: World, a: seq<Step>, mid: World, b: seq<Step>, end: World)
    requires Leads(w, a, mid) && Leads(mid, b, end)
    ensures Leads(w, a + b, end)
  {
    RunAppend(w, a, b);
  }

  /** No message is dropped. */
  predicate NoDrops(ran: seq<Step>) { forall s :: s in ran ==> !s.Drop? }

  lemma ClientsDropNothing(w: World, ran: seq<Step>, end: World)
    requires ClientRun(w, ran, end) && Inv(w)
    ensures Leads(w, ran, end) && NoDrops(ran)
  {
    RunKeeps(w, ran);
  }

  lemma DeliveryDropsNothing(w: World, ran: seq<Step>)
    requires IsDelivery(w, ran)
    ensures NoDrops(ran)
  {
    forall s | s in ran ensures !s.Drop? {
      var i :| 0 <= i < |ran| && ran[i] == s;
      assert 0 < i < |ran| - 1 ==> ByClient(ran[i]);
    }
  }

  // ----- one event -----

  /** The bus between two dispatches. */
  ghost predicate Resting(b: Bus)
    reads b, b.manager, b.manager.mainQueue, b.manager.mainQueue.events, b.manager.immediateQueue, b.manager.immediateQueue.events
  {
    b.Ready() && Inv(b.Current()) && b.handling == []
  }

  /** dispatchEvent of an event just taken off its queue, as a function: the steps made and
      the events posted. If it carries a message and does not get to the bus, that is lost. */
  method Dispatch(b: Bus, e: Event, handles: (Target, Event) -> bool, turn: Turn)
    returns (called: seq<Target>, ghost ran: seq<Step>, ghost posts: seq<Event>)
    requires Resting(b) && b.manager.initialized && b.taken == Carried(e)
    modifies b`envelopes, b`held, b`handling, b`taken, b`lost, b.manager`totalDispatched, b.manager`totalDropped,
      b.manager`posted, b.manager.mainQueue`tail, b.manager.mainQueue`count, b.manager.mainQueue.events,
      b.manager.immediateQueue, b.manager.immediateQueue.events
    ensures Resting(b) && b.taken == [] && Leads(old(b.Current()), ran, b.Current())
    ensures Posted(old(b.manager.State()), posts, b.manager.State())
    ensures b.manager.posted == old(b.manager.posted) + |posts|
    ensures b.manager.totalDispatched == old(b.manager.totalDispatched) + 1
    ensures EventManager.Delivered(called, Targets(b.manager.listeners[..], b.manager.receivers[..], e), e, handles)
    ensures
      var gets := GetsTo(Targets(b.manager.listeners[..], b.manager.receivers[..], e), e, handles, ToReceiver(b.number));
      && Did(ran, posts) == Dispatches(old(b.Current()), old(b.manager.State()), e, b.subs[..], turn, gets)
      && b.lost == old(b.lost) + (if Carried(e) != [] && !gets then multiset{e.userData} else multiset{})
      && (Carried(e) == [] || gets ==> NoDrops(ran))
  {
    hide Waiting, Posted, Inv, Leads, NoDrops, ClientRun, Targets, EventManager.Delivered, GetsTo, IsDelivery, IsRun, After;
    hide EventQueue.Queue.Contents, EventQueue.ImmediateQueue.Contents, EventQueue.Queue.Ring, EventQueue.ImmediateQueue.Ring;
    hide PerformsAll, Delivers, Reached, Carried;
    ghost var w, q := b.Current(), b.manager.State();
    called := b.manager.DispatchEvent(e, handles);
    CalledIff(called, Targets(b.manager.listeners[..], b.manager.receivers[..], e), e, handles, ToReceiver(b.number));
    ran, posts := b.Handle(turn.own);
    ghost var w1, q1 := b.Current(), b.manager.State();
    ClientsDropNothing(w, ran, w1);
    OwnDone(w, ran, w1, q, posts, q1);
    ghost var last: seq<Step>, more: seq<Event> := [], [];
    if ToReceiver(b.number) in called {
      var handled, subscribers;
      handled, subscribers, last, more := b.OnEvent(e, turn.acts);
      Ended(w1, last, b.Current());
      if Carried(e) == [] { NothingDropped(); } else { DeliveryDropsNothing(w1, last); }
    } else if b.taken != [] {
      last := Lose(b, e);
      PostedNothing(q1);
    } else {
      NothingDropped();
      LeadsNowhere(w1);
      PostedNothing(q1);
    }
    LeadsOn(w, ran, w1, last, b.Current());
    NoDropsJoin(ran, last);
    PostedJoin(q, posts, q1, more, b.manager.State());
    BothParts(Did(ran, posts), Did(last, more));
    ran, posts := ran + last, posts + more;
  }

  lemma OwnDone(w: World, ran: seq<Step>, w1: World, q: EventRuns.Queues, posts: seq<Event>, q1: EventRuns.Queues)
    requires ClientRun(w, ran, w1) && Posted(q, posts, q1)
    ensures Reached(w, ran) == w1 && EventRuns.PostAll(q, posts) == q1
  {}

  lemma Ended(w: World, ran: seq<Step>, end: World)
    requires IsRun(w, ran) && After(w, ran) == end && Inv(w) && Inv(end)
    ensures Leads(w, ran, end)
  {}

  lemma NothingDropped()
    ensures NoDrops([])
  {}

  lemma NoDropsJoin(a: seq<Step>, b: seq<Step>)
    ensures NoDrops(a) && NoDrops(b) ==> NoDrops(a + b)
  {}

  /** The event was handled by someone else: nobody will release the reference. */
  ghost method Lose(b: Bus, e: Event) returns (ran: seq<Step>)
    requires Resting(b) && b.taken == Carried(e) && Carried(e) != []
    modifies b`taken, b`lost
    ensures Resting(b) && b.taken == [] && b.lost == old(b.lost) + multiset{e.userData}
    ensures Leads(old(b.Current()), ran, b.Current()) && ran == [Drop(0)]
  {
    hide Waiting, Inv, EventQueue.Queue.Contents, EventQueue.ImmediateQueue.Contents;
    var w := b.Current();
    StepKeeps(w, Drop(0));
    OneStep(w, Drop(0));
    b.lost := b.lost + multiset{e.userData};
    b.taken := [];
    assert w.queue[..0] + w.queue[1..] == b.Current().queue;
    assert b.Current() == Next(w, Drop(0));
    ran := [Drop(0)];
  }

  // ----- both queues -----

  /** From q0 on, the first loop with the posts made so far is where q is, whatever comes. */
  ghost predicate ImmediateSoFar(q0: EventRuns.Queues, made: EventRuns.Script, log: seq<Event>, q: EventRuns.Queues) {
    forall s: EventRuns.Script :: EventRuns.DrainImmediate(q0, made + s) == Logged(log, EventRuns.DrainImmediate(q, s))
  }

  /** The same for the second loop, after `done` events. */
  ghost predicate MainSoFar(q0: EventRuns.Queues, made: EventRuns.Script, log: seq<Event>, q: EventRuns.Queues,
                            maxEvents: nat, done: nat)
  {
    forall s: EventRuns.Script ::
      EventRuns.DrainMain(q0, made + s, maxEvents, done) == Logged(log, EventRuns.DrainMain(q, s, maxEvents, done + |log|))
  }

  function Logged(log: seq<Event>, r: EventRuns.Run): EventRuns.Run { r.(log := log + r.log) }

  lemma NothingSoFar(q: EventRuns.Queues, maxEvents: nat, done: nat)
    ensures ImmediateSoFar(q, [], [], q) && MainSoFar(q, [], [], q, maxEvents, done)
  {
    hide EventRuns.DrainImmediate, EventRuns.DrainMain;
    forall s: EventRuns.Script
      ensures EventRuns.DrainImmediate(q, [] + s) == Logged([], EventRuns.DrainImmediate(q, s))
      ensures EventRuns.DrainMain(q, [] + s, maxEvents, done) == Logged([], EventRuns.DrainMain(q, s, maxEvents, done))
    {
      assert [] + s == s;
      assert [] + EventRuns.DrainImmediate(q, s).log == EventRuns.DrainImmediate(q, s).log;
      assert [] + EventRuns.DrainMain(q, s, maxEvents, done).log == EventRuns.DrainMain(q, s, maxEvents, done).log;
    }
  }

  lemma ImmediateTurn(q0: EventRuns.Queues, made: EventRuns.Script, log: seq<Event>, q: EventRuns.Queues,
                      posts: seq<Event>, after: EventRuns.Queues)
    requires ImmediateSoFar(q0, made, log, q) && q.immediate != []
    requires Posted(q.(immediate := q.immediate[1..]), posts, after)
    ensures ImmediateSoFar(q0, made + [posts], log + [q.immediate[0]], after)
  {
    hide Posted, EventRuns.DrainImmediate;
    var e := q.immediate[0];
    forall s: EventRuns.Script
      ensures EventRuns.DrainImmediate(q0, made + [posts] + s) == Logged(log + [e], EventRuns.DrainImmediate(after, s))
    {
      assert made + [posts] + s == made + ([posts] + s);
      ImmediateStep(q, posts, after, s);
      LoggedTwice(log, e, EventRuns.DrainImmediate(after, s));
    }
  }

  /** One event of the first loop. */
  lemma ImmediateStep(q: EventRuns.Queues, posts: seq<Event>, after: EventRuns.Queues, s: EventRuns.Script)
    requires q.immediate != [] && Posted(q.(immediate := q.immediate[1..]), posts, after)
    ensures EventRuns.DrainImmediate(q, [posts] + s) == Logged([q.immediate[0]], EventRuns.DrainImmediate(after, s))
  {
    hide EventRuns.PostAll;
    assert ([posts] + s)[1..] == s;
  }

  /** One event of the second loop. */
  lemma MainStep(q: EventRuns.Queues, posts: seq<Event>, after: EventRuns.Queues, s: EventRuns.Script, maxEvents: nat, done: nat)
    requires q.main != [] && Posted(q.(main := q.main[1..]), posts, after)
    ensures EventRuns.DrainMain(q, [posts] + s, maxEvents, done)
         == if maxEvents > 0 && done + 1 >= maxEvents then EventRuns.Run(after, s, [q.main[0]])
            else Logged([q.main[0]], EventRuns.DrainMain(after, s, maxEvents, done + 1))
  {
    hide EventRuns.PostAll;
    assert ([posts] + s)[1..] == s;
  }

  lemma LoggedTwice(a: seq<Event>, e: Event, r: EventRuns.Run)
    ensures Logged(a, Logged([e], r)) == Logged(a + [e], r)
  {
    assert a + ([e] + r.log) == a + [e] + r.log;
  }

  lemma MainTurn(q0: EventRuns.Queues, made: EventRuns.Script, log: seq<Event>, q: EventRuns.Queues,
                 posts: seq<Event>, after: EventRuns.Queues, maxEvents: nat, done: nat)
    requires MainSoFar(q0, made, log, q, maxEvents, done) && q.main != []
    requires Posted(q.(main := q.main[1..]), posts, after)
    ensures maxEvents > 0 && done + |log| + 1 >= maxEvents ==>
      EventRuns.DrainMain(q0, made + [posts], maxEvents, done) == EventRuns.Run(after, [], log + [q.main[0]])
    ensures !(maxEvents > 0 && done + |log| + 1 >= maxEvents) ==>
      MainSoFar(q0, made + [posts], log + [q.main[0]], after, maxEvents, done)
  {
    hide Posted, EventRuns.DrainMain;
    var e := q.main[0];
    if maxEvents > 0 && done + |log| + 1 >= maxEvents {
      assert [posts] + [] == [posts];
      MainStep(q, posts, after, [], maxEvents, done + |log|);
    } else {
      forall s: EventRuns.Script
        ensures EventRuns.DrainMain(q0, made + [posts] + s, maxEvents, done)
             == Logged(log + [e], EventRuns.DrainMain(after, s, maxEvents, done + |log + [e]|))
      {
        assert made + [posts] + s == made + ([posts] + s);
        MainStep(q, posts, after, s, maxEvents, done + |log|);
        LoggedTwice(log, e, EventRuns.DrainMain(after, s, maxEvents, done + |log| + 1));
      }
    }
  }

  lemma ImmediateOver(q0: EventRuns.Queues, made: EventRuns.Script, log: seq<Event>, q: EventRuns.Queues, s: EventRuns.Script)
    requires ImmediateSoFar(q0, made, log, q) && q.immediate == []
    ensures EventRuns.DrainImmediate(q0, made + s) == EventRuns.Run(q, s, log)
  {
    assert log + [] == log;
  }

  lemma MainOver(q0: EventRuns.Queues, made: EventRuns.Script, log: seq<Event>, q: EventRuns.Queues, maxEvents: nat, done: nat)
    requires MainSoFar(q0, made, log, q, maxEvents, done) && q.main == []
    ensures EventRuns.DrainMain(q0, made, maxEvents, done) == EventRuns.Run(q, [], log)
  {
    assert log + [] == log && made + [] == made;
  }

  lemma PostedSizes(q: EventRuns.Queues, posts: seq<Event>, after: EventRuns.Queues)
    requires Posted(q, posts, after)
    ensures |after.immediate| <= |q.immediate| + |posts| && |after.main| <= |q.main| + |posts|
  {
    EventRuns.PostAllSizes(q, posts);
  }

  lemma {:induction false} PostsSnoc(made: EventRuns.Script, posts: seq<Event>)
    ensures EventRuns.Posts(made + [posts]) == EventRuns.Posts(made) + |posts|
    ensures EventRuns.Posts([]) == 0
  {
    if made == [] {
      assert made + [posts] == [posts] && [posts][1..] == [];
    } else {
      assert (made + [posts])[1..] == made[1..] + [posts];
      PostsSnoc(made[1..], posts);
    }
  }


  /** What the dispatches of a log came to, since the bus was at w0 and the queues at q0. */
  ghost predicate Account(b: Bus, sc: Scene, w0: World, q0: EventRuns.Queues, from: nat, log: seq<Event>,
                          calls: seq<seq<Target>>, ran: seq<Step>, made: EventRuns.Script)
    reads b, b.manager, b.manager.mainQueue, b.manager.mainQueue.events, b.manager.immediateQueue, b.manager.immediateQueue.events
  {
    && Resting(b) && b.taken == [] && NoneImmediate(b.manager.State()) && EventRuns.InPlace(b.manager.State())
    && Leads(w0, ran, b.Current())
    && TraceOf(sc, w0, q0, log, from) == Trace(b.Current(), b.manager.State(), ran, made)
    && b.lost == w0.lost + AllMissed(sc, log, from) && (AllMissed(sc, log, from) == multiset{} ==> NoDrops(ran))
    && AllDelivered(log, calls, sc.listeners, sc.receivers, sc.answers, from)
  }

  lemma AccountStart(b: Bus, sc: Scene, from: nat)
    requires Resting(b) && b.taken == [] && NoneImmediate(b.manager.State()) && EventRuns.InPlace(b.manager.State())
    ensures Account(b, sc, b.Current(), b.manager.State(), from, [], [], [], [])
  {
    LeadsNowhere(b.Current());
    TraceNothing(sc, b.Current(), b.manager.State(), from);
  }

  /** One dispatch more on the trace. */
  lemma AccountNext(sc: Scene, w0: World, q0: EventRuns.Queues, from: nat, log: seq<Event>, ran: seq<Step>, made: EventRuns.Script,
                    w: World, q: EventRuns.Queues, e: Event, more: seq<Step>, posts: seq<Event>, w': World, q': EventRuns.Queues)
    requires TraceOf(sc, w0, q0, log, from) == Trace(w, q, ran, made)
    requires var n := from + |log|;
      Did(more, posts) == Dispatches(w, Taken(q, e), e, sc.subs, TurnAt(sc.script, n), Gets(sc, e, n))
    requires Leads(w, more, w') && Posted(Taken(q, e), posts, q')
    ensures TraceOf(sc, w0, q0, log + [e], from) == Trace(w', q', ran + more, made + [posts])
  {
    hide Dispatches, Taken, Gets, TraceOf;
    TraceNext(sc, w0, q0, log, from, e);
  }

  lemma TakenIs(q: EventRuns.Queues, e: Event)
    requires EventRuns.InPlace(q)
    ensures q.immediate != [] && e == q.immediate[0] ==>
      Taken(q, e) == q.(immediate := q.immediate[1..]) && EventRuns.InPlace(Taken(q, e))
      && (NoneImmediate(q) ==> NoneImmediate(Taken(q, e)))
    ensures q.main != [] && e == q.main[0] ==>
      Taken(q, e) == q.(main := q.main[1..]) && EventRuns.InPlace(Taken(q, e))
      && (NoneImmediate(q) ==> NoneImmediate(Taken(q, e)))
  {
    if q.main != [] { HeadIsHighest(q.main); }
  }

  lemma PostedInPlace(q: EventRuns.Queues, posts: seq<Event>, after: EventRuns.Queues)
    requires Posted(q, posts, after)
    ensures EventRuns.InPlace(q) ==> EventRuns.InPlace(after)
    ensures NoneImmediate(q) ==> NoneImmediate(after)
  {
    if EventRuns.InPlace(q) { EventRuns.PostAllKeeps(q, posts); }
    if NoneImmediate(q) { PostedNoneImmediate(q, posts, after); }
  }

  lemma HeadPlain(q: EventRuns.Queues)
    requires NoneImmediate(q)
    ensures q.immediate != [] ==> Carried(q.immediate[0]) == []
  {}

  lemma SceneSame(b: Bus, sc: Scene, answers: Answers, script: seq<Turn>, e: Event, n: nat)
    requires sc == SceneOf(b, answers, script)
    ensures sc.listeners == b.manager.listeners[..] && sc.receivers == b.manager.receivers[..] && sc.subs == b.subs[..]
    ensures sc.bus == b.number && sc.answers == answers && sc.script == script
    ensures Gets(sc, e, n)
         == GetsTo(Targets(b.manager.listeners[..], b.manager.receivers[..], e), e, AnswersAt(answers, n), ToReceiver(b.number))
  {}

  lemma DispatchSizes(w: World, q: EventRuns.Queues, e: Event, subs: seq<Sub>, turn: Turn, gets: bool)
    ensures |Dispatches(w, q, e, subs, turn, gets).posts| <= TurnSize(turn)
  {
    hide PerformsAll, SlotActs, Reached;
    PerformsSizes(w, q, true, turn.own);
    var d := PerformsAll(w, q, true, turn.own);
    var w1, q1 := Reached(w, d.ran), EventRuns.PostAll(q, d.posts);
    if gets && Carried(e) != [] && Enabled(w1, Begin) {
      PerformsSizes(Next(w1, Begin), q1, true, SlotActs(subs, MessageOf(e).topic, turn.acts));
      SlotActsSize(subs, MessageOf(e).topic, turn.acts);
    }
  }

  /** Dispatches the first event of the immediate queue, if there is one. */
  method TakeImmediate(b: Bus, answers: Answers, script: seq<Turn>, ghost w0: World, ghost q0: EventRuns.Queues, ghost from: nat, n: nat,
                log: seq<Event>, calls: seq<seq<Target>>, ghost ran: seq<Step>, ghost made: EventRuns.Script)
    returns (some: bool, e: Event, called: seq<Target>, ghost ran': seq<Step>, ghost posts: seq<Event>)
    requires Account(b, SceneOf(b, answers, script), w0, q0, from, log, calls, ran, made) && b.manager.initialized
    requires n == from + |log|
    modifies b`envelopes, b`held, b`handling, b`taken, b`lost, b.manager`totalDispatched, b.manager`totalDropped,
      b.manager`posted, b.manager.mainQueue`tail, b.manager.mainQueue`count, b.manager.mainQueue.events,
      b.manager.immediateQueue, b.manager.immediateQueue.events
    ensures b.Ready() && (some <==> old(b.manager.State()).immediate != [])
    ensures !some ==>
      && Account(b, SceneOf(b, answers, script), w0, q0, from, log, calls, ran, made)
      && b.manager.State() == old(b.manager.State()) && b.manager.posted == old(b.manager.posted)
      && b.manager.totalDispatched == old(b.manager.totalDispatched)
    ensures some ==>
      && e == old(b.manager.State()).immediate[0]
      && Account(b, SceneOf(b, answers, script), w0, q0, from, log + [e], calls + [called], ran', made + [posts])
      && b.manager.posted == old(b.manager.posted) + |posts|
      && b.manager.totalDispatched == old(b.manager.totalDispatched) + 1
    ensures some ==>
      var q := old(b.manager.State());
      && Posted(q.(immediate := q.immediate[1..]), posts, b.manager.State())
      && |b.manager.State().immediate| < |q.immediate| + TurnSize(TurnAt(script, n))
  {
    hide Waiting, Posted, Inv, Leads, NoDrops, Targets, EventManager.Delivered, AllMissed, TurnSize, NoneImmediate, Dispatches, GetsTo;
    hide EventQueue.Queue.Contents, EventQueue.ImmediateQueue.Contents, EventQueue.Queue.Ring, EventQueue.ImmediateQueue.Ring;
    hide TraceOf, AllDelivered, AnswersAt, EventRuns.InPlace, Carried;
    ghost var sc, q, w := SceneOf(b, answers, script), b.manager.State(), b.Current();
    called, ran', posts := [], ran, [];
    var r := b.manager.immediateQueue.Pop();
    some, e := r.0, r.1;
    assert b.Current() == w;
    HeadPlain(q);
    if some {
      ghost var q1 := b.manager.State();
      ghost var more;
      TakenIs(q, e);
      called, more, posts := Dispatch(b, e, AnswersAt(answers, n), TurnAt(script, n));
      SceneSame(b, sc, answers, script, e, n);
      DispatchSizes(w, q1, e, b.subs[..], TurnAt(script, n), Gets(sc, e, n));
      PostedSizes(q1, posts, b.manager.State());
      PostedInPlace(q1, posts, b.manager.State());
      AccountNext(sc, w0, q0, from, log, ran, made, w, q, e, more, posts, b.Current(), b.manager.State());
      MissedNext(sc, log, from, e);
      DeliveredNext(log, calls, sc.listeners, sc.receivers, sc.answers, from, e, called);
      LeadsOn(w0, ran, w, more, b.Current());
      NoDropsJoin(ran, more);
      ran' := ran + more;
    }
  }

  /** Takes the first event off the main queue, and with it the message it carries. */
  method PopMain(b: Bus) returns (some: bool, e: Event)
    requires Resting(b) && b.taken == [] && NoneImmediate(b.manager.State())
    modifies b`taken, b.manager.mainQueue`head, b.manager.mainQueue`count
    ensures Resting(b) && b.Current() == old(b.Current()) && NoneImmediate(b.manager.State())
    ensures some <==> old(b.manager.State()).main != []
    ensures !some ==> b.manager.State() == old(b.manager.State()) && b.taken == []
    ensures some ==>
      var q := old(b.manager.State());
      e == q.main[0] && b.manager.State() == q.(main := q.main[1..]) && b.taken == Carried(e)
  {
    hide Waiting, Carried, Inv, EventQueue.Queue.Contents, EventQueue.ImmediateQueue.Contents;
    ghost var w, q := b.Current(), b.manager.State();
    var r := b.manager.mainQueue.Pop();
    some, e := r.0, r.1;
    SameImmediate(q, b.manager.State());
    if some {
      WaitingFirst(q.main);
      b.taken := Carried(e);
    }
    assert b.Current() == w;
  }

  lemma SameImmediate(q: EventRuns.Queues, r: EventRuns.Queues)
    requires NoneImmediate(q) && r.immediate == q.immediate
    ensures NoneImmediate(r)
  {}

  lemma WaitingFirst(s: seq<Event>)
    ensures s != [] ==> Waiting(s) == Carried(s[0]) + Waiting(s[1..])
  {}

  /** Dispatches the first event of the main queue, if there is one. */
  method TakeMain(b: Bus, answers: Answers, script: seq<Turn>, ghost w0: World, ghost q0: EventRuns.Queues, ghost from: nat, n: nat,
                log: seq<Event>, calls: seq<seq<Target>>, ghost ran: seq<Step>, ghost made: EventRuns.Script)
    returns (some: bool, e: Event, called: seq<Target>, ghost ran': seq<Step>, ghost posts: seq<Event>)
    requires Account(b, SceneOf(b, answers, script), w0, q0, from, log, calls, ran, made) && b.manager.initialized
    requires n == from + |log|
    modifies b`envelopes, b`held, b`handling, b`taken, b`lost, b.manager`totalDispatched, b.manager`totalDropped,
      b.manager`posted, b.manager.mainQueue`head, b.manager.mainQueue`tail, b.manager.mainQueue`count, b.manager.mainQueue.events,
      b.manager.immediateQueue, b.manager.immediateQueue.events
    ensures b.Ready() && (some <==> old(b.manager.State()).main != [])
    ensures !some ==>
      && Account(b, SceneOf(b, answers, script), w0, q0, from, log, calls, ran, made)
      && b.manager.State() == old(b.manager.State()) && b.manager.posted == old(b.manager.posted)
      && b.manager.totalDispatched == old(b.manager.totalDispatched)
    ensures some ==>
      && e == old(b.manager.State()).main[0]
      && Account(b, SceneOf(b, answers, script), w0, q0, from, log + [e], calls + [called], ran', made + [posts])
      && b.manager.posted == old(b.manager.posted) + |posts|
      && b.manager.totalDispatched == old(b.manager.totalDispatched) + 1
    ensures some ==>
      var q := old(b.manager.State());
      && Posted(q.(main := q.main[1..]), posts, b.manager.State())
      && |b.manager.State().main| < |q.main| + TurnSize(TurnAt(script, n))
  {
    hide Waiting, Posted, Inv, Leads, NoDrops, Targets, EventManager.Delivered, AllMissed, TurnSize, NoneImmediate, Dispatches, GetsTo;
    hide EventQueue.Queue.Contents, EventQueue.ImmediateQueue.Contents, EventQueue.Queue.Ring, EventQueue.ImmediateQueue.Ring;
    hide TraceOf, AllDelivered, AnswersAt, EventRuns.InPlace, Carried;
    ghost var sc, q, w := SceneOf(b, answers, script), b.manager.State(), b.Current();
    called, ran', posts := [], ran, [];
    some, e := PopMain(b);
    if some {
      ghost var q1 := b.manager.State();
      ghost var more;
      TakenIs(q, e);
      called, more, posts := Dispatch(b, e, AnswersAt(answers, n), TurnAt(script, n));
      SceneSame(b, sc, answers, script, e, n);
      DispatchSizes(w, q1, e, b.subs[..], TurnAt(script, n), Gets(sc, e, n));
      PostedSizes(q1, posts, b.manager.State());
      PostedInPlace(q1, posts, b.manager.State());
      AccountNext(sc, w0, q0, from, log, ran, made, w, q, e, more, posts, b.Current(), b.manager.State());
      MissedNext(sc, log, from, e);
      DeliveredNext(log, calls, sc.listeners, sc.receivers, sc.answers, from, e, called);
      LeadsOn(w0, ran, w, more, b.Current());
      NoDropsJoin(ran, more);
      ran' := ran + more;
    }
  }


  lemma RestingReady(b: Bus)
    requires Resting(b)
    ensures b.Ready()
  {}

  /** The first loop of processEvents. */
  method ProcessImmediate(b: Bus, answers: Answers, script: seq<Turn>)
    returns (log: seq<Event>, calls: seq<seq<Target>>, ghost ran: seq<Step>, ghost made: EventRuns.Script)
    requires Resting(b) && b.manager.initialized && b.taken == [] && NoneImmediate(b.manager.State())
    requires EventRuns.InPlace(b.manager.State())
    modifies b`envelopes, b`held, b`handling, b`taken, b`lost, b.manager`totalDispatched, b.manager`totalDropped,
      b.manager`posted, b.manager.mainQueue`tail, b.manager.mainQueue`count, b.manager.mainQueue.events,
      b.manager.immediateQueue, b.manager.immediateQueue.events
    ensures Account(b, SceneOf(b, answers, script), old(b.Current()), old(b.manager.State()), 0, log, calls, ran, made)
    ensures forall s: EventRuns.Script ::
      EventRuns.DrainImmediate(old(b.manager.State()), made + s) == EventRuns.Run(b.manager.State(), s, log)
    ensures b.manager.posted == old(b.manager.posted) + EventRuns.Posts(made)
    ensures b.manager.totalDispatched == old(b.manager.totalDispatched) + |log|
  {
    hide SceneOf, Account, Resting, ImmediateSoFar, EventRuns.DrainImmediate, EventRuns.Posts, SizeFrom, TurnSize, TurnAt, Posted, NoneImmediate, EventRuns.InPlace;
    hide EventQueue.Queue.Contents, EventQueue.ImmediateQueue.Contents, EventQueue.Queue.Ring, EventQueue.ImmediateQueue.Ring;
    hide Waiting, Inv;
    RestingReady(b);
    ghost var w0, q0 := b.Current(), b.manager.State();
    log, calls, ran, made := [], [], [], [];
    NothingSoFar(q0, 0, 0);
    AccountStart(b, SceneOf(b, answers, script), 0);
    PostsSnoc([], []);
    var n: nat := 0;
    while true
      invariant b.Ready() && Account(b, SceneOf(b, answers, script), w0, q0, 0, log, calls, ran, made)
      invariant ImmediateSoFar(q0, made, log, b.manager.State())
      invariant b.manager.posted == old(b.manager.posted) + EventRuns.Posts(made)
      invariant b.manager.totalDispatched == old(b.manager.totalDispatched) + |log|
      invariant n == 0 + |log|
      decreases |b.manager.State().immediate| + SizeFrom(script, n)
    {
      ghost var q := b.manager.State();
      var some, e, called;
      ghost var more, posts;
      some, e, called, more, posts := TakeImmediate(b, answers, script, w0, q0, 0, n, log, calls, ran, made);
      if !some {
        forall s: EventRuns.Script ensures EventRuns.DrainImmediate(q0, made + s) == EventRuns.Run(b.manager.State(), s, log) {
          ImmediateOver(q0, made, log, q, s);
        }
        return;
      }
      ImmediateTurn(q0, made, log, q, posts, b.manager.State());
      SizeStep(script, n);
      PostsSnoc(made, posts);
      log, calls, ran, made := log + [e], calls + [called], more, made + [posts];
      n := n + 1;
    }
  }

  /** The second loop, after `done` events. */
  method ProcessMain(b: Bus, answers: Answers, script: seq<Turn>, maxEvents: nat, done: nat)
    returns (log: seq<Event>, calls: seq<seq<Target>>, ghost ran: seq<Step>, ghost made: EventRuns.Script)
    requires Resting(b) && b.manager.initialized && b.taken == [] && NoneImmediate(b.manager.State())
    requires EventRuns.InPlace(b.manager.State())
    modifies b`envelopes, b`held, b`handling, b`taken, b`lost, b.manager`totalDispatched, b.manager`totalDropped,
      b.manager`posted, b.manager.mainQueue`head, b.manager.mainQueue`tail, b.manager.mainQueue`count, b.manager.mainQueue.events,
      b.manager.immediateQueue, b.manager.immediateQueue.events
    ensures Account(b, SceneOf(b, answers, script), old(b.Current()), old(b.manager.State()), done, log, calls, ran, made)
    ensures EventRuns.DrainMain(old(b.manager.State()), made, maxEvents, done) == EventRuns.Run(b.manager.State(), [], log)
    ensures b.manager.posted == old(b.manager.posted) + EventRuns.Posts(made)
    ensures b.manager.totalDispatched == old(b.manager.totalDispatched) + |log|
  {
    hide SceneOf, Account, Resting, MainSoFar, EventRuns.DrainMain, EventRuns.Posts, SizeFrom, TurnSize, TurnAt, Posted, NoneImmediate, EventRuns.InPlace;
    hide EventQueue.Queue.Contents, EventQueue.ImmediateQueue.Contents, EventQueue.Queue.Ring, EventQueue.ImmediateQueue.Ring;
    hide Waiting, Inv;
    RestingReady(b);
    ghost var w0, q0 := b.Current(), b.manager.State();
    log, calls, ran, made := [], [], [], [];
    NothingSoFar(q0, maxEvents, done);
    AccountStart(b, SceneOf(b, answers, script), done);
    PostsSnoc([], []);
    var n: nat := done;
    var stop := false;
    while !stop
      invariant b.Ready() && Account(b, SceneOf(b, answers, script), w0, q0, done, log, calls, ran, made)
      invariant MainReached(q0, made, log, b.manager.State(), maxEvents, done, stop)
      invariant b.manager.posted == old(b.manager.posted) + EventRuns.Posts(made)
      invariant b.manager.totalDispatched == old(b.manager.totalDispatched) + |log|
      invariant n == done + |log|
      decreases !stop, |b.manager.State().main| + SizeFrom(script, n)
    {
      log, calls, stop, n, ran, made := StepMain(b, answers, script, maxEvents, done, n, log, calls, w0, q0, ran, made);
    }
  }

  /** Where the second loop is: under way, or over. */
  ghost predicate MainReached(q0: EventRuns.Queues, made: EventRuns.Script, log: seq<Event>, q: EventRuns.Queues,
                              maxEvents: nat, done: nat, stop: bool)
  {
    if stop then EventRuns.DrainMain(q0, made, maxEvents, done) == EventRuns.Run(q, [], log)
    else MainSoFar(q0, made, log, q, maxEvents, done)
  }

  /** One turn of the second loop. */
  method StepMain(b: Bus, answers: Answers, script: seq<Turn>, maxEvents: nat, ghost done: nat, n: nat, log: seq<Event>,
                  calls: seq<seq<Target>>, ghost w0: World, ghost q0: EventRuns.Queues, ghost ran: seq<Step>, ghost made: EventRuns.Script)
    returns (log': seq<Event>, calls': seq<seq<Target>>, stop: bool, n': nat, ghost ran': seq<Step>, ghost made': EventRuns.Script)
    requires Account(b, SceneOf(b, answers, script), w0, q0, done, log, calls, ran, made) && b.manager.initialized
    requires n == done + |log| && MainSoFar(q0, made, log, b.manager.State(), maxEvents, done)
    modifies b`envelopes, b`held, b`handling, b`taken, b`lost, b.manager`totalDispatched, b.manager`totalDropped,
      b.manager`posted, b.manager.mainQueue`head, b.manager.mainQueue`tail, b.manager.mainQueue`count, b.manager.mainQueue.events,
      b.manager.immediateQueue, b.manager.immediateQueue.events
    ensures b.Ready() && Account(b, SceneOf(b, answers, script), w0, q0, done, log', calls', ran', made') && n' == done + |log'|
    ensures MainReached(q0, made', log', b.manager.State(), maxEvents, done, stop)
    ensures b.manager.posted - EventRuns.Posts(made') == old(b.manager.posted) - EventRuns.Posts(made)
    ensures b.manager.totalDispatched - |log'| == old(b.manager.totalDispatched) - |log|
    ensures !stop ==> |b.manager.State().main| + SizeFrom(script, n') < |old(b.manager.State()).main| + SizeFrom(script, n)
  {
    hide SceneOf, Account, Resting, MainSoFar, EventRuns.DrainMain, EventRuns.Posts, SizeFrom, TurnSize, TurnAt, Posted;
    hide NoneImmediate, EventRuns.InPlace, Waiting, Inv;
    hide EventQueue.Queue.Contents, EventQueue.ImmediateQueue.Contents, EventQueue.Queue.Ring, EventQueue.ImmediateQueue.Ring;
    AccountReady(b, SceneOf(b, answers, script), w0, q0, done, log, calls, ran, made);
    ghost var q := b.manager.State();
    var some, e, called;
    ghost var posts;
    some, e, called, ran', posts := TakeMain(b, answers, script, w0, q0, done, n, log, calls, ran, made);
    if !some {
      MainOver(q0, made, log, q, maxEvents, done);
      return log, calls, true, n, ran, made;
    }
    MainTurn(q0, made, log, q, posts, b.manager.State(), maxEvents, done);
    SizeStep(script, n);
    PostsSnoc(made, posts);
    log', calls', made', n' := log + [e], calls + [called], made + [posts], n + 1;
    stop := maxEvents > 0 && n' >= maxEvents;
  }

  lemma AccountReady(b: Bus, sc: Scene, w0: World, q0: EventRuns.Queues, from: nat, log: seq<Event>,
                     calls: seq<seq<Target>>, ran: seq<Step>, made: EventRuns.Script)
    requires Account(b, sc, w0, q0, from, log, calls, ran, made)
    ensures b.Ready()
  {}

  /** Both loops. */
  method ProcessBoth(b: Bus, maxEvents: nat, answers: Answers, script: seq<Turn>)
    returns (log: seq<Event>, calls: seq<seq<Target>>, ghost ran: seq<Step>, ghost made: EventRuns.Script)
    requires Resting(b) && b.manager.initialized && b.taken == [] && NoneImmediate(b.manager.State())
    requires EventRuns.InPlace(b.manager.State())
    modifies b`envelopes, b`held, b`handling, b`taken, b`lost, b.manager`totalDispatched, b.manager`totalDropped,
      b.manager`posted, b.manager.mainQueue`head, b.manager.mainQueue`tail, b.manager.mainQueue`count, b.manager.mainQueue.events,
      b.manager.immediateQueue, b.manager.immediateQueue.events
    ensures Account(b, SceneOf(b, answers, script), old(b.Current()), old(b.manager.State()), 0, log, calls, ran, made)
    ensures EventRuns.Process(old(b.manager.State()), made, maxEvents) == EventRuns.Run(b.manager.State(), [], log)
    ensures b.manager.posted == old(b.manager.posted) + EventRuns.Posts(made)
    ensures b.manager.totalDispatched == old(b.manager.totalDispatched) + |log|
  {
    hide Waiting, Inv, NoDrops, Leads, AllMissed, AllDelivered, TraceOf, EventRuns.Posts, EventRuns.InPlace;
    hide EventQueue.Queue.Contents, EventQueue.ImmediateQueue.Contents, EventQueue.Queue.Ring, EventQueue.ImmediateQueue.Ring;
    hide EventRuns.DrainImmediate, EventRuns.DrainMain, NoneImmediate;
    ghost var sc, w, q := SceneOf(b, answers, script), b.Current(), b.manager.State();
    log, calls, ran, made := ProcessImmediate(b, answers, script);
    ghost var mid, r := b.Current(), b.manager.State();
    var log2, calls2;
    ghost var ran2, made2;
    log2, calls2, ran2, made2 := ProcessMain(b, answers, script, maxEvents, |log|);
    TraceJoin(sc, w, q, log, log2);
    MissedJoin(sc, log, log2);
    LeadsOn(w, ran, mid, ran2, b.Current());
    NoDropsJoin(ran, ran2);
    DeliveredJoin(log, calls, log2, calls2, sc.listeners, sc.receivers, answers);
    PostsAppend(made, made2);
    log, calls, ran, made := log + log2, calls + calls2, ran + ran2, made + made2;
  }

  /** EventManager::processEvents with the bus, in order, among the receivers. Everything it
      does is a function of the state and the scene: the steps made, which are a run, the
      posts of each dispatch, and the state after it. Both queues make one run for those
      posts. Exactly the messages that do not get to the bus are lost. */
  method ProcessEvents(b: Bus, maxEvents: nat, answers: Answers, script: seq<Turn>)
    returns (processed: nat, log: seq<Event>, calls: seq<seq<Target>>, ghost ran: seq<Step>, ghost made: EventRuns.Script)
    requires Resting(b) && b.manager.Valid() && b.taken == [] && NoneImmediate(b.manager.State())
    requires forall i, e :: answers(i, ToReceiver(b.number), e) == IsBusEvent(e)
    modifies b`envelopes, b`held, b`handling, b`taken, b`lost, b.manager`totalDispatched, b.manager`totalDropped,
      b.manager`posted, b.manager`delivered, b.manager`dispatching, b.manager.mainQueue`head, b.manager.mainQueue`tail, b.manager.mainQueue`count, b.manager.mainQueue.events,
      b.manager.immediateQueue, b.manager.immediateQueue.events
    ensures Resting(b) && b.manager.Valid() && b.taken == [] && NoneImmediate(b.manager.State())
    ensures processed == |log| == |calls| && b.manager.dispatching == old(b.manager.dispatching)
    ensures IsRun(old(b.Current()), ran) && After(old(b.Current()), ran) == b.Current()
    ensures TraceOf(SceneOf(b, answers, script), old(b.Current()), old(b.manager.State()), log, 0)
         == Trace(b.Current(), b.manager.State(), ran, made)
    ensures b.lost == old(b.lost) + AllMissed(SceneOf(b, answers, script), log, 0)
    ensures AllMissed(SceneOf(b, answers, script), log, 0) == multiset{} ==> NoDrops(ran)
    ensures !b.manager.initialized || b.manager.dispatching ==> log == [] && b.manager.State() == old(b.manager.State())
    ensures b.manager.initialized && !b.manager.dispatching ==>
      EventRuns.Process(old(b.manager.State()), made, maxEvents) == EventRuns.Run(b.manager.State(), [], log)
    ensures AllDelivered(log, calls, b.manager.listeners[..], b.manager.receivers[..], answers, 0)
    ensures EndAtBus(SceneOf(b, answers, script), log, calls)
  {
    hide EndAtBus;
    hide Waiting, Inv, NoDrops, AllMissed, AllDelivered, TraceOf, EventRuns.Posts, IsRun, After, EventRuns.Process;
    hide EventQueue.Queue.Contents, EventQueue.ImmediateQueue.Contents, EventQueue.Queue.Ring, EventQueue.ImmediateQueue.Ring;
    hide EventRuns.InPlace, EventRuns.Weight, NoneImmediate;
    AccountStart(b, SceneOf(b, answers, script), 0);
    log, calls, processed, ran, made := [], [], 0, [], [];
    BusIsLast(SceneOf(b, answers, script), [], []);
    if !b.manager.initialized || b.manager.dispatching { return; }
    b.manager.dispatching := true;
    log, calls, ran, made := ProcessBoth(b, maxEvents, answers, script);
    EventRuns.ProcessKeeps(old(b.manager.State()), made, maxEvents);
    PostsAppend([], []);
    BusIsLast(SceneOf(b, answers, script), log, calls);
    DeliveredSizes(log, calls, b.manager.listeners[..], b.manager.receivers[..], answers, 0);
    processed := |log|;
    b.manager.delivered := b.manager.delivered + processed;
    b.manager.dispatching := false;
  }

  /** Nobody is called behind the bus for a message that gets there. */
  ghost predicate EndAtBus(sc: Scene, log: seq<Event>, calls: seq<seq<Target>>) {
    && |calls| == |log|
    && forall i :: 0 <= i < |log| && Carried(log[i]) != [] && Gets(sc, log[i], i) ==>
         calls[i] != [] && calls[i][|calls[i]| - 1] == ToReceiver(sc.bus)
  }

  /** For the bus handles every bus event. */
  lemma BusIsLast(sc: Scene, log: seq<Event>, calls: seq<seq<Target>>)
    requires AllDelivered(log, calls, sc.listeners, sc.receivers, sc.answers, 0)
    requires forall i, e :: sc.answers(i, ToReceiver(sc.bus), e) == IsBusEvent(e)
    ensures EndAtBus(sc, log, calls)
  {
    hide Targets;
    forall i | 0 <= i < |log| && Carried(log[i]) != [] && Gets(sc, log[i], i)
      ensures calls[i] != [] && calls[i][|calls[i]| - 1] == ToReceiver(sc.bus)
    {
      var targets, handles := Targets(sc.listeners, sc.receivers, log[i]), AnswersAt(sc.answers, i);
      assert 0 + i == i;
      CalledIff(calls[i], targets, log[i], handles, ToReceiver(sc.bus));
      LastCalled(calls[i], targets, log[i], handles, ToReceiver(sc.bus));
    }
  }

  lemma LastCalled(called: seq<Target>, targets: seq<Target>, e: Event, handles: (Target, Event) -> bool, t: Target)
    requires EventManager.Delivered(called, targets, e, handles) && handles(t, e) && t in called
    ensures called[|called| - 1] == t
  {
    var i :| 0 <= i < |called| && called[i] == t;
  }

  lemma {:induction false} PostsAppend(a: EventRuns.Script, b: EventRuns.Script)
    ensures EventRuns.Posts(a + b) == EventRuns.Posts(a) + EventRuns.Posts(b)
    ensures EventRuns.Posts([]) == 0
  {
    if a == [] {
      assert a + b == b;
    } else {
      assert (a + b)[1..] == a[1..] + b;
      PostsAppend(a[1..], b);
    }
  }
}
