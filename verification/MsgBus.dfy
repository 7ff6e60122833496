/** The message bus: envelopes published as events, and delivered to subscribers. */
module MsgBus {
  import opened Events
  import opened Envelopes
  import EventQueue
  import EventRuns
  import EventManager

  const MAX_SUBS := 64
  const BUS_TYPE := 1001
  const CUSTOM: bv8 := 0x40

  // ----- messages as events -----

  function BusEvent(m: Message): Event {
    Event(BUS_TYPE, CUSTOM, NORMAL, m.topic, m.correlationId, m.envelope)
  }

  predicate IsBusEvent(e: Event) { e.category == CUSTOM && e.kind == BUS_TYPE }

  function MessageOf(e: Event): Message { Message(e.userData, e.param1 % REFS, e.param2) }

  /** The message that an event carries, if any. */
  function Carried(e: Event): seq<Message> { if IsBusEvent(e) && e.userData != 0 then [MessageOf(e)] else [] }

  /** The messages among queued events. */
  function Waiting(s: seq<Event>): seq<Message> {
    if s == [] then [] else Carried(s[0]) + Waiting(s[1..])
  }

  lemma {:induction false} WaitingAppend(s: seq<Event>, t: seq<Event>)
    ensures Waiting(s + t) == Waiting(s) + Waiting(t)
  {
    if s == [] {
      assert s + t == t;
    } else {
      assert (s + t)[1..] == s[1..] + t;
      WaitingAppend(s[1..], t);
    }
  }

  lemma WaitingOne(e: Event)
    ensures Waiting([e]) == Carried(e)
  {
    assert [e][1..] == [];
  }

  /** A publish goes behind all messages already waiting; no other post moves a message. */
  lemma WaitingInsert(s: seq<Event>, e: Event)
    ensures IsBusEvent(e) && e.userData != 0 && e.priority == NORMAL ==> Waiting(Insert(s, e)) == Waiting(s) + [MessageOf(e)]
    ensures !IsBusEvent(e) ==> Waiting(Insert(s, e)) == Waiting(s)
  {
    hide Waiting, FirstLower, IsBusEvent;
    WaitingOne(e);
    WaitingAppend(s, [e]);
    if !(s == [] || e.priority <= NORMAL) {
      var k := FirstLower(s, e.priority);
      assert s == s[..k] + s[k..];
      WaitingAppend(s[..k], s[k..]);
      WaitingAppend(s[..k] + [e], s[k..]);
      WaitingAppend(s[..k], [e]);
    }
  }

  lemma WaitingPost(q: EventRuns.Queues, m: Message)
    requires m.envelope != 0
    ensures Waiting(EventRuns.Post(q, BusEvent(m)).main) == Waiting(q.main) + if |q.main| < EventQueue.MAX then [m] else []
    ensures EventRuns.Post(q, BusEvent(m)).dropped == q.dropped + if |q.main| < EventQueue.MAX then 0 else 1
  {
    WaitingInsert(q.main, BusEvent(m));
  }

  lemma WaitingOther(q: EventRuns.Queues, e: Event)
    requires !IsBusEvent(e)
    ensures Waiting(EventRuns.Post(q, e).main) == Waiting(q.main)
  {
    WaitingInsert(q.main, e);
  }

  /** Clearing a type keeps all messages or none. */
  lemma {:induction false} WaitingFilter(s: seq<Event>, kind: nat)
    ensures Waiting(Filter(s, (e: Event) => e.kind != kind)) == if kind == BUS_TYPE then [] else Waiting(s)
  {
    if s != [] {
      WaitingFilter(s[1..], kind);
      var rest := Filter(s[1..], (e: Event) => e.kind != kind);
      assert ([s[0]] + rest)[1..] == rest;
    }
  }

  // ----- what handlers post -----

  /** Bus events are never immediate: only publish posts them. */
  ghost predicate Proper(es: seq<Event>) {
    forall e :: e in es && e.priority == IMMEDIATE ==> !IsBusEvent(e)
  }

  /** The queues after some proper posts. */
  ghost predicate Posted(q: EventRuns.Queues, posts: seq<Event>, after: EventRuns.Queues) {
    Proper(posts) && after == EventRuns.PostAll(q, posts)
  }

  lemma PostedNothing(q: EventRuns.Queues)
    ensures Posted(q, [], q)
  {}

  lemma PostedOne(q: EventRuns.Queues, e: Event)
    requires e.priority == IMMEDIATE ==> !IsBusEvent(e)
    ensures Posted(q, [e], EventRuns.Post(q, e))
  {
    EventRuns.PostAllAppend(q, [], e);
    assert [] + [e] == [e];
  }

  lemma {:induction false} PostAllJoin(q: EventRuns.Queues, a: seq<Event>, b: seq<Event>)
    ensures EventRuns.PostAll(q, a + b) == EventRuns.PostAll(EventRuns.PostAll(q, a), b)
    decreases |a|
  {
    if a == [] {
      assert a + b == b;
    } else {
      assert (a + b)[1..] == a[1..] + b;
      PostAllJoin(EventRuns.Post(q, a[0]), a[1..], b);
    }
  }

  lemma PostedJoin(q: EventRuns.Queues, a: seq<Event>, mid: EventRuns.Queues, b: seq<Event>, after: EventRuns.Queues)
    requires Posted(q, a, mid) && Posted(mid, b, after)
    ensures Posted(q, a + b, after)
  {
    PostAllJoin(q, a, b);
  }

  /** No bus event waits among the immediate ones. */
  ghost predicate NoneImmediate(q: EventRuns.Queues) { forall e :: e in q.immediate ==> !IsBusEvent(e) }

  lemma {:induction false} PostedNoneImmediate(q: EventRuns.Queues, posts: seq<Event>, after: EventRuns.Queues)
    requires Posted(q, posts, after) && NoneImmediate(q)
    ensures NoneImmediate(after)
    decreases |posts|
  {
    if posts != [] { PostedNoneImmediate(EventRuns.Post(q, posts[0]), posts[1..], after); }
  }

  // ----- subscriptions -----

  datatype Sub = Unused | Sub(id: nat, topic: U32, handler: nat)

  /** The handlers of a topic, in slot order. */
  function Subscribers(subs: seq<Sub>, topic: U32): seq<nat> {
    if subs == [] then []
    else Subscribers(subs[..|subs| - 1], topic)
         + var s := subs[|subs| - 1]; if s.Sub? && s.topic == topic then [s.handler] else []
  }

  /** What clients do on their own; the queue does the rest. */
  predicate ByClient(s: Step) { s.Make? || s.Edit? || s.Retain? || s.Release? || s.Publish? }

  ghost predicate ClientRun(w: World, ran: seq<Step>, end: World) {
    && IsRun(w, ran) && After(w, ran) == end
    && forall i :: 0 <= i < |ran| ==> ByClient(ran[i])
  }

  // ----- what handlers do, step by step -----

  /** A handler posts an event, or makes a step as a client of the bus. */
  datatype Action = Post(event: Event) | Do(step: Step)

  /** What actions come to: the steps made and the events posted. */
  datatype Did = Did(ran: seq<Step>, posts: seq<Event>)

  const NOTHING_DONE := Did([], [])

  /** One action, with the manager up or not. Only publish posts bus events, and clients do
      only what is enabled. */
  function Performs(w: World, q: EventRuns.Queues, up: bool, a: Action): Did {
    match a
    case Post(e) => Did([], if up && !IsBusEvent(e) then [e] else [])
    case Do(s) =>
      if !ByClient(s) || !Enabled(w, s) then NOTHING_DONE
      else if !s.Publish? then Did([s], [])
      else
        var e := w.envelopes[s.envelope];
        if e.topic == 0 || !up then Did([Step.Publish(s.envelope, false)], [])
        else Did([Step.Publish(s.envelope, |q.main| < EventQueue.MAX)], [BusEvent(Message(s.envelope, e.topic, e.correlationId))])
  }

  ghost function Reached(w: World, ran: seq<Step>): World { if IsRun(w, ran) then After(w, ran) else w }

  /** Several actions, one after the other. */
  ghost function PerformsAll(w: World, q: EventRuns.Queues, up: bool, acts: seq<Action>): Did {
    if acts == [] then NOTHING_DONE
    else
      var n := |acts| - 1;
      var d := PerformsAll(w, q, up, acts[..n]);
      var last := Performs(Reached(w, d.ran), EventRuns.PostAll(q, d.posts), up, acts[n]);
      Both(d, last)
  }

  lemma PerformsNothing(w: World, q: EventRuns.Queues, up: bool)
    ensures PerformsAll(w, q, up, []) == NOTHING_DONE
  {}

  lemma PerformsOne(w: World, q: EventRuns.Queues, up: bool, a: Action)
    ensures IsRun(w, Performs(w, q, up, a).ran)
  {
    var ran := Performs(w, q, up, a).ran;
    if ran != [] { OneStep(w, ran[0]); }
  }

  lemma {:induction false} PerformsRun(w: World, q: EventRuns.Queues, up: bool, acts: seq<Action>)
    ensures IsRun(w, PerformsAll(w, q, up, acts).ran)
  {
    hide Performs;
    if acts != [] {
      var n := |acts| - 1;
      var d := PerformsAll(w, q, up, acts[..n]);
      PerformsRun(w, q, up, acts[..n]);
      PerformsOne(After(w, d.ran), EventRuns.PostAll(q, d.posts), up, acts[n]);
      RunAppend(w, d.ran, Performs(After(w, d.ran), EventRuns.PostAll(q, d.posts), up, acts[n]).ran);
    }
  }

  lemma ReachedJoin(w: World, a: seq<Step>, b: seq<Step>)
    requires IsRun(w, a) && IsRun(Reached(w, a), b)
    ensures Reached(w, a + b) == Reached(Reached(w, a), b)
  {
    RunAppend(w, a, b);
  }

  function Both(d: Did, e: Did): Did { Did(d.ran + e.ran, d.posts + e.posts) }

  lemma BothAssoc(d: Did, e: Did, f: Did)
    ensures Both(Both(d, e), f) == Both(d, Both(e, f)) && Both(d, NOTHING_DONE) == d
  {
    assert d.ran + e.ran + f.ran == d.ran + (e.ran + f.ran) && d.posts + e.posts + f.posts == d.posts + (e.posts + f.posts);
  }

  lemma PerformsSnoc(w: World, q: EventRuns.Queues, up: bool, acts: seq<Action>, a: Action)
    ensures var d := PerformsAll(w, q, up, acts);
      PerformsAll(w, q, up, acts + [a]) == Both(d, Performs(Reached(w, d.ran), EventRuns.PostAll(q, d.posts), up, a))
  {
    hide Performs, Reached, EventRuns.PostAll;
    assert (acts + [a])[..|acts|] == acts;
  }

  lemma {:induction false} PerformsJoin(w: World, q: EventRuns.Queues, up: bool, a: seq<Action>, b: seq<Action>)
    ensures
      var d := PerformsAll(w, q, up, a);
      PerformsAll(w, q, up, a + b) == Both(d, PerformsAll(Reached(w, d.ran), EventRuns.PostAll(q, d.posts), up, b))
    decreases |b|
  {
    hide Performs, EventRuns.PostAll, Reached, PerformsAll, IsRun, Both;
    var d := PerformsAll(w, q, up, a);
    var w1, q1 := Reached(w, d.ran), EventRuns.PostAll(q, d.posts);
    if b == [] {
      assert a + b == a;
      PerformsNothing(w1, q1, up);
      BothAssoc(d, d, d);
    } else {
      var n := |b| - 1;
      var e := PerformsAll(w1, q1, up, b[..n]);
      assert a + b == a + b[..n] + [b[n]] && b == b[..n] + [b[n]];
      PerformsJoin(w, q, up, a, b[..n]);
      PerformsRun(w, q, up, a);
      PerformsRun(w1, q1, up, b[..n]);
      BothParts(d, e);
      ReachedJoin(w, d.ran, e.ran);
      PostAllJoin(q, d.posts, e.posts);
      PerformsSnoc(w, q, up, a + b[..n], b[n]);
      PerformsSnoc(w1, q1, up, b[..n], b[n]);
      BothAssoc(d, e, Performs(Reached(w1, e.ran), EventRuns.PostAll(q1, e.posts), up, b[n]));
    }
  }

  lemma BothParts(d: Did, e: Did)
    ensures Both(d, e).ran == d.ran + e.ran && Both(d, e).posts == d.posts + e.posts
  {}

  lemma {:induction false} PerformsSizes(w: World, q: EventRuns.Queues, up: bool, acts: seq<Action>)
    ensures |PerformsAll(w, q, up, acts).posts| <= |acts|
  {
    if acts != [] { PerformsSizes(w, q, up, acts[..|acts| - 1]); }
  }

  /** What the handlers subscribed to a topic do, slot by slot. */
  function SlotActs(subs: seq<Sub>, topic: U32, acts: seq<seq<Action>>): seq<Action> {
    if subs == [] then []
    else
      var n := |subs| - 1;
      SlotActs(subs[..n], topic, acts) + if subs[n].Sub? && subs[n].topic == topic && n < |acts| then acts[n] else []
  }

  lemma SlotActsNext(subs: seq<Sub>, topic: U32, acts: seq<seq<Action>>, i: nat)
    requires i < |subs|
    ensures SlotActs(subs[..i + 1], topic, acts)
         == SlotActs(subs[..i], topic, acts)
            + if subs[i].Sub? && subs[i].topic == topic && i < |acts| then acts[i] else []
    ensures SlotActs(subs[..0], topic, acts) == []
  {
    assert subs[..i + 1][..i] == subs[..i];
  }

  /** onEvent as a function: a delivery, if the event carries a message. */
  ghost function Delivers(w: World, q: EventRuns.Queues, up: bool, e: Event, subs: seq<Sub>, acts: seq<seq<Action>>): Did {
    if Carried(e) == [] || !Enabled(w, Begin) then NOTHING_DONE
    else
      var d := PerformsAll(Next(w, Begin), q, up, SlotActs(subs, MessageOf(e).topic, acts));
      Did([Begin] + d.ran + [End], d.posts)
  }

  lemma ClientRunAppend(w: World, a: seq<Step>, mid: World, b: seq<Step>, end: World)
    requires ClientRun(w, a, mid) && ClientRun(mid, b, end)
    ensures ClientRun(w, a + b, end)
  {
    RunAppend(w, a, b);
  }

  lemma ClientRunInv(w: World, ran: seq<Step>, end: World)
    requires ClientRun(w, ran, end) && Inv(w)
    ensures Inv(end)
  {
    RunKeeps(w, ran);
  }

  lemma ClientRunKeepsMessage(w: World, ran: seq<Step>, end: World)
    requires ClientRun(w, ran, end) && Inv(w) && w.handling != []
    ensures end.handling == w.handling && Inv(end)
    ensures var a := w.handling[0].envelope;
      && a in w.envelopes && a in end.envelopes && end.envelopes[a].topic == w.envelopes[a].topic
    decreases |ran|
  {
    hide Occurrences;
    var a := w.handling[0].envelope;
    OccurrencesPositive(w.handling, 0);
    StillLive(w, a);
    if ran != [] {
      StepKeeps(w, ran[0]);
      var n := Next(w, ran[0]);
      assert ByClient(ran[0]);
      assert forall i :: 0 <= i < |ran[1..]| ==> ran[1..][i] == ran[i + 1];
      ClientRunKeepsMessage(n, ran[1..], end);
    }
  }

  class Bus {
    const manager: EventManager.Manager
    /** Its number as a receiver of the manager. */
    const number: nat
    const subs: array<Sub>
    var nextId: nat
    /** The envelopes in kernel memory, by address. */
    var envelopes: map<nat, Envelope>
    /** Kept for the model: the references clients hold, and the message being delivered. */
    var held: multiset<nat>
    var handling: seq<Message>
    ghost var lost: multiset<nat>
    /** The message taken off the queue by the dispatch under way, until the bus sees it. */
    ghost var taken: seq<Message>

    ghost predicate Ready()
      reads this, manager, manager.mainQueue, manager.immediateQueue
    {
      manager.Sound() && subs.Length == MAX_SUBS
    }

    ghost function Current(): World
      requires Ready()
      reads this, manager, manager.mainQueue, manager.mainQueue.events, manager.immediateQueue, manager.immediateQueue.events
    {
      World(envelopes, held, taken + Waiting(manager.State().main), handling, lost)
    }

    constructor (manager: EventManager.Manager, number: nat)
      requires manager.Valid() && Waiting(manager.State().main) == []
      ensures Ready() && this.manager == manager && this.number == number && taken == []
      ensures Current() == Start() && Inv(Current())
      ensures subs[..] == seq(MAX_SUBS, _ => Unused) && nextId == 1
    {
      this.manager, this.number := manager, number;
      subs := new Sub[MAX_SUBS](_ => Unused);
      nextId, envelopes, held, handling, lost, taken := 1, map[], multiset{}, [], multiset{}, [];
    }

    /** Ids in use differ, and none was given out that is not yet due. */
    ghost predicate SubTable()
      reads this, subs
    {
      && subs.Length == MAX_SUBS && 0 < nextId
      && (forall i :: 0 <= i < MAX_SUBS && subs[i].Sub? ==> 0 < subs[i].id < nextId)
      && (forall i, j :: 0 <= i < j < MAX_SUBS && subs[i].Sub? && subs[j].Sub? ==> subs[i].id != subs[j].id)
    }

    /** Bus::subscribe: the first unused slot, refused only without a handler, without a
        topic, or when all slots are used. */
    method Subscribe(topic: U32, handler: nat) returns (id: nat)
      requires SubTable() && nextId < REFS
      modifies this`nextId, subs
      ensures SubTable()
      ensures id == 0 <==> handler == 0 || topic == 0 || forall i :: 0 <= i < MAX_SUBS ==> old(subs[i]).Sub?
      ensures id == 0 ==> subs[..] == old(subs[..])
      ensures id != 0 ==> exists i :: 0 <= i < MAX_SUBS && old(subs[i]).Unused?
                                      && (forall j :: 0 <= j < i ==> old(subs[j]).Sub?)
                                      && subs[..] == old(subs[..])[i := Sub(id, topic, handler)]
      ensures id != 0 ==> forall j :: 0 <= j < MAX_SUBS && old(subs[j]).Sub? ==> old(subs[j]).id != id
    {
      if handler == 0 || topic == 0 { return 0; }
      var i := 0;
      while i < MAX_SUBS
        invariant 0 <= i <= MAX_SUBS && subs[..] == old(subs[..]) && nextId == old(nextId)
        invariant forall j :: 0 <= j < i ==> subs[j].Sub?
      {
        if subs[i].Unused? {
          id := nextId;
          nextId := nextId + 1;
          subs[i] := Sub(id, topic, handler);
          assert subs[..] == old(subs[..])[i := Sub(id, topic, handler)];
          return;
        }
        i := i + 1;
      }
      id := 0;
    }

    /** Bus::unsubscribe: frees the one slot with this id, and tells whether there was one. */
    method Unsubscribe(id: nat) returns (ok: bool)
      requires SubTable()
      modifies subs
      ensures SubTable()
      ensures ok <==> exists i :: 0 <= i < MAX_SUBS && old(subs[i]).Sub? && old(subs[i]).id == id
      ensures forall i :: 0 <= i < MAX_SUBS ==>
                subs[i] == if old(subs[i]).Sub? && old(subs[i]).id == id then Unused else old(subs[i])
    {
      if id == 0 { return false; }
      var i := 0;
      while i < MAX_SUBS
        invariant 0 <= i <= MAX_SUBS && subs[..] == old(subs[..])
        invariant forall j :: 0 <= j < i ==> !(subs[j].Sub? && subs[j].id == id)
      {
        if subs[i].Sub? && subs[i].id == id {
          subs[i] := Unused;
          return true;
        }
        i := i + 1;
      }
      ok := false;
    }

    /** retain, on the memory of one envelope */
    method RetainRef(a: nat)
      requires a in envelopes
      modifies this`envelopes
      ensures envelopes == old(envelopes)[a := Retained(old(envelopes)[a])]
    {
      var e := envelopes[a];
      envelopes := envelopes[a := e.(refCount := (e.refCount + 1) % REFS)];
    }

    /** release, on the memory of one envelope */
    method ReleaseRef(a: nat)
      requires a in envelopes
      modifies this`envelopes
      ensures envelopes == old(envelopes)[a := Released(old(envelopes)[a])]
    {
      var e := envelopes[a];
      if e.refCount > 1 {
        envelopes := envelopes[a := e.(refCount := e.refCount - 1)];
        return;
      }
      if e.payload { e := e.(destroyed := e.destroyed + 1); }
      envelopes := envelopes[a := e.(refCount := 0, live := false)];
    }

    /** Bus::publish: exactly one queued reference when the event manager takes the event,
        no change of any counter when it does not. */
    method Publish(a: nat) returns (ok: bool, ghost posts: seq<Event>)
      requires Ready() && Inv(Current())
      requires a != 0 ==> Enabled(Current(), Step.Publish(a, false))
      modifies this`envelopes, manager`totalDropped, manager`posted, manager.mainQueue`tail, manager.mainQueue`count,
        manager.mainQueue.events, manager.immediateQueue, manager.immediateQueue.events
      ensures Ready()
      ensures ok == (a != 0 && old(envelopes)[a].topic != 0 && manager.initialized && |old(manager.State().main)| < EventQueue.MAX)
      ensures Current() == if a == 0 then old(Current()) else Next(old(Current()), Step.Publish(a, ok))
      ensures Posted(old(manager.State()), posts, manager.State()) && manager.posted == old(manager.posted) + |posts|
      ensures posts == if a == 0 || old(envelopes)[a].topic == 0 || !manager.initialized then []
                       else [BusEvent(Message(a, old(envelopes)[a].topic, old(envelopes)[a].correlationId))]
    {
      hide Waiting, Occurrences, Counted, Inv, EventRuns.Post, EventQueue.Queue.Contents, EventQueue.ImmediateQueue.Contents;
      hide Posted;
      PostedNothing(manager.State());
      posts := [];
      if a == 0 || envelopes[a].topic == 0 { return false, []; }
      var e := envelopes[a];
      var m := Message(a, e.topic, e.correlationId);
      ghost var waiting := Waiting(manager.State().main);
      WaitingPost(manager.State(), m);
      PostedOne(manager.State(), BusEvent(m));
      posts := if manager.initialized then [BusEvent(m)] else [];
      assert (taken + waiting) + [m] == taken + (waiting + [m]);
      RetainRef(a);
      ok := manager.PostEvent(BusEvent(m));
      if !ok { ReleaseRef(a); }
    }

    /** EventManager::clearEvents: the references of all waiting messages are lost. */
    method ClearEvents() returns (ghost ran: seq<Step>)
      requires Ready() && manager.Valid() && Inv(Current())
      modifies this`lost, manager`cleared, manager.mainQueue`head, manager.mainQueue`tail, manager.mainQueue`count,
        manager.immediateQueue`head, manager.immediateQueue`tail, manager.immediateQueue`count
      ensures Ready() && manager.Valid() && Inv(Current())
      ensures Current().queue == taken && lost == old(lost + EnvelopesOf(Waiting(manager.State().main)))
      ensures IsRun(old(Current()), ran) && After(old(Current()), ran) == Current() && forall s :: s in ran ==> s.Drop?
    {
      hide Waiting, Inv, EnvelopesOf, EventQueue.Queue.Contents, EventQueue.ImmediateQueue.Contents, EventRuns.InPlace;
      ghost var w, waiting := Current(), Waiting(manager.State().main);
      ran := DropAll(w, |taken|);
      assert w.queue[..|taken|] == taken && w.queue[|taken|..] == waiting;
      manager.ClearEvents();
      lost := lost + EnvelopesOf(waiting);
      NothingWaiting();
      assert Current() == After(w, ran);
    }

    static lemma NothingWaiting()
      ensures Waiting([]) == []
    {}

    /** EventManager::clearEventsOfType: for the type of bus events the references of all
        waiting messages are lost, for any other type none is. */
    method ClearEventsOfType(kind: nat) returns (ghost ran: seq<Step>)
      requires Ready() && manager.Valid() && Inv(Current())
      modifies this`lost, manager`cleared, manager.mainQueue`head, manager.mainQueue`tail, manager.mainQueue`count,
        manager.mainQueue.events
      ensures manager.mainQueue.events.Length == EventQueue.MAX && manager.mainQueue.count <= EventQueue.MAX
      ensures manager.Valid() <==> |manager.mainQueue.Contents()| < EventQueue.MAX
      ensures lost == if kind == BUS_TYPE then old(lost + EnvelopesOf(Waiting(manager.State().main))) else old(lost)
      ensures manager.Valid() ==>
        && Ready() && Inv(Current()) && Current().queue == (if kind == BUS_TYPE then taken else old(Current()).queue)
        && IsRun(old(Current()), ran) && After(old(Current()), ran) == Current() && forall s :: s in ran ==> s.Drop?
    {
      hide Waiting, Inv, EnvelopesOf, Filter, EventQueue.Queue.Contents, EventQueue.ImmediateQueue.Contents, EventRuns.InPlace;
      ghost var w, waiting := Current(), Waiting(manager.State().main);
      WaitingFilter(manager.State().main, kind);
      if kind == BUS_TYPE {
        ran := DropAll(w, |taken|);
        assert w.queue[..|taken|] == taken && w.queue[|taken|..] == waiting;
        lost := lost + EnvelopesOf(waiting);
      } else {
        ran := [];
      }
      manager.ClearEventsOfType(kind);
      NothingWaiting();
      if manager.Valid() { assert Current() == After(w, ran); }
    }

    /** makeEnvelope, at the address the allocator gave */
    method MakeEnvelope(a: nat, topic: U32, correlationId: nat, payload: bool)
      requires Ready() && Enabled(Current(), Make(a, topic, correlationId, payload))
      modifies this`envelopes, this`held
      ensures Ready() && Current() == Next(old(Current()), Make(a, topic, correlationId, payload))
    {
      hide Waiting, EventQueue.Queue.Contents, EventQueue.ImmediateQueue.Contents;
      envelopes := envelopes[a := Envelope(topic, correlationId, payload, 1, true, 0)];
      held := held[a := held[a] + 1];
    }

    method EditEnvelope(a: nat, topic: U32, correlationId: nat)
      requires Ready() && Enabled(Current(), Edit(a, topic, correlationId))
      modifies this`envelopes
      ensures Ready() && Current() == Next(old(Current()), Edit(a, topic, correlationId))
    {
      hide Waiting, EventQueue.Queue.Contents, EventQueue.ImmediateQueue.Contents;
      envelopes := envelopes[a := envelopes[a].(topic := topic, correlationId := correlationId)];
    }

    method RetainHeld(a: nat)
      requires Ready() && Enabled(Current(), Step.Retain(a))
      modifies this`envelopes, this`held
      ensures Ready() && Current() == Next(old(Current()), Step.Retain(a))
    {
      hide Waiting, EventQueue.Queue.Contents, EventQueue.ImmediateQueue.Contents;
      RetainRef(a);
      held := held[a := held[a] + 1];
    }

    method ReleaseHeld(a: nat)
      requires Ready() && Enabled(Current(), Step.Release(a))
      modifies this`envelopes, this`held
      ensures Ready() && Current() == Next(old(Current()), Step.Release(a))
    {
      hide Waiting, EventQueue.Queue.Contents, EventQueue.ImmediateQueue.Contents;
      ReleaseRef(a);
      held := held[a := held[a] - 1];
    }

    /** One action of a handler that keeps the rules: it does only what is enabled. */
    method Act(a: Action) returns (ghost ran: seq<Step>, ghost posts: seq<Event>)
      requires Ready() && Inv(Current())
      modifies this`envelopes, this`held, manager`totalDropped, manager`posted, manager.mainQueue`tail,
        manager.mainQueue`count, manager.mainQueue.events, manager.immediateQueue, manager.immediateQueue.events
      ensures Ready() && ClientRun(old(Current()), ran, Current())
      ensures Posted(old(manager.State()), posts, manager.State()) && manager.posted == old(manager.posted) + |posts|
      ensures Did(ran, posts) == Performs(old(Current()), old(manager.State()), manager.initialized, a)
    {
      hide Posted;
      hide Waiting, Inv, ClientRun, EventQueue.Queue.Contents, EventQueue.ImmediateQueue.Contents, BusEvent;
      hide EventQueue.Queue.Ring, EventQueue.ImmediateQueue.Ring, Next, Enabled;
      ghost var w := Current();
      NothingDone(w);
      PostedNothing(manager.State());
      ran, posts := [], [];
      if a.Post? {
        posts := PostOther(a.event);
        return;
      }
      var s := a.step;
      SameForClients(w, s);
      if !ByClient(s) || !Enabled(World(envelopes, held, [], handling, multiset{}), s) { return; }
      DidOne(w, s);
      ran := [s];
      match s {
        case Make(a, topic, id, payload) => MakeEnvelope(a, topic, id, payload);
        case Edit(a, topic, id) => EditEnvelope(a, topic, id);
        case Retain(a) => RetainHeld(a);
        case Release(a) => ReleaseHeld(a);
        case Publish(a, accepted) =>
          EitherWay(w, a, accepted);
          var ok;
          ok, posts := Publish(a);
          DidOne(w, Step.Publish(a, ok));
          ran := [Step.Publish(a, ok)];
      }
    }

    /** A handler posts an event that is not a bus event: no message moves. */
    method PostOther(e: Event) returns (ghost posts: seq<Event>)
      requires Ready()
      modifies manager`totalDropped, manager`posted, manager.mainQueue`tail, manager.mainQueue`count,
        manager.mainQueue.events, manager.immediateQueue, manager.immediateQueue.events
      ensures Ready() && Current() == old(Current())
      ensures Posted(old(manager.State()), posts, manager.State()) && manager.posted == old(manager.posted) + |posts|
      ensures posts == if manager.initialized && !IsBusEvent(e) then [e] else []
    {
      hide Waiting, Posted, IsBusEvent, EventRuns.Post, EventQueue.Queue.Contents, EventQueue.ImmediateQueue.Contents;
      ghost var q := manager.State();
      PostedNothing(q);
      posts := [];
      if !IsBusEvent(e) {
        WaitingOther(q, e);
        PostedOne(q, e);
        var _ := manager.PostEvent(e);
        posts := if manager.initialized then [e] else [];
      }
    }

    static lemma SameForClients(w: World, s: Step)
      ensures ByClient(s) ==> (Enabled(World(w.envelopes, w.held, [], w.handling, multiset{}), s) <==> Enabled(w, s))
    {}

    static lemma EitherWay(w: World, a: nat, accepted: bool)
      requires Enabled(w, Step.Publish(a, accepted)) && Inv(w)
      ensures a != 0 && Enabled(w, Step.Publish(a, true)) && Enabled(w, Step.Publish(a, false))
    {}

    static lemma NothingDone(w: World)
      ensures ClientRun(w, [], w)
    {}

    static lemma DidOne(w: World, s: Step)
      requires Enabled(w, s) && ByClient(s)
      ensures ClientRun(w, [s], Next(w, s))
    {
      OneStep(w, s);
    }

    /** A handler's actions, one after the other. */
    method Handle(acts: seq<Action>) returns (ghost ran: seq<Step>, ghost posts: seq<Event>)
      requires Ready() && Inv(Current())
      modifies this`envelopes, this`held, manager`totalDropped, manager`posted, manager.mainQueue`tail,
        manager.mainQueue`count, manager.mainQueue.events, manager.immediateQueue, manager.immediateQueue.events
      ensures Ready() && ClientRun(old(Current()), ran, Current()) && Inv(Current())
      ensures Posted(old(manager.State()), posts, manager.State()) && manager.posted == old(manager.posted) + |posts|
      ensures Did(ran, posts) == PerformsAll(old(Current()), old(manager.State()), manager.initialized, acts)
    {
      hide Posted, Performs;
      hide Waiting, Occurrences, Counted, Inv, ClientRun, EventQueue.Queue.Contents, EventQueue.ImmediateQueue.Contents;
      hide Enabled, Next, PerformsAll, Reached;
      ghost var w := Current();
      NothingDone(w);
      ghost var q := manager.State();
      PostedNothing(q);
      PerformsNothing(w, q, manager.initialized);
      ran, posts := [], [];
      var i := 0;
      while i < |acts|
        invariant 0 <= i <= |acts| && Ready() && ClientRun(w, ran, Current()) && Inv(Current())
        invariant Posted(q, posts, manager.State()) && manager.posted == old(manager.posted) + |posts|
        invariant Did(ran, posts) == PerformsAll(w, q, manager.initialized, acts[..i])
      {
        ghost var before, mid := Current(), manager.State();
        ghost var one, more := Act(acts[i]);
        PerformsNext(w, q, manager.initialized, acts, i, ran, before, posts, mid);
        ClientRunAppend(w, ran, before, one, Current());
        PostedJoin(q, posts, mid, more, manager.State());
        ran, posts := ran + one, posts + more;
        ClientRunInv(w, ran, Current());
        i := i + 1;
      }
      assert acts[..i] == acts;
    }

    static lemma PerformsNext(w: World, q: EventRuns.Queues, up: bool, acts: seq<Action>, i: nat,
                              ran: seq<Step>, mid: World, posts: seq<Event>, r: EventRuns.Queues)
      requires i < |acts| && ClientRun(w, ran, mid) && Posted(q, posts, r)
      requires Did(ran, posts) == PerformsAll(w, q, up, acts[..i])
      ensures PerformsAll(w, q, up, acts[..i + 1])
           == Did(ran + Performs(mid, r, up, acts[i]).ran, posts + Performs(mid, r, up, acts[i]).posts)
    {
      hide Performs;
      assert acts[..i + 1][..i] == acts[..i];
    }

    /** The loop of onEvent over the subscription slots. */
    method CallSubscribers(m: Message, acts: seq<seq<Action>>)
      returns (called: seq<nat>, ghost ran: seq<Step>, ghost posts: seq<Event>)
      requires Ready() && handling == [m] && taken == [] && Inv(Current())
      requires m.envelope in envelopes && envelopes[m.envelope].topic == m.topic
      modifies this`envelopes, this`held, manager`totalDropped, manager`posted, manager.mainQueue`tail,
        manager.mainQueue`count, manager.mainQueue.events, manager.immediateQueue, manager.immediateQueue.events
      ensures Ready() && Inv(Current()) && m.envelope in envelopes && ClientRun(old(Current()), ran, Current())
      ensures called == Subscribers(subs[..], m.topic)
      ensures Posted(old(manager.State()), posts, manager.State()) && manager.posted == old(manager.posted) + |posts|
      ensures Did(ran, posts)
           == PerformsAll(old(Current()), old(manager.State()), manager.initialized, SlotActs(subs[..], m.topic, acts))
    {
      hide Waiting, Occurrences, Counted, Inv, ClientRun, EventQueue.Queue.Contents, EventQueue.ImmediateQueue.Contents;
      hide Enabled, Next, Subscribers, Posted, PerformsAll, SlotActs, Reached;
      ghost var w, q := Current(), manager.State();
      called, ran, posts := [], [], [];
      PostedNothing(q);
      PerformsNothing(w, q, manager.initialized);
      NothingDone(w);
      NoSubscribers(m.topic);
      SlotActsNext(subs[..], m.topic, acts, 0);
      var i := 0;
      while i < MAX_SUBS
        invariant 0 <= i <= MAX_SUBS && Ready() && Inv(Current()) && ClientRun(w, ran, Current())
        invariant called == Subscribers(subs[..i], m.topic)
        invariant m.envelope in envelopes && envelopes[m.envelope].topic == m.topic
        invariant Posted(q, posts, manager.State()) && manager.posted == old(manager.posted) + |posts|
        invariant Did(ran, posts) == PerformsAll(w, q, manager.initialized, SlotActs(subs[..i], m.topic, acts))
      {
        assert subs[..i + 1][..i] == subs[..i] && subs[..][..i] == subs[..i] && subs[..][..i + 1] == subs[..i + 1];
        SubscribersNext(subs[..i + 1], m.topic);
        SlotActsNext(subs[..], m.topic, acts, i);
        var s := subs[i];
        if s.Sub? && s.topic == envelopes[m.envelope].topic {
          called := called + [s.handler];
          ran, posts := CallHandler(m, if i < |acts| then acts[i] else [], w, q, SlotActs(subs[..i], m.topic, acts), ran, posts);
        } else {
          assert SlotActs(subs[..i], m.topic, acts) + [] == SlotActs(subs[..i], m.topic, acts);
        }
        i := i + 1;
      }
      assert subs[..i] == subs[..];
    }

    /** Calls one more handler, after the actions `done`. */
    method CallHandler(m: Message, acts: seq<Action>, ghost w: World, ghost q: EventRuns.Queues, ghost done: seq<Action>,
                       ghost ran: seq<Step>, ghost posts: seq<Event>) returns (ghost ran': seq<Step>, ghost posts': seq<Event>)
      requires Ready() && handling == [m] && taken == [] && Inv(Current()) && Inv(w) && w.handling == [m]
      requires m.envelope in w.envelopes && w.envelopes[m.envelope].topic == m.topic
      requires ClientRun(w, ran, Current()) && Posted(q, posts, manager.State())
      requires Did(ran, posts) == PerformsAll(w, q, manager.initialized, done)
      modifies this`envelopes, this`held, manager`totalDropped, manager`posted, manager.mainQueue`tail,
        manager.mainQueue`count, manager.mainQueue.events, manager.immediateQueue, manager.immediateQueue.events
      ensures Ready() && Inv(Current()) && m.envelope in envelopes && envelopes[m.envelope].topic == m.topic
      ensures ClientRun(w, ran', Current()) && Posted(q, posts', manager.State())
      ensures Did(ran', posts') == PerformsAll(w, q, manager.initialized, done + acts)
      ensures manager.posted - |posts'| == old(manager.posted) - |posts|
    {
      hide Waiting, Occurrences, Counted, Inv, ClientRun, EventQueue.Queue.Contents, EventQueue.ImmediateQueue.Contents;
      hide Enabled, Next, Posted, PerformsAll, Reached;
      ghost var before, mid := Current(), manager.State();
      ghost var more, new_ := Handle(acts);
      MoreDone(w, q, manager.initialized, done, acts, ran, before, posts, mid);
      ClientRunAppend(w, ran, before, more, Current());
      PostedJoin(q, posts, mid, new_, manager.State());
      ran', posts' := ran + more, posts + new_;
      ClientRunKeepsMessage(w, ran', Current());
    }

    /** Actions a, then actions b. */
    static lemma MoreDone(w: World, q: EventRuns.Queues, up: bool, a: seq<Action>, b: seq<Action>,
                          ran: seq<Step>, mid: World, posts: seq<Event>, r: EventRuns.Queues)
      requires ClientRun(w, ran, mid) && Posted(q, posts, r) && Did(ran, posts) == PerformsAll(w, q, up, a)
      ensures var d := PerformsAll(mid, r, up, b);
        PerformsAll(w, q, up, a + b) == Did(ran + d.ran, posts + d.posts)
    {
      hide PerformsAll;
      PerformsJoin(w, q, up, a, b);
    }

    /** Bus::onEvent for an event just taken off the queue: everyone subscribed to the topic
        it was published under is called, in slot order, and then the queue's reference is
        released. The whole delivery is a run of the step system. `acts` is what the
        handlers do meanwhile, slot by slot. */
    method OnEvent(e: Event, acts: seq<seq<Action>>)
      returns (handled: bool, called: seq<nat>, ghost ran: seq<Step>, ghost posts: seq<Event>)
      requires Ready() && handling == [] && taken == Carried(e) && Inv(Current())
      modifies this`envelopes, this`held, this`handling, this`taken, manager`totalDropped, manager`posted, manager.mainQueue`tail,
        manager.mainQueue`count, manager.mainQueue.events, manager.immediateQueue, manager.immediateQueue.events
      ensures Ready() && handled == IsBusEvent(e) && handling == [] && taken == [] && Inv(Current())
      ensures IsRun(old(Current()), ran) && After(old(Current()), ran) == Current()
      ensures Carried(e) == [] ==> called == [] && ran == []
      ensures Carried(e) != [] ==> called == Subscribers(subs[..], MessageOf(e).topic) && IsDelivery(old(Current()), ran)
      ensures Posted(old(manager.State()), posts, manager.State()) && manager.posted == old(manager.posted) + |posts|
      ensures Did(ran, posts) == Delivers(old(Current()), old(manager.State()), manager.initialized, e, subs[..], acts)
    {
      hide Waiting, Inv, EventQueue.Queue.Contents, EventQueue.ImmediateQueue.Contents, Enabled, Next, Subscribers, Posted;
      hide PerformsAll, SlotActs, IsDelivery;
      called, ran, posts := [], [], [];
      PostedNothing(manager.State());
      if !IsBusEvent(e) { return false, [], [], []; }
      handled := true;
      if e.userData == 0 { return; }
      Arrived(Current());
      called, ran, posts := Deliver(MessageOf(e), acts);
    }

    /** The envelope shows what it was published with. */
    method BeginDelivery(m: Message)
      requires Ready() && Enabled(Current(), Begin) && taken == [m] && m.envelope in envelopes
      modifies this`envelopes, this`handling, this`taken
      ensures Ready() && Current() == Next(old(Current()), Begin) && handling == [m] && taken == []
      ensures m.envelope in envelopes && envelopes[m.envelope].topic == m.topic
    {
      hide Waiting, Enabled, Next, EventQueue.Queue.Contents, EventQueue.ImmediateQueue.Contents;
      ghost var w := Current();
      envelopes := envelopes[m.envelope := envelopes[m.envelope].(topic := m.topic, correlationId := m.correlationId)];
      handling, taken := [m], [];
      assert w.queue[1..] == Current().queue;
      BeginIs(w, Current());
    }

    /** The queue's reference is released. */
    method EndDelivery(m: Message)
      requires Ready() && handling == [m] && m.envelope in envelopes
      modifies this`envelopes, this`handling
      ensures Ready() && handling == [] && Enabled(old(Current()), End) && Current() == Next(old(Current()), End)
    {
      hide Waiting, Enabled, Next, EventQueue.Queue.Contents, EventQueue.ImmediateQueue.Contents;
      ghost var w := Current();
      ReleaseRef(m.envelope);
      handling := [];
      EndIs(w, Current());
    }

    /** The delivery of one message. */
    method Deliver(m: Message, acts: seq<seq<Action>>) returns (called: seq<nat>, ghost ran: seq<Step>, ghost posts: seq<Event>)
      requires Ready() && handling == [] && taken == [m] && Inv(Current()) && Enabled(Current(), Begin) && m.envelope in envelopes
      modifies this`envelopes, this`held, this`handling, this`taken, manager`totalDropped, manager`posted, manager.mainQueue`tail,
        manager.mainQueue`count, manager.mainQueue.events, manager.immediateQueue, manager.immediateQueue.events
      ensures Ready() && handling == [] && taken == [] && Inv(Current())
      ensures IsRun(old(Current()), ran) && IsDelivery(old(Current()), ran) && After(old(Current()), ran) == Current()
      ensures called == Subscribers(subs[..], m.topic)
      ensures Posted(old(manager.State()), posts, manager.State()) && manager.posted == old(manager.posted) + |posts|
      ensures
        var d := PerformsAll(Next(old(Current()), Begin), old(manager.State()), manager.initialized, SlotActs(subs[..], m.topic, acts));
        ran == [Begin] + d.ran + [End] && posts == d.posts
    {
      hide Waiting, Inv, ClientRun, EventQueue.Queue.Contents, EventQueue.ImmediateQueue.Contents;
      hide Enabled, Next, Subscribers, Posted, PerformsAll, SlotActs, IsDelivery;
      ghost var w := Current();
      StepKeeps(w, Begin);
      BeginDelivery(m);
      ghost var begun := Current();
      called, ran, posts := CallSubscribers(m, acts);
      ghost var last := Current();
      EndDelivery(m);
      ran := Delivery(w, begun, ran, last, Current());
    }
  }

  /** A delivery begins, runs handlers, and ends. */
  ghost predicate IsDelivery(w: World, ran: seq<Step>) {
    && IsRun(w, ran) && |ran| >= 2 && ran[0] == Begin && ran[|ran| - 1] == End
    && forall i :: 0 < i < |ran| - 1 ==> ByClient(ran[i])
  }

  lemma Arrived(w: World)
    requires Inv(w) && w.queue != [] && w.handling == []
    ensures w.queue[0].envelope in w.envelopes && Enabled(w, Begin)
    ensures Inv(Next(w, Begin))
  {
    hide Occurrences;
    OccurrencesPositive(w.queue, 0);
    StillLive(w, w.queue[0].envelope);
    StepKeeps(w, Begin);
  }

  lemma BeginIs(w: World, n: World)
    requires Enabled(w, Begin)
    requires var m := w.queue[0];
      n == w.(envelopes := w.envelopes[m.envelope := w.envelopes[m.envelope].(topic := m.topic, correlationId := m.correlationId)],
              queue := w.queue[1..], handling := [m])
    ensures n == Next(w, Begin)
  {}

  lemma EndIs(w: World, n: World)
    requires w.handling != [] && w.handling[0].envelope in w.envelopes
    requires var a := w.handling[0].envelope;
      n == w.(envelopes := w.envelopes[a := Released(w.envelopes[a])], handling := [])
    ensures Enabled(w, End) && n == Next(w, End)
  {}

  /** How many actions a list of handlers takes. */
  function Actions(acts: seq<seq<Action>>): nat {
    if acts == [] then 0 else Actions(acts[..|acts| - 1]) + |acts[|acts| - 1]|
  }

  lemma {:induction false} SlotActsSize(subs: seq<Sub>, topic: U32, acts: seq<seq<Action>>)
    ensures |SlotActs(subs, topic, acts)| <= Actions(if |subs| < |acts| then acts[..|subs|] else acts) <= Actions(acts)
  {
    hide SlotActs;
    if subs != [] {
      var n := |subs| - 1;
      SlotActsSize(subs[..n], topic, acts);
      assert subs[..n + 1] == subs;
      SlotActsNext(subs, topic, acts, n);
      if n < |acts| { assert acts[..n + 1][..n] == acts[..n]; }
      assert n + 1 == |acts| ==> acts[..n + 1] == acts;
    } else {
      SlotActsNone(topic, acts);
    }
    ActionsBound(acts, |subs|);
  }

  lemma SlotActsNone(topic: U32, acts: seq<seq<Action>>)
    ensures SlotActs([], topic, acts) == [] && Actions(if 0 < |acts| then acts[..0] else acts) == 0
  {}

  lemma {:induction false} ActionsBound(acts: seq<seq<Action>>, i: nat)
    ensures Actions(if i < |acts| then acts[..i] else acts) <= Actions(acts)
    decreases |acts|
  {
    if i < |acts| {
      var n := |acts| - 1;
      assert i < n ==> acts[..n][..i] == acts[..i];
      assert i == n ==> acts[..i] == acts[..n];
      ActionsBound(acts[..n], i);
    }
  }

  lemma NoSubscribers(topic: U32)
    ensures Subscribers([], topic) == []
  {}

  lemma SubscribersNext(subs: seq<Sub>, topic: U32)
    requires subs != []
    ensures var s := subs[|subs| - 1];
      Subscribers(subs, topic) == Subscribers(subs[..|subs| - 1], topic) + if s.Sub? && s.topic == topic then [s.handler] else []
  {}

  lemma Delivery(w: World, begun: World, mid: seq<Step>, last: World, end: World) returns (ran: seq<Step>)
    requires Inv(w) && Enabled(w, Begin) && begun == Next(w, Begin)
    requires ClientRun(begun, mid, last) && Inv(last)
    requires Enabled(last, End) && end == Next(last, End)
    ensures IsRun(w, ran) && IsDelivery(w, ran) && After(w, ran) == end && Inv(end) && ran == [Begin] + mid + [End]
  {
    hide Enabled, Next, Inv;
    OneStep(w, Begin);
    OneStep(last, End);
    RunAppend(w, [Begin], mid);
    RunAppend(w, [Begin] + mid, [End]);
    ran := [Begin] + mid + [End];
    StepKeeps(last, End);
  }
}
