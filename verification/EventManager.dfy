/** The event manager: posting into two queues, draining them, and delivering each
    event to the listeners and receivers that match it. */
module EventManager {
  import opened Events
  import opened EventRuns
  import EventQueue

  const MAX_LISTENERS := 64
  const RECEIVER_BIT := 0x8000_0000
  const IDS := 0x1_0000_0000

  datatype Handler = NoHandler | Handler(number: nat)

  datatype Listener = Listener(id: nat, eventType: nat, categoryMask: bv8, minPriority: nat, handler: Handler, enabled: bool)

  const NO_LISTENER := Listener(0, 0, 0xFF, LOW, NoHandler, true)

  datatype Receiver = Empty | Receiver(number: nat, enabled: bool, mask: bv8)

  // ----- who is called for an event -----

  /** The filters of dispatchEvent for a function listener. */
  predicate Hears(l: Listener, e: Event) {
    && l.id != 0 && l.enabled
    && (l.eventType == 0 || l.eventType == e.kind)
    && HasCategory(e.category, l.categoryMask)
    && e.priority >= l.minPriority
    && l.handler.Handler?
  }

  predicate Receives(r: Receiver, e: Event) {
    r.Receiver? && r.enabled && HasCategory(e.category, r.mask)
  }

  /** Whoever is called back. */
  datatype Target = ToListener(number: nat) | ToReceiver(number: nat)

  function Heard(l: Listener, e: Event): seq<Target> {
    if Hears(l, e) then [ToListener(l.handler.number)] else []
  }

  function Received(r: Receiver, e: Event): seq<Target> {
    if Receives(r, e) then [ToReceiver(r.number)] else []
  }

  /** Matching targets in table order. */
  function ListenerTargets(ls: seq<Listener>, e: Event): seq<Target> {
    if ls == [] then [] else ListenerTargets(ls[..|ls| - 1], e) + Heard(ls[|ls| - 1], e)
  }

  function ReceiverTargets(rs: seq<Receiver>, e: Event): seq<Target> {
    if rs == [] then [] else ReceiverTargets(rs[..|rs| - 1], e) + Received(rs[|rs| - 1], e)
  }

  /** Listeners come before receivers. */
  function Targets(ls: seq<Listener>, rs: seq<Receiver>, e: Event): seq<Target> {
    ListenerTargets(ls, e) + ReceiverTargets(rs, e)
  }

  lemma {:induction false} ListenerPrefix(ls: seq<Listener>, n: nat, e: Event)
    requires n <= |ls|
    ensures ListenerTargets(ls[..n], e) <= ListenerTargets(ls, e)
    ensures n < |ls| ==> ListenerTargets(ls[..n + 1], e) == ListenerTargets(ls[..n], e) + Heard(ls[n], e)
  {
    if n < |ls| {
      assert ls[..n + 1][..n] == ls[..n];
      ListenerPrefix(ls[..|ls| - 1], n, e);
      assert ls[..|ls| - 1][..n] == ls[..n];
    } else {
      assert ls[..n] == ls;
    }
  }

  lemma {:induction false} ReceiverPrefix(rs: seq<Receiver>, n: nat, e: Event)
    requires n <= |rs|
    ensures ReceiverTargets(rs[..n], e) <= ReceiverTargets(rs, e)
    ensures n < |rs| ==> ReceiverTargets(rs[..n + 1], e) == ReceiverTargets(rs[..n], e) + Received(rs[n], e)
  {
    if n < |rs| {
      assert rs[..n + 1][..n] == rs[..n];
      ReceiverPrefix(rs[..|rs| - 1], n, e);
      assert rs[..|rs| - 1][..n] == rs[..n];
    } else {
      assert rs[..n] == rs;
    }
  }

  /** A listener hears an event if it is in use, enabled and has a handler, and lets the type,
      the category and the priority through. */
  lemma HearsIf(l: Listener, e: Event)
    ensures Heard(l, e) ==
      if l.id != 0 && l.enabled && l.handler != NoHandler && (l.eventType == 0 || l.eventType == e.kind)
         && l.minPriority <= e.priority && e.category & l.categoryMask != 0
      then [ToListener(l.handler.number)] else []
  {
    hide HasCategory;
    CategoryIf(e.category, l.categoryMask);
  }

  lemma CategoryIf(cats: bv8, check: bv8)
    ensures HasCategory(cats, check) <==> cats & check != 0
  {}

  lemma ReceivesIf(r: Receiver, e: Event)
    ensures Received(r, e) == if r != Empty && r.enabled && e.category & r.mask != 0 then [ToReceiver(r.number)] else []
  {}

  lemma ListenerSlice(ls: seq<Listener>, rs: seq<Receiver>, e: Event, i: nat)
    requires i < |ls|
    ensures var place := |ListenerTargets(ls[..i], e)|;
      && |ListenerTargets(ls[..i + 1], e)| == place + |Heard(ls[i], e)| <= |Targets(ls, rs, e)|
      && Targets(ls, rs, e)[place..place + |Heard(ls[i], e)|] == Heard(ls[i], e)
  {
    hide ListenerTargets, ReceiverTargets, Heard;
    ListenerPrefix(ls, i, e);
    ListenerPrefix(ls, i + 1, e);
  }

  lemma ReceiverSlice(ls: seq<Listener>, rs: seq<Receiver>, e: Event, i: nat)
    requires i < |rs|
    ensures var place := |ListenerTargets(ls, e)| + |ReceiverTargets(rs[..i], e)|;
      && |ListenerTargets(ls, e)| + |ReceiverTargets(rs[..i + 1], e)| == place + |Received(rs[i], e)| <= |Targets(ls, rs, e)|
      && Targets(ls, rs, e)[place..place + |Received(rs[i], e)|] == Received(rs[i], e)
  {
    hide ListenerTargets, ReceiverTargets, Received;
    ReceiverPrefix(rs, i, e);
    ReceiverPrefix(rs, i + 1, e);
  }

  /** The place of listener i among the targets is behind the listeners before it. */
  lemma ListenerPlace(ls: seq<Listener>, rs: seq<Receiver>, e: Event, i: nat)
    requires i < |ls|
    ensures var l, place := ls[i], |ListenerTargets(ls[..i], e)|;
      if l.id != 0 && l.enabled && l.handler != NoHandler && (l.eventType == 0 || l.eventType == e.kind)
         && l.minPriority <= e.priority && e.category & l.categoryMask != 0
      then |ListenerTargets(ls[..i + 1], e)| == place + 1 <= |Targets(ls, rs, e)|
           && Targets(ls, rs, e)[place] == ToListener(l.handler.number)
      else |ListenerTargets(ls[..i + 1], e)| == place
  {
    hide ListenerTargets, Targets, Heard, HasCategory;
    ListenerSlice(ls, rs, e, i);
    HearsIf(ls[i], e);
  }

  /** The place of receiver i is behind all listeners and the receivers before it. */
  lemma ReceiverPlace(ls: seq<Listener>, rs: seq<Receiver>, e: Event, i: nat)
    requires i < |rs|
    ensures var r, place := rs[i], |ListenerTargets(ls, e)| + |ReceiverTargets(rs[..i], e)|;
      if r != Empty && r.enabled && e.category & r.mask != 0
      then |ListenerTargets(ls, e)| + |ReceiverTargets(rs[..i + 1], e)| == place + 1 <= |Targets(ls, rs, e)|
           && Targets(ls, rs, e)[place] == ToReceiver(r.number)
      else |ReceiverTargets(rs[..i + 1], e)| == |ReceiverTargets(rs[..i], e)|
  {
    hide ListenerTargets, ReceiverTargets, Targets, Received, HasCategory;
    ReceiverSlice(ls, rs, e, i);
    ReceivesIf(rs[i], e);
  }

  /** Those are all: the places run from 0 to the number of targets. */
  lemma AllPlaced(ls: seq<Listener>, rs: seq<Receiver>, e: Event)
    ensures |ListenerTargets(ls[..0], e)| == 0 == |ReceiverTargets(rs[..0], e)|
    ensures |Targets(ls, rs, e)| == |ListenerTargets(ls[..|ls|], e)| + |ReceiverTargets(rs[..|rs|], e)|
  {
    assert ls[..|ls|] == ls && rs[..|rs|] == rs;
  }

  /** `called` are the first targets; all but the last declined the event, and the last one
      handled it unless every target was called. */
  ghost predicate Delivered(called: seq<Target>, targets: seq<Target>, e: Event, handles: (Target, Event) -> bool) {
    && called <= targets
    && (forall i :: 0 <= i < |called| - 1 ==> !handles(called[i], e))
    && (called == targets || (called != [] && handles(called[|called| - 1], e)))
  }

  /** So the tables and the handlers decide who is called. */
  lemma DeliveredUnique(a: seq<Target>, b: seq<Target>, targets: seq<Target>, e: Event, handles: (Target, Event) -> bool)
    requires Delivered(a, targets, e, handles) && Delivered(b, targets, e, handles)
    ensures a == b
  {
    if |a| < |b| {
      DeliveredStops(a, b, targets, e, handles);
    } else if |b| < |a| {
      DeliveredStops(b, a, targets, e, handles);
    }
  }

  lemma DeliveredStops(a: seq<Target>, b: seq<Target>, targets: seq<Target>, e: Event, handles: (Target, Event) -> bool)
    requires Delivered(a, targets, e, handles) && b <= targets && |a| < |b|
    ensures !Delivered(b, targets, e, handles)
  {
    assert b[|a| - 1] == a[|a| - 1];
  }

  /** Whoever is called before t declines. */
  ghost predicate GetsTo(targets: seq<Target>, e: Event, handles: (Target, Event) -> bool, t: Target) {
    exists i :: 0 <= i < |targets| && targets[i] == t && forall j :: 0 <= j < i ==> !handles(targets[j], e)
  }

  /** So who is called can be told beforehand. */
  lemma CalledIff(called: seq<Target>, targets: seq<Target>, e: Event, handles: (Target, Event) -> bool, t: Target)
    requires Delivered(called, targets, e, handles)
    ensures t in called <==> GetsTo(targets, e, handles, t)
  {
    if t in called {
      var i :| 0 <= i < |called| && called[i] == t;
      assert targets[i] == t;
      forall j | 0 <= j < i ensures !handles(targets[j], e) { assert targets[j] == called[j]; }
    }
    if GetsTo(targets, e, handles, t) {
      var i :| 0 <= i < |targets| && targets[i] == t && forall j :: 0 <= j < i ==> !handles(targets[j], e);
      if |called| <= i {
        assert false;
      }
      assert called[i] == targets[i];
    }
  }

  /** How handlers answer: the number of the dispatch within a call of processEvents, who is
      called, and for what. */
  type Answers = (nat, Target, Event) -> bool

  function AnswersAt(answers: Answers, i: nat): (Target, Event) -> bool { (t: Target, e: Event) => answers(i, t, e) }

  /** Each event of a log, from dispatch `from` on, went to its own targets. */
  ghost predicate AllDelivered(log: seq<Event>, calls: seq<seq<Target>>, ls: seq<Listener>, rs: seq<Receiver>,
                               answers: Answers, from: nat) {
    && |calls| == |log|
    && forall i :: 0 <= i < |log| ==> Delivered(calls[i], Targets(ls, rs, log[i]), log[i], AnswersAt(answers, from + i))
  }

  lemma NoneDelivered(ls: seq<Listener>, rs: seq<Receiver>, answers: Answers, from: nat)
    ensures AllDelivered([], [], ls, rs, answers, from)
  {}

  lemma DeliveredSizes(log: seq<Event>, calls: seq<seq<Target>>, ls: seq<Listener>, rs: seq<Receiver>, answers: Answers, from: nat)
    requires AllDelivered(log, calls, ls, rs, answers, from)
    ensures |calls| == |log|
  {}

  lemma DeliveredNext(log: seq<Event>, calls: seq<seq<Target>>, ls: seq<Listener>, rs: seq<Receiver>, answers: Answers, from: nat,
                      e: Event, called: seq<Target>)
    requires AllDelivered(log, calls, ls, rs, answers, from)
    requires Delivered(called, Targets(ls, rs, e), e, AnswersAt(answers, from + |log|))
    ensures AllDelivered(log + [e], calls + [called], ls, rs, answers, from)
  {
    hide Delivered, Targets, AnswersAt;
  }

  lemma DeliveredJoin(log: seq<Event>, calls: seq<seq<Target>>, log2: seq<Event>, calls2: seq<seq<Target>>,
                      ls: seq<Listener>, rs: seq<Receiver>, answers: Answers)
    requires AllDelivered(log, calls, ls, rs, answers, 0) && AllDelivered(log2, calls2, ls, rs, answers, |log|)
    ensures AllDelivered(log + log2, calls + calls2, ls, rs, answers, 0)
  {
    hide Delivered, Targets, AnswersAt;
    forall i | 0 <= i < |log + log2|
      ensures Delivered((calls + calls2)[i], Targets(ls, rs, (log + log2)[i]), (log + log2)[i], AnswersAt(answers, 0 + i))
    {
      if i >= |log| { assert |log| + (i - |log|) == 0 + i; }
    }
  }

  // ----- the listener table -----

  predicate Free(l: Listener) { l.id == 0 }

  function Used(ls: seq<Listener>): (n: nat)
    ensures n <= |ls|
  {
    if ls == [] then 0 else Used(ls[..|ls| - 1]) + if Free(ls[|ls| - 1]) then 0 else 1
  }

  lemma {:induction false} UsedUpdate(ls: seq<Listener>, i: nat, l: Listener)
    requires i < |ls|
    ensures Used(ls[i := l]) == Used(ls) - (if Free(ls[i]) then 0 else 1) + (if Free(l) then 0 else 1)
  {
    var n := |ls| - 1;
    if i == n {
      assert ls[i := l][..n] == ls[..n];
    } else {
      UsedUpdate(ls[..n], i, l);
      assert ls[i := l][..n] == ls[..n][i := l];
    }
  }

  lemma {:induction false} UsedAll(ls: seq<Listener>)
    requires forall i :: 0 <= i < |ls| ==> !Free(ls[i])
    ensures Used(ls) == |ls|
  {
    if ls != [] { UsedAll(ls[..|ls| - 1]); }
  }

  lemma {:induction false} UsedNone(ls: seq<Listener>)
    requires forall i :: 0 <= i < |ls| ==> Free(ls[i])
    ensures Used(ls) == 0
  {
    if ls != [] { UsedNone(ls[..|ls| - 1]); }
  }

  /** Registered receivers. */
  function Registered(rs: seq<Receiver>): (n: nat)
    ensures n <= |rs|
  {
    if rs == [] then 0 else Registered(rs[..|rs| - 1]) + if rs[|rs| - 1].Empty? then 0 else 1
  }

  lemma {:induction false} RegisteredUpdate(rs: seq<Receiver>, i: nat, r: Receiver)
    requires i < |rs|
    ensures Registered(rs[i := r]) == Registered(rs) - (if rs[i].Empty? then 0 else 1) + (if r.Empty? then 0 else 1)
  {
    var n := |rs| - 1;
    if i == n {
      assert rs[i := r][..n] == rs[..n];
    } else {
      RegisteredUpdate(rs[..n], i, r);
      assert rs[i := r][..n] == rs[..n][i := r];
    }
  }

  lemma {:induction false} RegisteredAll(rs: seq<Receiver>)
    ensures Registered(rs) == |rs| <==> forall i :: 0 <= i < |rs| ==> !rs[i].Empty?
    ensures (forall i :: 0 <= i < |rs| ==> rs[i].Empty?) ==> Registered(rs) == 0
  {
    if rs != [] {
      var n := |rs| - 1;
      RegisteredAll(rs[..n]);
      assert forall i :: 0 <= i < n ==> rs[..n][i] == rs[i];
    }
  }

  /** Ids in use differ, and none was given out that is not yet due. */
  ghost predicate Distinct(ls: seq<Listener>, nextId: nat) {
    && (forall i :: 0 <= i < |ls| ==> ls[i].id < nextId)
    && (forall i, j :: 0 <= i < j < |ls| && ls[i].id == ls[j].id ==> Free(ls[i]))
  }

  class Manager {
    const mainQueue: EventQueue.Queue
    const immediateQueue: EventQueue.ImmediateQueue
    const listeners: array<Listener>
    const receivers: array<Receiver>
    var listenerCount: nat
    var receiverCount: nat
    var nextListenerId: nat
    var totalDispatched: nat
    var totalDropped: nat
    var initialized: bool
    var dispatching: bool
    /** Posts made while initialised, queue deliveries, and events dropped by clearing. */
    ghost var posted: nat
    ghost var delivered: nat
    ghost var cleared: nat

    ghost predicate Sound()
      reads this, mainQueue, immediateQueue
    {
      && mainQueue.Ring() && immediateQueue.Ring() && mainQueue.events != immediateQueue.events
      && listeners.Length == MAX_LISTENERS && receivers.Length == MAX_LISTENERS
    }

    ghost function State(): Queues
      requires Sound()
      reads this, mainQueue, mainQueue.events, immediateQueue, immediateQueue.events
    {
      Queues(immediateQueue.Contents(), mainQueue.Contents(), totalDropped)
    }

    /** Both queues are in order, and no event is lost or duplicated. */
    ghost predicate Valid()
      reads this, mainQueue, mainQueue.events, immediateQueue, immediateQueue.events
    {
      Sound() && InPlace(State()) && posted == delivered + cleared + Weight(State())
    }

    ghost predicate Table()
      reads this, listeners
    {
      && listeners.Length == MAX_LISTENERS && 0 < nextListenerId <= IDS
      && listenerCount == Used(listeners[..]) && Distinct(listeners[..], nextListenerId)
    }

    ghost predicate ReceiverTable()
      reads this, receivers
    {
      receivers.Length == MAX_LISTENERS && receiverCount == Registered(receivers[..])
    }

    constructor ()
      ensures Valid() && Table() && ReceiverTable() && initialized && !dispatching
      ensures State() == Queues([], [], 0) && posted == 0 && nextListenerId == 1
      ensures (forall i :: 0 <= i < MAX_LISTENERS ==> listeners[i] == NO_LISTENER && receivers[i] == Empty)
    {
      hide Used, Registered;
      mainQueue := new EventQueue.Queue();
      immediateQueue := new EventQueue.ImmediateQueue();
      listeners := new Listener[MAX_LISTENERS](_ => NO_LISTENER);
      receivers := new Receiver[MAX_LISTENERS](_ => Empty);
      listenerCount, receiverCount, nextListenerId := 0, 0, 1;
      totalDispatched, totalDropped, initialized, dispatching := 0, 0, true, false;
      posted, delivered, cleared := 0, 0, 0;
      new;
      UsedNone(listeners[..]);
      RegisteredAll(receivers[..]);
    }

    /** EventManager::postEvent */
    method PostEvent(e: Event) returns (ok: bool)
      requires Sound()
      modifies this`totalDropped, this`posted, mainQueue`tail, mainQueue`count, mainQueue.events,
        immediateQueue, immediateQueue.events
      ensures Sound() && State() == (if initialized then Post(old(State()), e) else old(State()))
      ensures posted == old(posted) + if initialized then 1 else 0
      ensures old(Valid()) ==> Valid()
      ensures ok <==> initialized && State().dropped == old(State().dropped)
      ensures totalDropped == old(totalDropped) + if initialized && !ok then 1 else 0
      ensures ok == (initialized && if e.priority == IMMEDIATE then |old(immediateQueue.Contents())| < 16
                                    else |old(mainQueue.Contents())| < 256)
      ensures mainQueue.Contents() ==
        if ok && e.priority != IMMEDIATE then Insert(old(mainQueue.Contents()), e) else old(mainQueue.Contents())
      ensures immediateQueue.Contents() ==
        if ok && e.priority == IMMEDIATE then old(immediateQueue.Contents()) + [e] else old(immediateQueue.Contents())
    {
      hide Insert, EventQueue.Queue.Contents, EventQueue.ImmediateQueue.Contents, InPlace;
      if !initialized { return false; }
      ghost var before := State();
      if InPlace(before) { PostKeeps(before, e); }
      posted := posted + 1;
      if e.priority == IMMEDIATE {
        ok := immediateQueue.Push(e);
      } else {
        ok := mainQueue.Push(e);
      }
      if !ok { totalDropped := totalDropped + 1; }
    }

    /** EventManager::dispatchEvent, for handlers that answer as `handles` says. */
    method DispatchEvent(e: Event, handles: (Target, Event) -> bool) returns (called: seq<Target>)
      requires listeners.Length == MAX_LISTENERS && receivers.Length == MAX_LISTENERS
      modifies this`totalDispatched
      ensures totalDispatched == old(totalDispatched) + 1
      ensures Delivered(called, Targets(listeners[..], receivers[..], e), e, handles)
    {
      hide ListenerTargets, ReceiverTargets, Hears, Receives;
      totalDispatched := totalDispatched + 1;
      called := [];
      var i := 0;
      ListenerStart(e);
      while i < MAX_LISTENERS
        invariant 0 <= i <= MAX_LISTENERS && totalDispatched == old(totalDispatched) + 1
        invariant called == ListenerTargets(listeners[..i], e)
        invariant forall k :: 0 <= k < |called| ==> !handles(called[k], e)
      {
        ListenerPrefix(listeners[..], i, e);
        ListenerPrefix(listeners[..], i + 1, e);
        assert listeners[..][..i] == listeners[..i] && listeners[..][..i + 1] == listeners[..i + 1];
        var l := listeners[i];
        HeardIs(l, receivers[0], e);
        if Hears(l, e) {
          called := called + [ToListener(l.handler.number)];
          if handles(ToListener(l.handler.number), e) { return; }
        }
        i := i + 1;
      }
      assert listeners[..i] == listeners[..];
      ghost var fromListeners := called;
      i := 0;
      while i < MAX_LISTENERS
        invariant 0 <= i <= MAX_LISTENERS && totalDispatched == old(totalDispatched) + 1
        invariant called == fromListeners + ReceiverTargets(receivers[..i], e)
        invariant forall k :: 0 <= k < |called| ==> !handles(called[k], e)
      {
        ReceiverPrefix(receivers[..], i, e);
        ReceiverPrefix(receivers[..], i + 1, e);
        assert receivers[..][..i] == receivers[..i] && receivers[..][..i + 1] == receivers[..i + 1];
        var r := receivers[i];
        HeardIs(listeners[0], r, e);
        if Receives(r, e) {
          called := called + [ToReceiver(r.number)];
          if handles(ToReceiver(r.number), e) { return; }
        }
        i := i + 1;
      }
      assert receivers[..i] == receivers[..];
    }

    static lemma HeardIs(l: Listener, r: Receiver, e: Event)
      ensures Hears(l, e) ==> l.handler.Handler?
      ensures Receives(r, e) ==> r.Receiver?
    {}

    static lemma ListenerStart(e: Event)
      ensures ListenerTargets([], e) == [] && ReceiverTargets([], e) == []
    {}

    /** Dispatches one event while the handlers post `posts`. */
    method DispatchAndPost(e: Event, handles: (Target, Event) -> bool, posts: seq<Event>) returns (called: seq<Target>)
      requires Sound() && initialized
      modifies this`totalDispatched, this`totalDropped, this`posted, mainQueue`tail, mainQueue`count, mainQueue.events,
        immediateQueue, immediateQueue.events
      ensures Sound() && State() == PostAll(old(State()), posts)
      ensures totalDispatched == old(totalDispatched) + 1 && posted == old(posted) + |posts|
      ensures Delivered(called, Targets(listeners[..], receivers[..], e), e, handles)
    {
      hide EventQueue.Queue.Contents, EventQueue.ImmediateQueue.Contents, InPlace, Post, PostAll, Delivered, Targets;
      hide EventQueue.Queue.Ring, EventQueue.ImmediateQueue.Ring;
      called := DispatchEvent(e, handles);
      ghost var start := State();
      PostNothing(start);
      var i := 0;
      while i < |posts|
        invariant 0 <= i <= |posts| && Sound() && State() == PostAll(start, posts[..i])
        invariant totalDispatched == old(totalDispatched) + 1 && posted == old(posted) + i
      {
        PostAllAppend(start, posts[..i], posts[i]);
        assert posts[..i] + [posts[i]] == posts[..i + 1];
        var _ := PostEvent(posts[i]);
        i := i + 1;
      }
      assert posts[..i] == posts;
    }

    static lemma PostNothing(q: Queues)
      ensures PostAll(q, []) == q
    {}

    /** The first loop of processEvents. */
    method ProcessImmediate(answers: Answers, script: Script)
      returns (rest: Script, log: seq<Event>, calls: seq<seq<Target>>)
      requires Sound() && initialized
      modifies this`totalDispatched, this`totalDropped, this`posted, mainQueue`tail, mainQueue`count, mainQueue.events,
        immediateQueue, immediateQueue.events
      ensures Sound() && Run(State(), rest, log) == DrainImmediate(old(State()), script)
      ensures totalDispatched == old(totalDispatched) + |log|
      ensures posted + Posts(rest) == old(posted) + Posts(script)
      ensures AllDelivered(log, calls, listeners[..], receivers[..], answers, 0)
    {
      hide EventQueue.Queue.Contents, EventQueue.ImmediateQueue.Contents, Posts, PostAll, Delivered, Targets, AfterMain;
      hide EventQueue.Queue.Ring, EventQueue.ImmediateQueue.Ring, Now, Later, Prepend, DrainImmediate, DrainMain, AllDelivered, AnswersAt;
      NoneDelivered(listeners[..], receivers[..], answers, 0);
      rest, log, calls := script, [], [];
      PrependNothing(DrainImmediate(State(), script));
      ghost var goal := DrainImmediate(State(), script);
      while true
        invariant Sound() && totalDispatched == old(totalDispatched) + |log|
        invariant posted + Posts(rest) == old(posted) + Posts(script)
        invariant goal == Prepend(log, DrainImmediate(State(), rest))
        invariant AllDelivered(log, calls, listeners[..], receivers[..], answers, 0)
        decreases |State().immediate| + Posts(rest)
      {
        ghost var q := State();
        var r := immediateQueue.Pop();
        if !r.0 {
          NoneLeft(q, rest, log, 0, 0);
          return;
        }
        StepSizes(q, rest);
        PostsStep(rest);
        assert State() == q.(immediate := q.immediate[1..]);
        var called := DispatchAndPost(r.1, AnswersAt(answers, |log|), Now(rest));
        DeliveredNext(log, calls, listeners[..], receivers[..], answers, 0, r.1, called);
        assert State() == AfterImmediate(q, rest);
        ImmediateStep(q, rest, log);
        rest, log, calls := Later(rest), log + [r.1], calls + [called];
      }
    }

    static ghost function Prepend(log: seq<Event>, r: Run): Run { r.(log := log + r.log) }

    static lemma PrependNothing(r: Run)
      ensures Prepend([], r) == r
    {
      assert [] + r.log == r.log;
    }

    static lemma NoneLeft(q: Queues, rest: Script, log: seq<Event>, maxEvents: nat, done: nat)
      ensures q.immediate == [] ==> Prepend(log, DrainImmediate(q, rest)) == Run(q, rest, log)
      ensures q.main == [] ==> Prepend(log, DrainMain(q, rest, maxEvents, done)) == Run(q, rest, log)
    {
      assert log + [] == log;
    }

    static lemma ImmediateStep(q: Queues, script: Script, log: seq<Event>)
      requires q.immediate != []
      ensures Prepend(log, DrainImmediate(q, script))
           == Prepend(log + [q.immediate[0]], DrainImmediate(AfterImmediate(q, script), Later(script)))
    {
      hide AfterImmediate, AfterMain;
      var r := DrainImmediate(AfterImmediate(q, script), Later(script));
      assert log + ([q.immediate[0]] + r.log) == log + [q.immediate[0]] + r.log;
    }

    /** The second loop of processEvents, after `done` events. */
    method ProcessMain(answers: Answers, script: Script, maxEvents: nat, done: nat)
      returns (rest: Script, log: seq<Event>, calls: seq<seq<Target>>)
      requires Sound() && initialized
      modifies this`totalDispatched, this`totalDropped, this`posted, mainQueue`head, mainQueue`tail, mainQueue`count,
        mainQueue.events, immediateQueue, immediateQueue.events
      ensures Sound() && Run(State(), rest, log) == DrainMain(old(State()), script, maxEvents, done)
      ensures totalDispatched == old(totalDispatched) + |log|
      ensures posted + Posts(rest) == old(posted) + Posts(script)
      ensures AllDelivered(log, calls, listeners[..], receivers[..], answers, done)
    {
      hide EventQueue.Queue.Contents, EventQueue.ImmediateQueue.Contents, Posts, PostAll, Delivered, Targets, AfterImmediate;
      hide EventQueue.Queue.Ring, EventQueue.ImmediateQueue.Ring, Now, Later, Prepend, DrainImmediate, DrainMain, AllDelivered, AnswersAt;
      NoneDelivered(listeners[..], receivers[..], answers, done);
      rest, log, calls := script, [], [];
      PrependNothing(DrainMain(State(), script, maxEvents, done));
      ghost var goal := DrainMain(State(), script, maxEvents, done);
      while true
        invariant Sound() && totalDispatched == old(totalDispatched) + |log|
        invariant posted + Posts(rest) == old(posted) + Posts(script)
        invariant goal == Prepend(log, DrainMain(State(), rest, maxEvents, done + |log|))
        invariant AllDelivered(log, calls, listeners[..], receivers[..], answers, done)
        decreases |State().main| + Posts(rest)
      {
        ghost var q := State();
        var r := mainQueue.Pop();
        if !r.0 {
          NoneLeft(q, rest, log, maxEvents, done + |log|);
          return;
        }
        StepSizes(q, rest);
        PostsStep(rest);
        assert State() == q.(main := q.main[1..]);
        var called := DispatchAndPost(r.1, AnswersAt(answers, done + |log|), Now(rest));
        DeliveredNext(log, calls, listeners[..], receivers[..], answers, done, r.1, called);
        assert State() == AfterMain(q, rest);
        MainStep(q, rest, log, maxEvents, done + |log|);
        rest, log, calls := Later(rest), log + [r.1], calls + [called];
        if maxEvents > 0 && done + |log| >= maxEvents { return; }
      }
    }

    static lemma MainStep(q: Queues, script: Script, log: seq<Event>, maxEvents: nat, done: nat)
      requires q.main != []
      ensures Prepend(log, DrainMain(q, script, maxEvents, done))
           == if maxEvents > 0 && done + 1 >= maxEvents then Run(AfterMain(q, script), Later(script), log + [q.main[0]])
              else Prepend(log + [q.main[0]], DrainMain(AfterMain(q, script), Later(script), maxEvents, done + 1))
    {
      hide AfterImmediate, AfterMain;
      var r := DrainMain(AfterMain(q, script), Later(script), maxEvents, done + 1);
      assert log + ([q.main[0]] + r.log) == log + [q.main[0]] + r.log;
    }

    /** EventManager::processEvents: nothing when called from a handler, otherwise one run
        over both queues. `script` is what the handlers post meanwhile. */
    method ProcessEvents(maxEvents: nat, answers: Answers, script: Script)
      returns (processed: nat, log: seq<Event>, calls: seq<seq<Target>>, rest: Script)
      requires Valid()
      modifies this`totalDispatched, this`totalDropped, this`posted, this`delivered, this`dispatching,
        mainQueue`head, mainQueue`tail, mainQueue`count, mainQueue.events, immediateQueue, immediateQueue.events
      ensures Valid() && dispatching == old(dispatching) && processed == |log|
      ensures !initialized || dispatching ==> log == [] && rest == script && State() == old(State())
      ensures initialized && !dispatching ==> Run(State(), rest, log) == Process(old(State()), script, maxEvents)
      ensures delivered == old(delivered) + |log| && totalDispatched == old(totalDispatched) + |log|
      ensures posted + Posts(rest) == old(posted) + Posts(script)
      ensures AllDelivered(log, calls, listeners[..], receivers[..], answers, 0)
    {
      hide EventQueue.Queue.Contents, EventQueue.ImmediateQueue.Contents, Posts, PostAll, Delivered, Targets;
      hide EventQueue.Queue.Ring, EventQueue.ImmediateQueue.Ring, DrainImmediate, DrainMain, InPlace, Weight;
      log, calls, processed, rest := [], [], 0, script;
      if !initialized || dispatching { return; }
      dispatching := true;
      ProcessKeeps(State(), script, maxEvents);
      rest, log, calls := ProcessImmediate(answers, script);
      var rest2, log2, calls2 := ProcessMain(answers, rest, maxEvents, |log|);
      DeliveredJoin(log, calls, log2, calls2, listeners[..], receivers[..], answers);
      rest, log, calls := rest2, log + log2, calls + calls2;
      processed := |log|;
      delivered := delivered + processed;
      dispatching := false;
    }

    /** EventManager::clearEvents */
    method ClearEvents()
      requires Valid()
      modifies this`cleared, mainQueue`head, mainQueue`tail, mainQueue`count,
        immediateQueue`head, immediateQueue`tail, immediateQueue`count
      ensures Valid() && State() == Queues([], [], totalDropped)
      ensures cleared == old(cleared) + |old(mainQueue.Contents())| + |old(immediateQueue.Contents())|
    {
      cleared := cleared + mainQueue.count + immediateQueue.count;
      mainQueue.Clear();
      immediateQueue.Clear();
    }

    /** EventManager::clearEventsOfType: the manager stays consistent exactly when fewer
        than 256 events survive in the main queue. */
    method ClearEventsOfType(kind: nat)
      requires Valid()
      modifies this`cleared, mainQueue`head, mainQueue`tail, mainQueue`count, mainQueue.events
      ensures mainQueue.events.Length == EventQueue.MAX && mainQueue.count <= EventQueue.MAX
      ensures mainQueue.Contents() == Filter(old(mainQueue.Contents()), (e: Event) => e.kind != kind)
      ensures Valid() <==> |mainQueue.Contents()| < EventQueue.MAX
    {
      hide EventQueue.Queue.Contents, EventQueue.ImmediateQueue.Contents, Filter, Ordered, EventQueue.At;
      FilterKeepsOrder(mainQueue.Contents(), (e: Event) => e.kind != kind);
      ghost var before := mainQueue.count;
      mainQueue.ClearType(kind);
      cleared := cleared + (before - mainQueue.count);
    }

    /** EventManager::pendingEventCount counts the immediate queue as one event at most. */
    method PendingEventCount() returns (n: nat)
      requires Valid()
      ensures n == |mainQueue.Contents()| + (if immediateQueue.Contents() == [] then 0 else 1)
      ensures n == |mainQueue.Contents()| + |immediateQueue.Contents()| <==> |immediateQueue.Contents()| <= 1
    {
      n := mainQueue.count + (if immediateQueue.count == 0 then 0 else 1);
    }

    /** EventManager::addListener: the first free slot gets a new id; refused exactly when
        no slot is free. */
    method AddListener(listener: Listener) returns (id: nat)
      requires Table() && nextListenerId < IDS
      modifies this`listenerCount, this`nextListenerId, listeners
      ensures Table()
      ensures id == 0 <==> !initialized || (forall i :: 0 <= i < MAX_LISTENERS ==> !Free(old(listeners[i])))
      ensures id == 0 || id == old(nextListenerId)
      ensures id == 0 ==> listeners[..] == old(listeners[..])
      ensures id != 0 ==> exists i :: 0 <= i < MAX_LISTENERS && Free(old(listeners[i]))
                                      && (forall j :: 0 <= j < i ==> !Free(old(listeners[j])))
                                      && listeners[..] == old(listeners[..])[i := listener.(id := id)]
      ensures id != 0 ==> forall j :: 0 <= j < MAX_LISTENERS ==> old(listeners[j]).id != id
    {
      hide Used;
      id := 0;
      ghost var before := listeners[..];
      if forall i :: 0 <= i < MAX_LISTENERS ==> !Free(before[i]) { UsedAll(before); }
      if !initialized || listenerCount >= MAX_LISTENERS {
        if initialized { FreeMeansRoom(before); }
        return;
      }
      var i := 0;
      while i < MAX_LISTENERS
        invariant 0 <= i <= MAX_LISTENERS && listeners[..] == before
        invariant forall j :: 0 <= j < i ==> !Free(before[j])
      {
        if listeners[i].id == 0 {
          id := nextListenerId;
          UsedUpdate(before, i, listener.(id := id));
          listeners[i] := listener.(id := id);
          nextListenerId := nextListenerId + 1;
          listenerCount := listenerCount + 1;
          assert listeners[..] == before[i := listener.(id := id)];
          return;
        }
        i := i + 1;
      }
    }

    static lemma FreeMeansRoom(ls: seq<Listener>)
      requires |ls| == MAX_LISTENERS && Used(ls) >= MAX_LISTENERS
      ensures forall i :: 0 <= i < MAX_LISTENERS ==> !Free(ls[i])
    {
      hide Used;
      forall i | 0 <= i < MAX_LISTENERS ensures !Free(ls[i]) {
        UsedUpdate(ls, i, ls[i].(id := 1));
      }
    }

    /** EventManager::addReceiver: the first empty slot; its number, with the top bit, is the
        id. Refused exactly without a receiver or an empty slot. */
    method AddReceiver(r: Receiver) returns (id: nat)
      requires ReceiverTable()
      modifies this`receiverCount, receivers
      ensures ReceiverTable()
      ensures id == 0 <==> !initialized || r.Empty? || (forall i :: 0 <= i < MAX_LISTENERS ==> !old(receivers[i]).Empty?)
      ensures id == 0 ==> receivers[..] == old(receivers[..])
      ensures id != 0 ==> RECEIVER_BIT <= id < RECEIVER_BIT + MAX_LISTENERS && var i := id - RECEIVER_BIT;
        && old(receivers[i]).Empty? && (forall j :: 0 <= j < i ==> !old(receivers[j]).Empty?)
        && receivers[..] == old(receivers[..])[i := r]
    {
      hide Registered;
      ghost var before := receivers[..];
      RegisteredAll(before);
      id := 0;
      if !initialized || r.Empty? || receiverCount >= MAX_LISTENERS { return; }
      var i := 0;
      while i < MAX_LISTENERS
        invariant 0 <= i <= MAX_LISTENERS && receivers[..] == before && receiverCount == old(receiverCount)
        invariant forall j :: 0 <= j < i ==> !before[j].Empty?
      {
        if receivers[i].Empty? {
          RegisteredUpdate(before, i, r);
          receivers[i] := r;
          receiverCount := receiverCount + 1;
          assert receivers[..] == before[i := r];
          return RECEIVER_BIT + i;
        }
        i := i + 1;
      }
    }

    /** EventManager::removeListener. An id with the top bit is taken for the slot of a
        receiver; any other frees the listener slot with that id. No other slot changes. */
    method RemoveListener(id: nat)
      requires Table() && ReceiverTable() && id < IDS
      modifies this`listenerCount, this`receiverCount, listeners, receivers
      ensures Table() && ReceiverTable()
      ensures id == 0 || id >= RECEIVER_BIT ==> listeners[..] == old(listeners[..])
      ensures id < RECEIVER_BIT ==> receivers[..] == old(receivers[..])
      ensures 0 < id < RECEIVER_BIT ==> forall i :: 0 <= i < MAX_LISTENERS ==>
                listeners[i] == if old(listeners[i]).id == id then NO_LISTENER else old(listeners[i])
      ensures id >= RECEIVER_BIT ==> forall i :: 0 <= i < MAX_LISTENERS ==>
                receivers[i] == if id == RECEIVER_BIT + i then Empty else old(receivers[i])
    {
      hide Used, Registered;
      if id == 0 { return; }
      if id >= RECEIVER_BIT {
        var index := id - RECEIVER_BIT;
        if index < MAX_LISTENERS && !receivers[index].Empty? {
          RegisteredUpdate(receivers[..], index, Empty);
          RegisteredAll(receivers[..][index := Empty]);
          ghost var was := receivers[..];
          receivers[index] := Empty;
          assert receivers[..] == was[index := Empty];
          receiverCount := receiverCount - 1;
        }
        return;
      }
      RemoveFunction(id);
    }

    /** The second half of removeListener, for a function listener. */
    method RemoveFunction(id: nat)
      requires Table() && 0 < id
      modifies this`listenerCount, listeners
      ensures Table()
      ensures forall i :: 0 <= i < MAX_LISTENERS ==>
                listeners[i] == if old(listeners[i]).id == id then NO_LISTENER else old(listeners[i])
    {
      hide Used;
      ghost var before := listeners[..];
      var i := 0;
      while i < MAX_LISTENERS
        invariant 0 <= i <= MAX_LISTENERS && listeners[..] == before && listenerCount == old(listenerCount)
        invariant forall j :: 0 <= j < i ==> before[j].id != id
      {
        if listeners[i].id == id {
          UsedUpdate(before, i, NO_LISTENER);
          listeners[i] := NO_LISTENER;
          listenerCount := listenerCount - 1;
          assert listeners[..] == before[i := NO_LISTENER];
          return;
        }
        i := i + 1;
      }
    }

    /** Adding a receiver and removing it again leaves the table as it was. */
    method AddThenRemoveReceiver(r: Receiver) returns (id: nat)
      requires Table() && ReceiverTable()
      modifies this`listenerCount, this`receiverCount, listeners, receivers
      ensures Table() && ReceiverTable()
      ensures receivers[..] == old(receivers[..]) && listeners[..] == old(listeners[..])
    {
      hide Used, Registered;
      id := AddReceiver(r);
      ghost var added := receivers[..];
      RemoveListener(id);
      assert receivers[..] == old(receivers[..]);
    }

    /** Adding a listener and removing it again leaves who hears what unchanged, as long as
        its id has no top bit; a later id is taken for a receiver's, and the listener stays. */
    method AddThenRemove(listener: Listener, e: Event) returns (id: nat)
      requires Table() && ReceiverTable() && nextListenerId < IDS && initialized
      requires exists i :: 0 <= i < MAX_LISTENERS && Free(listeners[i])
      modifies this`listenerCount, this`receiverCount, this`nextListenerId, listeners, receivers
      ensures Table() && ReceiverTable() && id == old(nextListenerId)
      ensures id < RECEIVER_BIT ==> ListenerTargets(listeners[..], e) == old(ListenerTargets(listeners[..], e))
      ensures listenerCount == old(listenerCount) <==> id < RECEIVER_BIT
      ensures id < RECEIVER_BIT ==> receivers[..] == old(receivers[..])
      ensures id >= RECEIVER_BIT ==> exists i :: 0 <= i < MAX_LISTENERS && listeners[i] == listener.(id := id)
    {
      hide Used, ListenerTargets, Registered;
      ghost var before := listeners[..];
      id := AddListener(listener);
      ghost var added := listeners[..];
      ghost var i :| 0 <= i < MAX_LISTENERS && Free(before[i]) && added == before[i := listener.(id := id)];
      UsedUpdate(before, i, listener.(id := id));
      RemoveListener(id);
      if id < RECEIVER_BIT {
        assert listeners[..] == before[i := NO_LISTENER];
        UsedUpdate(before, i, NO_LISTENER);
        FreeSlotSilent(before, i, e);
      } else {
        assert listeners[i] == added[i];
      }
    }

    static lemma {:induction false} FreeSlotSilent(ls: seq<Listener>, i: nat, e: Event)
      requires i < |ls| && Free(ls[i])
      ensures ListenerTargets(ls[i := NO_LISTENER], e) == ListenerTargets(ls, e)
    {
      var n := |ls| - 1;
      if i == n {
        assert ls[i := NO_LISTENER][..n] == ls[..n];
      } else {
        FreeSlotSilent(ls[..n], i, e);
        assert ls[i := NO_LISTENER][..n] == ls[..n][i := NO_LISTENER];
      }
    }
  }
}
