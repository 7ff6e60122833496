/** Reference-counted message envelopes as a step system: clients and the event queue pass
    envelopes around, in any interleaving. */
module Envelopes {

  const REFS := 0x1_0000_0000

  type U32 = n: nat | n < 0x1_0000_0000

  /** One envelope in kernel memory. `live` and `destroyed` record whether it is still
      allocated and how often its payload was destroyed. */
  datatype Envelope = Envelope(topic: U32, correlationId: nat, payload: bool, refCount: nat, live: bool, destroyed: nat)

  /** makeEnvelope */
  function Made(topic: U32, correlationId: nat, payload: bool): Envelope {
    Envelope(topic, correlationId, payload, 1, true, 0)
  }

  /** retain, on a 32-bit counter */
  function Retained(e: Envelope): Envelope { e.(refCount := (e.refCount + 1) % REFS) }

  /** release: the last reference destroys the payload and frees the envelope */
  function Released(e: Envelope): Envelope {
    if e.refCount > 1 then e.(refCount := e.refCount - 1)
    else e.(refCount := 0, live := false, destroyed := e.destroyed + if e.payload then 1 else 0)
  }

  /** A bus event waiting in the event queue. */
  datatype Message = Message(envelope: nat, topic: U32, correlationId: nat)

  /** `held` are the references of clients, `handling` the envelope being delivered, and
      `lost` the queue references of events that never reached the bus. */
  datatype World = World(envelopes: map<nat, Envelope>, held: multiset<nat>, queue: seq<Message>,
                         handling: seq<Message>, lost: multiset<nat>)

  function Start(): World { World(map[], multiset{}, [], [], multiset{}) }

  datatype Step =
    | Make(envelope: nat, topic: U32, correlationId: nat, payload: bool)
    | Edit(envelope: nat, topic: U32, correlationId: nat)
    | Retain(envelope: nat)
    | Release(envelope: nat)
    | Publish(envelope: nat, accepted: bool)
    | Begin
    | End
    | Drop(index: nat)

  function Occurrences(q: seq<Message>, a: nat): nat {
    if q == [] then 0 else (if q[0].envelope == a then 1 else 0) + Occurrences(q[1..], a)
  }

  lemma {:induction false} OccurrencesAppend(q: seq<Message>, r: seq<Message>, a: nat)
    ensures Occurrences(q + r, a) == Occurrences(q, a) + Occurrences(r, a)
  {
    if q == [] {
      assert q + r == r;
    } else {
      assert (q + r)[1..] == q[1..] + r;
      OccurrencesAppend(q[1..], r, a);
    }
  }

  lemma OccurrencesOne(m: Message, a: nat)
    ensures Occurrences([m], a) == if m.envelope == a then 1 else 0
    ensures Occurrences([], a) == 0
  {
    assert [m][1..] == [];
  }

  lemma OccurrencesWithout(q: seq<Message>, i: nat, a: nat)
    requires i < |q|
    ensures Occurrences(q, a) == Occurrences(q[..i] + q[i + 1..], a) + if q[i].envelope == a then 1 else 0
  {
    hide Occurrences;
    assert q == q[..i] + ([q[i]] + q[i + 1..]);
    OccurrencesAppend(q[..i], [q[i]] + q[i + 1..], a);
    OccurrencesAppend([q[i]], q[i + 1..], a);
    OccurrencesAppend(q[..i], q[i + 1..], a);
    OccurrencesOne(q[i], a);
  }

  /** References that will still be released. */
  function Owed(w: World, a: nat): nat {
    w.held[a] + Occurrences(w.queue, a) + Occurrences(w.handling, a)
  }

  /** Whoever holds a reference may use the envelope, and so may the handlers it is being
      delivered to. */
  predicate Usable(w: World, a: nat) {
    a in w.envelopes && (w.held[a] > 0 || (w.handling != [] && w.handling[0].envelope == a))
  }

  /** Clients release only references they hold and stay below 2^32 references; the queue
      delivers one event at a time. */
  predicate Enabled(w: World, s: Step) {
    match s
    case Make(a, _, _, _) => a != 0 && (a in w.envelopes ==> !w.envelopes[a].live)
    case Edit(a, _, _) => a in w.envelopes && w.held[a] > 0 && (w.handling != [] ==> w.handling[0].envelope != a)
    case Retain(a) => Usable(w, a) && w.envelopes[a].refCount + 1 < REFS
    case Release(a) => a in w.envelopes && w.held[a] > 0
    case Publish(a, _) => Usable(w, a) && w.envelopes[a].refCount + 1 < REFS
    case Begin => w.queue != [] && w.handling == [] && w.queue[0].envelope in w.envelopes
    case End => w.handling != [] && w.handling[0].envelope in w.envelopes
    case Drop(i) => i < |w.queue|
  }

  function Next(w: World, s: Step): World
    requires Enabled(w, s)
  {
    match s
    case Make(a, topic, id, payload) =>
      w.(envelopes := w.envelopes[a := Made(topic, id, payload)], held := w.held[a := w.held[a] + 1])
    case Edit(a, topic, id) =>
      w.(envelopes := w.envelopes[a := w.envelopes[a].(topic := topic, correlationId := id)])
    case Retain(a) =>
      w.(envelopes := w.envelopes[a := Retained(w.envelopes[a])], held := w.held[a := w.held[a] + 1])
    case Release(a) =>
      w.(envelopes := w.envelopes[a := Released(w.envelopes[a])], held := w.held[a := w.held[a] - 1])
    case Publish(a, accepted) =>
      var e := w.envelopes[a];
      if e.topic == 0 then w
      else if accepted then
        w.(envelopes := w.envelopes[a := Retained(e)], queue := w.queue + [Message(a, e.topic, e.correlationId)])
      else
        w.(envelopes := w.envelopes[a := Released(Retained(e))])
    case Begin =>
      var m := w.queue[0];
      var e := w.envelopes[m.envelope];
      w.(envelopes := w.envelopes[m.envelope := e.(topic := m.topic, correlationId := m.correlationId)],
         queue := w.queue[1..], handling := [m])
    case End =>
      var a := w.handling[0].envelope;
      w.(envelopes := w.envelopes[a := Released(w.envelopes[a])], handling := [])
    case Drop(i) =>
      var a := w.queue[i].envelope;
      w.(queue := w.queue[..i] + w.queue[i + 1..], lost := w.lost[a := w.lost[a] + 1])
  }

  /** A live envelope counts exactly the references owed and those lost; a freed one is owed
      nothing and had its payload destroyed once. */
  ghost predicate Counted(w: World, a: nat) {
    if a in w.envelopes && w.envelopes[a].live then
      var e := w.envelopes[a];
      e.refCount == Owed(w, a) + w.lost[a] && 0 < e.refCount < REFS && e.destroyed == 0
    else
      && Owed(w, a) + w.lost[a] == 0
      && (a in w.envelopes ==> w.envelopes[a].destroyed == if w.envelopes[a].payload then 1 else 0)
  }

  ghost predicate Inv(w: World) {
    |w.handling| <= 1 && 0 !in w.envelopes && forall a :: Counted(w, a)
  }

  lemma StartKeeps()
    ensures Inv(Start())
  {}

  /** What each step does to the references owed for one envelope. */
  lemma OwedStep(w: World, s: Step, a: nat)
    requires Enabled(w, s) && |w.handling| <= 1
    ensures var n := Next(w, s);
      Owed(n, a) + n.lost[a] - Owed(w, a) - w.lost[a] ==
        match s
        case Make(b, _, _, _) => if a == b then 1 else 0
        case Retain(b) => if a == b then 1 else 0
        case Release(b) => if a == b then -1 else 0
        case Publish(b, accepted) => if a == b && accepted && w.envelopes[b].topic != 0 then 1 else 0
        case End => if a == w.handling[0].envelope then -1 else 0
        case _ => 0
  {
    hide Occurrences;
    match s {
      case Publish(b, accepted) =>
        var m := Message(b, w.envelopes[b].topic, w.envelopes[b].correlationId);
        OccurrencesAppend(w.queue, [m], a);
        OccurrencesOne(m, a);
      case Begin =>
        OccurrencesWithout(w.queue, 0, a);
        assert w.queue[..0] + w.queue[1..] == w.queue[1..];
        OccurrencesOne(w.queue[0], a);
      case End =>
        assert w.handling == [w.handling[0]];
        OccurrencesOne(w.handling[0], a);
      case Drop(i) => OccurrencesWithout(w.queue, i, a);
      case _ =>
    }
  }

  lemma {:induction false} OccurrencesPositive(q: seq<Message>, i: nat)
    requires i < |q|
    ensures Occurrences(q, q[i].envelope) > 0
  {
    if i > 0 { OccurrencesPositive(q[1..], i - 1); }
  }

  /** Nothing that is used, queued or being delivered has been freed. */
  lemma StillLive(w: World, a: nat)
    requires Inv(w) && (Owed(w, a) > 0 || w.lost[a] > 0)
    ensures a in w.envelopes && w.envelopes[a].live && w.envelopes[a].destroyed == 0
  {
    assert Counted(w, a);
  }

  /** The envelope a step touches. */
  function Touched(w: World, s: Step): nat
    requires Enabled(w, s)
  {
    match s
    case Make(a, _, _, _) => a
    case Edit(a, _, _) => a
    case Retain(a) => a
    case Release(a) => a
    case Publish(a, _) => a
    case Begin => w.queue[0].envelope
    case End => w.handling[0].envelope
    case Drop(i) => w.queue[i].envelope
  }

  /** No step reads or writes a freed envelope. */
  lemma TouchesLive(w: World, s: Step)
    requires Inv(w) && Enabled(w, s) && !s.Make?
    ensures var a := Touched(w, s); a in w.envelopes && w.envelopes[a].live && w.envelopes[a].refCount > 0
  {
    hide Occurrences;
    var a := Touched(w, s);
    if s.Begin? { OccurrencesPositive(w.queue, 0); }
    if s.Drop? { OccurrencesPositive(w.queue, s.index); }
    if w.handling != [] { OccurrencesPositive(w.handling, 0); }
    assert Owed(w, a) > 0;
    StillLive(w, a);
    assert Counted(w, a);
  }

  lemma StepKeeps(w: World, s: Step)
    requires Inv(w) && Enabled(w, s)
    ensures Inv(Next(w, s))
  {
    hide Owed;
    var n := Next(w, s);
    if !s.Make? { TouchesLive(w, s); }
    forall a ensures Counted(n, a) {
      OwedStep(w, s, a);
      assert Counted(w, a);
    }
  }

  // ----- runs -----

  ghost predicate IsRun(w: World, steps: seq<Step>)
    decreases |steps|
  {
    steps == [] || (Enabled(w, steps[0]) && IsRun(Next(w, steps[0]), steps[1..]))
  }

  ghost function After(w: World, steps: seq<Step>): World
    requires IsRun(w, steps)
    decreases |steps|
  {
    if steps == [] then w else After(Next(w, steps[0]), steps[1..])
  }

  lemma {:induction false} RunKeeps(w: World, steps: seq<Step>)
    requires Inv(w) && IsRun(w, steps)
    ensures Inv(After(w, steps))
    decreases |steps|
  {
    if steps != [] {
      StepKeeps(w, steps[0]);
      RunKeeps(Next(w, steps[0]), steps[1..]);
    }
  }

  /** The counter is at least what is owed, and equals it exactly if no queued event of this
      envelope was cleared or consumed before the bus saw it. */
  lemma RefCountExact(steps: seq<Step>, a: nat)
    requires IsRun(Start(), steps)
    requires a in After(Start(), steps).envelopes && After(Start(), steps).envelopes[a].live
    ensures var w := After(Start(), steps);
      w.envelopes[a].refCount >= Owed(w, a) && (w.envelopes[a].refCount == Owed(w, a) <==> w.lost[a] == 0)
  {
    StartKeeps();
    RunKeeps(Start(), steps);
    assert Counted(After(Start(), steps), a);
  }

  /** In every run: the payload is destroyed at most once and never while a reference is
      held, queued or being delivered; once nothing is owed and nothing was lost the
      envelope is gone and its payload was destroyed. */
  lemma PayloadLifetime(steps: seq<Step>, a: nat)
    requires IsRun(Start(), steps) && a in After(Start(), steps).envelopes
    ensures var w := After(Start(), steps); var e := w.envelopes[a];
      && e.destroyed <= 1
      && (Owed(w, a) > 0 ==> e.live && e.destroyed == 0)
      && (Owed(w, a) == 0 && w.lost[a] == 0 ==> !e.live && e.destroyed == if e.payload then 1 else 0)
      && (w.lost[a] > 0 ==> e.live && e.destroyed == 0)
  {
    StartKeeps();
    RunKeeps(Start(), steps);
    assert Counted(After(Start(), steps), a);
  }

  lemma {:induction false} NothingLost(w: World, steps: seq<Step>)
    requires IsRun(w, steps) && forall i :: 0 <= i < |steps| ==> !steps[i].Drop?
    ensures After(w, steps).lost == w.lost
    decreases |steps|
  {
    if steps != [] { NothingLost(Next(w, steps[0]), steps[1..]); }
  }

  /** A refused publish leaves everything as it was. */
  lemma RefusedPublish(w: World, a: nat)
    requires Inv(w) && Enabled(w, Publish(a, false))
    ensures Next(w, Publish(a, false)) == w
  {
    TouchesLive(w, Publish(a, false));
    var e := w.envelopes[a];
    assert Released(Retained(e)) == e;
    assert w.envelopes[a := e] == w.envelopes;
  }

  /** A freed envelope stays freed until its address is allocated again. */
  lemma {:induction false} FreedForGood(w: World, steps: seq<Step>, a: nat)
    requires Inv(w) && IsRun(w, steps) && a in w.envelopes && !w.envelopes[a].live
    requires forall i :: 0 <= i < |steps| ==> !(steps[i].Make? && steps[i].envelope == a)
    ensures After(w, steps).envelopes.Keys >= {a} && After(w, steps).envelopes[a] == w.envelopes[a]
    decreases |steps|
  {
    if steps != [] {
      if !steps[0].Make? { TouchesLive(w, steps[0]); }
      StepKeeps(w, steps[0]);
      FreedForGood(Next(w, steps[0]), steps[1..], a);
    }
  }

  lemma {:induction false} RunAppend(w: World, a: seq<Step>, b: seq<Step>)
    requires IsRun(w, a) && IsRun(After(w, a), b)
    ensures IsRun(w, a + b) && After(w, a + b) == After(After(w, a), b)
    decreases |a|
  {
    hide Enabled, Next;
    if a == [] {
      assert a + b == b;
    } else {
      assert (a + b)[1..] == a[1..] + b;
      RunAppend(Next(w, a[0]), a[1..], b);
    }
  }

  lemma OneStep(w: World, s: Step)
    requires Enabled(w, s)
    ensures IsRun(w, [s]) && After(w, [s]) == Next(w, s)
  {
    hide Enabled, Next;
    assert [s][1..] == [];
  }

  /** The envelopes of messages, each as often as it occurs. */
  function EnvelopesOf(q: seq<Message>): multiset<nat> {
    if q == [] then multiset{} else multiset{q[0].envelope} + EnvelopesOf(q[1..])
  }

  /** Dropping all messages behind the first `from`. */
  lemma {:induction false} DropAll(w: World, from: nat) returns (ran: seq<Step>)
    requires Inv(w) && from <= |w.queue|
    ensures IsRun(w, ran) && After(w, ran) == w.(queue := w.queue[..from], lost := w.lost + EnvelopesOf(w.queue[from..]))
    ensures Inv(After(w, ran)) && forall s :: s in ran ==> s.Drop?
    decreases |w.queue|
  {
    hide Inv;
    if from == |w.queue| {
      assert w.queue[..from] == w.queue && w.lost + multiset{} == w.lost;
      ran := [];
    } else {
      var n := Next(w, Drop(from));
      StepKeeps(w, Drop(from));
      assert n.queue[..from] == w.queue[..from] && n.queue[from..] == w.queue[from + 1..] == w.queue[from..][1..];
      assert n.lost == w.lost + multiset{w.queue[from].envelope};
      var more := DropAll(n, from);
      ran := [Drop(from)] + more;
      assert ran[1..] == more;
    }
  }

  // ----- order of delivery -----

  /** The message a step adds to the queue. */
  function Sent(w: World, s: Step): seq<Message>
    requires Enabled(w, s)
  {
    if s.Publish? && s.accepted && w.envelopes[s.envelope].topic != 0
    then [Message(s.envelope, w.envelopes[s.envelope].topic, w.envelopes[s.envelope].correlationId)]
    else []
  }

  /** The message a step hands to the bus. */
  function Begun(w: World, s: Step): seq<Message>
    requires Enabled(w, s)
  {
    if s.Begin? then [w.queue[0]] else []
  }

  lemma StepFifo(w: World, s: Step)
    requires Enabled(w, s) && !s.Drop?
    ensures w.queue + Sent(w, s) == Begun(w, s) + Next(w, s).queue
  {
    if s.Begin? { assert w.queue == [w.queue[0]] + w.queue[1..]; }
  }

  ghost function Accepted(w: World, steps: seq<Step>): seq<Message>
    requires IsRun(w, steps)
    decreases |steps|
  {
    if steps == [] then [] else Sent(w, steps[0]) + Accepted(Next(w, steps[0]), steps[1..])
  }

  ghost function Delivered(w: World, steps: seq<Step>): seq<Message>
    requires IsRun(w, steps)
    decreases |steps|
  {
    if steps == [] then [] else Begun(w, steps[0]) + Delivered(Next(w, steps[0]), steps[1..])
  }

  lemma Chained<T>(q0: seq<T>, sent: seq<T>, begun: seq<T>, q1: seq<T>, rest: seq<T>, out: seq<T>, end: seq<T>)
    requires q0 + sent == begun + q1 && q1 + rest == out + end
    ensures q0 + (sent + rest) == (begun + out) + end
  {
    assert q0 + (sent + rest) == (q0 + sent) + rest;
    assert (begun + q1) + rest == begun + (q1 + rest);
    assert begun + (out + end) == (begun + out) + end;
  }

  /** Messages are delivered in the order they were published, with the topic they were
      published under; those not delivered yet are waiting. */
  lemma {:induction false} FirstInFirstOut(w: World, steps: seq<Step>)
    requires IsRun(w, steps) && forall i :: 0 <= i < |steps| ==> !steps[i].Drop?
    ensures w.queue + Accepted(w, steps) == Delivered(w, steps) + After(w, steps).queue
    decreases |steps|
  {
    hide Enabled, Next, Sent, Begun;
    if steps != [] {
      var n := Next(w, steps[0]);
      FirstInFirstOut(n, steps[1..]);
      StepFifo(w, steps[0]);
      Chained(w.queue, Sent(w, steps[0]), Begun(w, steps[0]), n.queue,
              Accepted(n, steps[1..]), Delivered(n, steps[1..]), After(w, steps).queue);
    }
  }

  /** Why clients must stay below 2^32 references: one more wraps the counter to zero, and
      the next release frees an envelope that is still owed 2^32 - 1 references. */
  lemma WrappedCounter(e: Envelope)
    requires e.live && e.refCount == REFS - 1
    ensures Retained(e).refCount == 0 && !Released(Retained(e)).live
  {}
}
