/** One call of processEvents as a run over the two queues, with handlers that may post. */
module EventRuns {
  import opened Events
  import opened EventQueue

  /** What the manager holds: both queues, and how many posts it refused. */
  datatype Queues = Queues(immediate: seq<Event>, main: seq<Event>, dropped: nat)

  /** Every event the manager has accepted or refused and not yet handed out. */
  function Weight(q: Queues): nat { |q.immediate| + |q.main| + q.dropped }

  /** Immediate events wait in their own queue; the main queue is in order. */
  ghost predicate InPlace(q: Queues) {
    && (forall e :: e in q.immediate ==> e.priority == IMMEDIATE)
    && (forall e :: e in q.main ==> e.priority != IMMEDIATE)
    && Ordered(q.main)
  }

  /** postEvent */
  function Post(q: Queues, e: Event): Queues {
    if e.priority == IMMEDIATE then
      if |q.immediate| < IMMEDIATE_MAX then q.(immediate := q.immediate + [e]) else q.(dropped := q.dropped + 1)
    else
      if |q.main| < MAX then q.(main := Insert(q.main, e)) else q.(dropped := q.dropped + 1)
  }

  lemma PostKeeps(q: Queues, e: Event)
    requires InPlace(q)
    ensures InPlace(Post(q, e)) && Weight(Post(q, e)) == Weight(q) + 1
  {
    InsertKeepsOrder(q.main, e);
  }

  function PostAll(q: Queues, es: seq<Event>): Queues
    decreases |es|
  {
    if es == [] then q else PostAll(Post(q, es[0]), es[1..])
  }

  lemma {:induction false} PostAllKeeps(q: Queues, es: seq<Event>)
    requires InPlace(q)
    ensures InPlace(PostAll(q, es)) && Weight(PostAll(q, es)) == Weight(q) + |es|
    decreases |es|
  {
    if es != [] {
      PostKeeps(q, es[0]);
      PostAllKeeps(Post(q, es[0]), es[1..]);
    }
  }

  lemma {:induction false} PostAllSizes(q: Queues, es: seq<Event>)
    ensures |PostAll(q, es).immediate| <= |q.immediate| + |es|
    ensures |PostAll(q, es).main| <= |q.main| + |es|
    decreases |es|
  {
    if es != [] {
      assert |Insert(q.main, es[0])| == |q.main| + 1;
      PostAllSizes(Post(q, es[0]), es[1..]);
    }
  }

  lemma {:induction false} PostAllAppend(q: Queues, es: seq<Event>, e: Event)
    ensures PostAll(q, es + [e]) == Post(PostAll(q, es), e)
    decreases |es|
  {
    if es == [] {
      assert (es + [e])[1..] == [];
    } else {
      assert (es + [e])[1..] == es[1..] + [e];
      PostAllAppend(Post(q, es[0]), es[1..], e);
    }
  }

  // ----- handlers that post -----

  /** What the handlers will post, dispatch by dispatch; nothing once the script is over. */
  type Script = seq<seq<Event>>

  function Now(s: Script): seq<Event> { if s == [] then [] else s[0] }
  function Later(s: Script): Script { if s == [] then [] else s[1..] }

  function Posts(s: Script): nat { if s == [] then 0 else |s[0]| + Posts(s[1..]) }

  lemma PostsStep(s: Script)
    ensures Posts(s) == |Now(s)| + Posts(Later(s))
  {}

  datatype Run = Run(after: Queues, rest: Script, log: seq<Event>)

  /** The queues once the first immediate event was handled. */
  function AfterImmediate(q: Queues, script: Script): (r: Queues)
    requires q.immediate != []
  {
    PostAll(q.(immediate := q.immediate[1..]), Now(script))
  }

  function AfterMain(q: Queues, script: Script): (r: Queues)
    requires q.main != []
  {
    PostAll(q.(main := q.main[1..]), Now(script))
  }

  lemma StepSizes(q: Queues, script: Script)
    ensures q.immediate != [] ==> |AfterImmediate(q, script).immediate| + Posts(Later(script)) < |q.immediate| + Posts(script)
    ensures q.main != [] ==> |AfterMain(q, script).main| + Posts(Later(script)) < |q.main| + Posts(script)
  {
    hide PostAll;
    PostsStep(script);
    if q.immediate != [] { PostAllSizes(q.(immediate := q.immediate[1..]), Now(script)); }
    if q.main != [] { PostAllSizes(q.(main := q.main[1..]), Now(script)); }
  }

  lemma StepKeeps(q: Queues, script: Script)
    requires InPlace(q)
    ensures q.immediate != [] ==>
              && InPlace(AfterImmediate(q, script)) && q.immediate[0].priority == IMMEDIATE
              && Weight(AfterImmediate(q, script)) + 1 == Weight(q) + |Now(script)|
    ensures q.main != [] ==>
              && InPlace(AfterMain(q, script)) && q.main[0].priority != IMMEDIATE
              && Weight(AfterMain(q, script)) + 1 == Weight(q) + |Now(script)|
  {
    hide PostAll;
    if q.immediate != [] { PostAllKeeps(q.(immediate := q.immediate[1..]), Now(script)); }
    if q.main != [] {
      HeadIsHighest(q.main);
      PostAllKeeps(q.(main := q.main[1..]), Now(script));
    }
  }

  /** The first loop of processEvents: immediate events, including those that handlers post
      meanwhile. */
  function DrainImmediate(q: Queues, script: Script): Run
    decreases |q.immediate| + Posts(script)
  {
    if q.immediate == [] then Run(q, script, [])
    else
      StepSizes(q, script);
      var r := DrainImmediate(AfterImmediate(q, script), Later(script));
      r.(log := [q.immediate[0]] + r.log)
  }

  /** The second loop: main events until the queue is empty or the limit is reached; the
      limit is looked at only after an event was handled. */
  function DrainMain(q: Queues, script: Script, maxEvents: nat, processed: nat): Run
    decreases |q.main| + Posts(script)
  {
    if q.main == [] then Run(q, script, [])
    else
      StepSizes(q, script);
      var q2 := AfterMain(q, script);
      if maxEvents > 0 && processed + 1 >= maxEvents then Run(q2, Later(script), [q.main[0]])
      else
        var r := DrainMain(q2, Later(script), maxEvents, processed + 1);
        r.(log := [q.main[0]] + r.log)
  }

  function Process(q: Queues, script: Script, maxEvents: nat): Run {
    var a := DrainImmediate(q, script);
    var b := DrainMain(a.after, a.rest, maxEvents, |a.log|);
    b.(log := a.log + b.log)
  }

  lemma {:induction false} DrainImmediateKeeps(q: Queues, script: Script)
    requires InPlace(q)
    ensures var r := DrainImmediate(q, script);
      && InPlace(r.after) && r.after.immediate == [] && (forall e :: e in r.log ==> e.priority == IMMEDIATE)
      && Weight(r.after) + |r.log| + Posts(r.rest) == Weight(q) + Posts(script)
    decreases |q.immediate| + Posts(script)
  {
    hide AfterImmediate, AfterMain, Posts;
    if q.immediate != [] {
      StepSizes(q, script);
      StepKeeps(q, script);
      PostsStep(script);
      DrainImmediateKeeps(AfterImmediate(q, script), Later(script));
    }
  }

  lemma {:induction false} DrainMainKeeps(q: Queues, script: Script, maxEvents: nat, processed: nat)
    requires InPlace(q)
    ensures var r := DrainMain(q, script, maxEvents, processed);
      && InPlace(r.after) && (forall e :: e in r.log ==> e.priority != IMMEDIATE)
      && Weight(r.after) + |r.log| + Posts(r.rest) == Weight(q) + Posts(script)
      && (q.main != [] ==> r.log != [] && r.log[0] == q.main[0])
      && (maxEvents > 0 && r.log != [] ==> |r.log| == 1 || processed + |r.log| <= maxEvents)
      && (r.after.main == [] || (maxEvents > 0 && processed + |r.log| >= maxEvents))
    decreases |q.main| + Posts(script)
  {
    hide AfterImmediate, AfterMain, Posts;
    if q.main != [] {
      StepSizes(q, script);
      StepKeeps(q, script);
      PostsStep(script);
      var q2 := AfterMain(q, script);
      if !(maxEvents > 0 && processed + 1 >= maxEvents) {
        DrainMainKeeps(q2, Later(script), maxEvents, processed + 1);
      }
    }
  }

  /** Over every run and whatever the handlers post: the events handled are immediates
      first and main events after them, and each post is handled, waiting or dropped. */
  lemma ProcessKeeps(q: Queues, script: Script, maxEvents: nat)
    requires InPlace(q)
    ensures var r := Process(q, script, maxEvents);
      && InPlace(r.after)
      && (forall i, j :: 0 <= i < j < |r.log| && r.log[j].priority == IMMEDIATE ==> r.log[i].priority == IMMEDIATE)
      && Weight(r.after) + |r.log| + Posts(r.rest) == Weight(q) + Posts(script)
      && (r.after.main == [] || (maxEvents > 0 && |r.log| >= maxEvents))
  {
    hide DrainImmediate, DrainMain;
    DrainImmediateKeeps(q, script);
    var a := DrainImmediate(q, script);
    DrainMainKeeps(a.after, a.rest, maxEvents, |a.log|);
  }

  /** An immediate event posted by the handler of a main event waits for the next call. */
  lemma ImmediateMayWait(a: Event, b: Event)
    requires a.priority != IMMEDIATE && b.priority == IMMEDIATE
    ensures Process(Queues([], [a], 0), [[b]], 0) == Run(Queues([b], [], 0), [], [a])
  {
    var q := Queues([], [a], 0);
    assert AfterMain(q, [[b]]) == Queues([b], [], 0) by {
      assert [b][1..] == [];
      assert PostAll(Queues([], [], 0), [b]) == PostAll(Post(Queues([], [], 0), b), []);
    }
    assert [a][1..] == [] && Later([[b]]) == [];
    assert DrainMain(Queues([b], [], 0), [], 0, 1) == Run(Queues([b], [], 0), [], []);
    assert DrainMain(q, [[b]], 0, 0) == Run(Queues([b], [], 0), [], [a]);
    assert DrainImmediate(q, [[b]]) == Run(q, [[b]], []);
  }

  // ----- handlers that post nothing -----

  function Min(a: nat, b: nat): nat { if a < b then a else b }
  function Max(a: nat, b: nat): nat { if a < b then b else a }

  /** How many main events one call then handles: at least one if any waits, even when the
      immediate events alone reached the limit. */
  function MainShare(maxEvents: nat, processed: nat, waiting: nat): (n: nat)
    ensures n <= waiting
  {
    if maxEvents == 0 then waiting else Min(waiting, Max(1, if maxEvents > processed then maxEvents - processed else 0))
  }

  lemma {:induction false} QuietImmediate(q: Queues)
    ensures DrainImmediate(q, []) == Run(q.(immediate := []), [], q.immediate)
    decreases |q.immediate|
  {
    if q.immediate != [] {
      var q2 := q.(immediate := q.immediate[1..]);
      assert AfterImmediate(q, []) == q2;
      QuietImmediate(q2);
      assert q.immediate == [q.immediate[0]] + q.immediate[1..];
    }
  }

  lemma {:induction false} QuietMain(q: Queues, maxEvents: nat, processed: nat)
    ensures var n := MainShare(maxEvents, processed, |q.main|);
      DrainMain(q, [], maxEvents, processed) == Run(q.(main := q.main[n..]), [], q.main[..n])
    decreases |q.main|
  {
    if q.main != [] {
      var q2 := q.(main := q.main[1..]);
      assert AfterMain(q, []) == q2;
      if maxEvents > 0 && processed + 1 >= maxEvents {
        assert q.main[..1] == [q.main[0]];
      } else {
        QuietMain(q2, maxEvents, processed + 1);
        var n := MainShare(maxEvents, processed, |q.main|);
        assert q.main[..n] == [q.main[0]] + q.main[1..][..n - 1];
        assert q.main[n..] == q.main[1..][n - 1..];
      }
    } else {
      assert q.main[0..] == q.main && q.main[..0] == [];
    }
  }

  lemma QuietRun(q: Queues, maxEvents: nat)
    ensures var n := MainShare(maxEvents, |q.immediate|, |q.main|);
      Process(q, [], maxEvents) == Run(Queues([], q.main[n..], q.dropped), [], q.immediate + q.main[..n])
  {
    hide DrainImmediate, DrainMain;
    QuietImmediate(q);
    QuietMain(q.(immediate := []), maxEvents, |q.immediate|);
  }
}
