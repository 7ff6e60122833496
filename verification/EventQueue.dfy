/** The circular event queues. */
module EventQueue {
  import opened Events

  const MAX := 256
  const IMMEDIATE_MAX := 16

  /** Array index of the k-th event behind head. */
  function At(head: nat, k: nat): (i: nat)
    ensures i < MAX
  {
    (head + k) % MAX
  }

  lemma AtDistinct(head: nat, j: nat, k: nat)
    requires j < MAX && k < MAX && j != k
    ensures At(head, j) != At(head, k)
  {}

  lemma AtBefore(head: nat, k: nat)
    requires k > 0 && head < MAX
    ensures At(head, k - 1) == if At(head, k) == 0 then MAX - 1 else At(head, k) - 1
    ensures At(head, k) == (At(head, k - 1) + 1) % MAX
    ensures At(head, 0) == head && At(head, MAX) == head
  {}

  /** All places of the ring, starting at head. */
  function Rotated(events: seq<Event>, head: nat): (v: seq<Event>)
    requires |events| == MAX
    ensures |v| == MAX
  {
    seq(MAX, k requires 0 <= k < MAX => events[At(head, k)])
  }

  lemma RotatedAt(events: seq<Event>, head: nat, k: nat, e: Event)
    requires |events| == MAX && k < MAX
    ensures Rotated(events, head)[k] == events[At(head, k)]
    ensures Rotated(events[At(head, k) := e], head) == Rotated(events, head)[k := e]
  {
    hide At;
    var l, r := Rotated(events[At(head, k) := e], head), Rotated(events, head)[k := e];
    forall j | 0 <= j < MAX ensures l[j] == r[j] {
      if j != k { AtDistinct(head, j, k); }
    }
  }

  lemma RotatedPop(events: seq<Event>, head: nat, count: nat)
    requires |events| == MAX && 0 < count <= MAX && head < MAX
    ensures Rotated(events, (head + 1) % MAX)[..count - 1] == Rotated(events, head)[1..count]
    ensures Rotated(events, head)[0] == events[head]
    ensures At((head + 1) % MAX, count - 1) == At(head, count)
  {
    var l, r := Rotated(events, (head + 1) % MAX)[..count - 1], Rotated(events, head)[1..count];
    forall j | 0 <= j < count - 1 ensures l[j] == r[j] {
      assert At((head + 1) % MAX, j) == At(head, j + 1);
    }
  }

  lemma RotatedZero(events: seq<Event>)
    requires |events| == MAX
    ensures Rotated(events, 0) == events
    ensures forall k :: 0 <= k < MAX ==> At(0, k) == k
    ensures At(0, MAX) == 0
  {}

  lemma FirstLowerIs(s: seq<Event>, priority: nat, i: nat)
    requires i <= |s| && (forall j :: 0 <= j < i ==> s[j].priority >= priority)
    requires i < |s| ==> s[i].priority < priority
    ensures FirstLower(s, priority) == i
  {}

  lemma InsertIs(s: seq<Event>, e: Event)
    ensures Insert(s, e) == if s == [] || e.priority <= NORMAL then s + [e]
                            else s[..FirstLower(s, e.priority)] + [e] + s[FirstLower(s, e.priority)..]
  {}

  class Queue {
    const events: array<Event>
    var head: nat
    var tail: nat
    var count: nat
    var initialized: bool

    ghost predicate Ring()
      reads this
    {
      initialized && events.Length == MAX && head < MAX && count <= MAX && tail == At(head, count)
    }

    ghost function View(): (v: seq<Event>)
      requires events.Length == MAX
      reads this, events
      ensures |v| == MAX
    {
      Rotated(events[..], head)
    }

    /** The waiting events, oldest position first. */
    ghost function Contents(): (s: seq<Event>)
      requires events.Length == MAX && count <= MAX
      reads this, events
      ensures |s| == count
    {
      View()[..count]
    }

    constructor ()
      ensures Ring() && Contents() == [] && fresh(events)
    {
      events := new Event[MAX](_ => Event(0, 0, NORMAL, 0, 0, 0));
      head, tail, count, initialized := 0, 0, 0, true;
    }

    /** Writes place k of the ring. */
    method Put(index: nat, ghost k: nat, e: Event)
      requires events.Length == MAX && k < MAX && index == At(head, k)
      modifies events
      ensures View() == old(View())[k := e]
    {
      hide At, Rotated;
      RotatedAt(events[..], head, k, e);
      ghost var before := events[..];
      events[index] := e;
      assert events[..] == before[index := e];
    }

    method FindInsertIndex(priority: nat) returns (index: nat, ghost k: nat)
      requires Ring() && count < MAX
      ensures index == At(head, FirstLower(Contents(), priority))
      ensures k == FirstLower(Contents(), priority)
    {
      hide At, Rotated, FirstLower;
      ghost var s := Contents();
      AtBefore(head, count + 1);
      index, k := head, 0;
      var i := 0;
      while i < count
        invariant 0 <= i <= count && k == i && index == At(head, i)
        invariant forall j :: 0 <= j < i ==> s[j].priority >= priority
      {
        RotatedAt(events[..], head, i, events[index]);
        if events[index].priority < priority {
          FirstLowerIs(s, priority, i);
          return;
        }
        AtBefore(head, i + 1);
        index := (index + 1) % MAX;
        i := i + 1;
        k := i;
      }
      FirstLowerIs(s, priority, count);
      index := tail;
    }

    /** Moves every waiting event from place k on one place back; nothing else moves. */
    method ShiftBack(insertIdx: nat, ghost k: nat)
      requires Ring() && count < MAX && k <= count && insertIdx == At(head, k)
      modifies events
      ensures View() == old(View())[..k + 1] + old(View())[k..count] + old(View())[count + 1..]
    {
      hide At, Rotated;
      ghost var v := View();
      ghost var j := count;
      var current := tail;
      assert v == v[..j + 1] + v[j..count] + v[count + 1..];
      while current != insertIdx
        invariant k <= j <= count && current == At(head, j)
        invariant View() == v[..j + 1] + v[j..count] + v[count + 1..]
        decreases j
      {
        AtBefore(head, j);
        var prev := if current == 0 then MAX - 1 else current - 1;
        RotatedAt(events[..], head, j - 1, events[prev]);
        Put(current, j, events[prev]);
        current := prev;
        j := j - 1;
        Shifted(v, j, count);
      }
      if j != k { AtDistinct(head, j, k); }
    }

    static lemma Shifted(v: seq<Event>, j: nat, count: nat)
      requires j < count < |v|
      ensures (v[..j + 2] + v[j + 1..count] + v[count + 1..])[j + 1 := v[j]] == v[..j + 1] + v[j..count] + v[count + 1..]
    {}

    /** EventQueue::push: a stable priority insertion, refused only when full. */
    method Push(event: Event) returns (ok: bool)
      requires Ring()
      modifies this`tail, this`count, events
      ensures Ring() && head == old(head)
      ensures ok == (old(count) < MAX)
      ensures Contents() == if ok then Insert(old(Contents()), event) else old(Contents())
    {
      hide At, Rotated, Insert, FirstLower;
      if !initialized || count >= MAX { return false; }
      ghost var s, v := Contents(), View();
      AtBefore(head, count + 1);
      InsertIs(s, event);
      if count == 0 || event.priority <= NORMAL {
        Put(tail, count, event);
        tail := (tail + 1) % MAX;
        count := count + 1;
        assert Contents() == s + [event];
      } else {
        var insertIdx;
        ghost var k;
        insertIdx, k := FindInsertIndex(event.priority);
        ShiftBack(insertIdx, k);
        Put(insertIdx, k, event);
        tail := (tail + 1) % MAX;
        count := count + 1;
        Placed(v, event, k, count);
      }
      ok := true;
    }

    static lemma Placed(v: seq<Event>, e: Event, k: nat, count: nat)
      requires |v| == MAX && k < count <= MAX
      ensures (v[..k + 1] + v[k..count - 1] + v[count..])[k := e][..count] == v[..count - 1][..k] + [e] + v[..count - 1][k..]
    {}

    method Pop() returns (r: (bool, Event))
      requires Ring()
      modifies this`head, this`count
      ensures Ring()
      ensures r.0 == (old(Contents()) != [])
      ensures r.0 ==> r.1 == old(Contents())[0] && Contents() == old(Contents())[1..]
      ensures !r.0 ==> Contents() == []
    {
      hide At, Rotated;
      if !initialized || count == 0 { return (false, Event(0, 0, 0, 0, 0, 0)); }
      RotatedPop(events[..], head, count);
      r := (true, events[head]);
      head := (head + 1) % MAX;
      count := count - 1;
    }

    method Clear()
      requires Ring()
      modifies this`head, this`tail, this`count
      ensures Ring() && Contents() == []
    {
      head, tail, count := 0, 0, 0;
    }

    /** clearType and clearCategory, for the events that `keep` rejects. The survivors keep
        their order; the ring is intact afterwards if and only if fewer than 256 survive,
        because the code sets tail to their number without wrapping it. */
    method ClearUnless(keep: Event -> bool)
      requires Ring()
      modifies this`head, this`tail, this`count, events
      ensures initialized && events.Length == MAX && count <= MAX
      ensures Contents() == Filter(old(Contents()), keep)
      ensures Ring() <==> |Filter(old(Contents()), keep)| < MAX
    {
      hide At, Rotated, Filter;
      AtBefore(head, count + 1);
      NothingToFilter(keep);
      if !initialized || count == 0 { return; }
      ghost var s := Contents();
      var temp: seq<Event> := [];
      var current := head;
      var i := 0;
      while i < count
        invariant 0 <= i <= count == |s| && current == At(head, i)
        invariant Ring() && Contents() == s && temp == Filter(s[..i], keep)
      {
        RotatedAt(events[..], head, i, events[current]);
        FilterAppend(s[..i], s[i], keep);
        assert s[..i] + [s[i]] == s[..i + 1];
        if keep(events[current]) { temp := temp + [events[current]]; }
        AtBefore(head, i + 1);
        current := (current + 1) % MAX;
        i := i + 1;
      }
      assert s[..count] == s;
      head, tail, count := 0, |temp|, |temp|;
      CopyBack(temp);
      RotatedZero(events[..]);
      assert Contents() == temp;
    }

    static lemma NothingToFilter(keep: Event -> bool)
      ensures Filter([], keep) == []
    {}

    method CopyBack(temp: seq<Event>)
      requires events.Length == MAX && |temp| <= MAX
      modifies events
      ensures events[..|temp|] == temp
    {
      var i := 0;
      while i < |temp|
        invariant 0 <= i <= |temp|
        invariant events[..i] == temp[..i]
      {
        events[i] := temp[i];
        i := i + 1;
      }
    }

    method ClearType(kind: nat)
      requires Ring()
      modifies this`head, this`tail, this`count, events
      ensures initialized && events.Length == MAX && count <= MAX
      ensures Contents() == Filter(old(Contents()), (e: Event) => e.kind != kind)
      ensures Ring() <==> |Filter(old(Contents()), (e: Event) => e.kind != kind)| < MAX
    {
      hide At, Rotated, Filter;
      ClearUnless((e: Event) => e.kind != kind);
    }

    method ClearCategory(category: bv8)
      requires Ring()
      modifies this`head, this`tail, this`count, events
      ensures initialized && events.Length == MAX && count <= MAX
      ensures Contents() == Filter(old(Contents()), (e: Event) => !HasCategory(e.category, category))
      ensures Ring() <==> |Filter(old(Contents()), (e: Event) => !HasCategory(e.category, category))| < MAX
    {
      hide At, Rotated, Filter;
      ClearUnless((e: Event) => !HasCategory(e.category, category));
    }
  }

  /** The small ring from head round to head again. */
  function Unrolled(events: seq<Event>, head: nat): (v: seq<Event>)
    requires |events| == IMMEDIATE_MAX && head < IMMEDIATE_MAX
    ensures |v| == IMMEDIATE_MAX
  {
    events[head..] + events[..head]
  }

  /** Where the k-th place of the small ring is in the array. */
  function Wrapped(head: nat, k: nat): (i: nat)
    requires head < IMMEDIATE_MAX && k <= IMMEDIATE_MAX
    ensures i < IMMEDIATE_MAX && i == (head + k) % IMMEDIATE_MAX
  {
    if head + k < IMMEDIATE_MAX then head + k else head + k - IMMEDIATE_MAX
  }

  lemma UnrolledAt(events: seq<Event>, head: nat, k: nat)
    requires |events| == IMMEDIATE_MAX && head < IMMEDIATE_MAX && k < IMMEDIATE_MAX
    ensures Unrolled(events, head)[k] == events[Wrapped(head, k)]
  {}

  lemma UnrolledPush(events: seq<Event>, head: nat, count: nat, e: Event)
    requires |events| == IMMEDIATE_MAX && head < IMMEDIATE_MAX && count < IMMEDIATE_MAX
    ensures Unrolled(events[(head + count) % IMMEDIATE_MAX := e], head)[..count + 1] == Unrolled(events, head)[..count] + [e]
    ensures ((head + count) % IMMEDIATE_MAX + 1) % IMMEDIATE_MAX == (head + count + 1) % IMMEDIATE_MAX
  {
    hide Unrolled;
    var t := Wrapped(head, count);
    var l, r := Unrolled(events[t := e], head), Unrolled(events, head)[..count] + [e];
    forall k | 0 <= k <= count ensures l[k] == r[k] {
      UnrolledAt(events[t := e], head, k);
      UnrolledAt(events, head, k);
    }
    assert l[..count + 1] == r;
  }

  lemma UnrolledPop(events: seq<Event>, head: nat, count: nat)
    requires |events| == IMMEDIATE_MAX && head < IMMEDIATE_MAX && 0 < count <= IMMEDIATE_MAX
    ensures events[head] == Unrolled(events, head)[..count][0]
    ensures Unrolled(events, (head + 1) % IMMEDIATE_MAX)[..count - 1] == Unrolled(events, head)[..count][1..]
    ensures ((head + 1) % IMMEDIATE_MAX + count - 1) % IMMEDIATE_MAX == (head + count) % IMMEDIATE_MAX
  {
    hide Unrolled;
    UnrolledAt(events, head, 0);
    var next := Wrapped(head, 1);
    var l, r := Unrolled(events, next)[..count - 1], Unrolled(events, head)[..count][1..];
    forall k | 0 <= k < count - 1 ensures l[k] == r[k] {
      UnrolledAt(events, next, k);
      UnrolledAt(events, head, k + 1);
    }
    assert l == r;
  }

  class ImmediateQueue {
    const events: array<Event>
    var head: nat
    var tail: nat
    var count: nat

    ghost predicate Ring()
      reads this
    {
      events.Length == IMMEDIATE_MAX && head < IMMEDIATE_MAX && count <= IMMEDIATE_MAX && tail == (head + count) % IMMEDIATE_MAX
    }

    ghost function Contents(): (s: seq<Event>)
      requires Ring()
      reads this, events
      ensures |s| == count
    {
      Unrolled(events[..], head)[..count]
    }

    constructor ()
      ensures Ring() && Contents() == [] && fresh(events)
    {
      events := new Event[IMMEDIATE_MAX](_ => Event(0, 0, NORMAL, 0, 0, 0));
      head, tail, count := 0, 0, 0;
    }

    method Push(e: Event) returns (ok: bool)
      requires Ring()
      modifies this, events
      ensures Ring() && ok == (old(count) < IMMEDIATE_MAX)
      ensures Contents() == old(Contents()) + if ok then [e] else []
    {
      hide Unrolled;
      if count >= IMMEDIATE_MAX { return false; }
      UnrolledPush(events[..], head, count, e);
      ghost var before := events[..];
      events[tail] := e;
      assert events[..] == before[tail := e];
      tail := (tail + 1) % IMMEDIATE_MAX;
      count := count + 1;
      ok := true;
    }

    method Pop() returns (r: (bool, Event))
      requires Ring()
      modifies this`head, this`count
      ensures Ring() && r.0 == (old(Contents()) != [])
      ensures r.0 ==> r.1 == old(Contents())[0] && Contents() == old(Contents())[1..]
      ensures !r.0 ==> Contents() == []
    {
      hide Unrolled;
      if count == 0 { return (false, Event(0, 0, 0, 0, 0, 0)); }
      UnrolledPop(events[..], head, count);
      r := (true, events[head]);
      head := (head + 1) % IMMEDIATE_MAX;
      count := count - 1;
    }

    method Clear()
      requires Ring()
      modifies this`head, this`tail, this`count
      ensures Ring() && Contents() == []
    {
      head, tail, count := 0, 0, 0;
    }
  }
}
