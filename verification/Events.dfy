/** Events and the order in which the main queue keeps them, on plain sequences. */
module Events {

  const LOW := 0
  const NORMAL := 1
  const IMMEDIATE := 4

  datatype Event = Event(kind: nat, category: bv8, priority: nat, param1: nat, param2: nat, userData: nat)

  /** hasCategory */
  predicate HasCategory(cats: bv8, check: bv8) { cats & check != 0 }

  /** Index of the first event of lower priority, or the length. */
  function FirstLower(s: seq<Event>, priority: nat): (i: nat)
    ensures i <= |s|
    ensures forall j :: 0 <= j < i ==> s[j].priority >= priority
    ensures i < |s| ==> s[i].priority < priority
  {
    if s == [] || s[0].priority < priority then 0 else 1 + FirstLower(s[1..], priority)
  }

  /** Where push() puts an event. */
  function Insert(s: seq<Event>, e: Event): seq<Event> {
    if s == [] || e.priority <= NORMAL then s + [e]
    else var i := FirstLower(s, e.priority); s[..i] + [e] + s[i..]
  }

  /** An event above Normal has nothing of lower priority before it: such events form a
      prefix of non-increasing priority. */
  ghost predicate Ordered(s: seq<Event>) {
    forall i, j :: 0 <= i < j < |s| && s[j].priority > NORMAL ==> s[i].priority >= s[j].priority
  }

  /** Low and Normal share a class, every higher priority is its own. */
  function Class(e: Event): nat { if e.priority <= NORMAL then NORMAL else e.priority }

  /** The events of one class, in queue order. */
  function OfClass(s: seq<Event>, c: nat): seq<Event> {
    if s == [] then [] else if Class(s[0]) == c then [s[0]] + OfClass(s[1..], c) else OfClass(s[1..], c)
  }

  lemma {:induction false} OfClassAppend(s: seq<Event>, t: seq<Event>, c: nat)
    ensures OfClass(s + t, c) == OfClass(s, c) + OfClass(t, c)
  {
    if s == [] {
      assert s + t == t;
    } else {
      assert (s + t)[1..] == s[1..] + t;
      OfClassAppend(s[1..], t, c);
    }
  }

  lemma OfClassOne(e: Event, c: nat)
    ensures OfClass([e], c) == if Class(e) == c then [e] else []
  {
    assert [e][1..] == [];
  }

  lemma {:induction false} NoneOfClass(s: seq<Event>, c: nat)
    requires forall i :: 0 <= i < |s| ==> Class(s[i]) != c
    ensures OfClass(s, c) == []
  {
    if s != [] { NoneOfClass(s[1..], c); }
  }

  lemma InsertKeepsOrder(s: seq<Event>, e: Event)
    requires Ordered(s)
    ensures Ordered(Insert(s, e)) && |Insert(s, e)| == |s| + 1
  {
    var r := Insert(s, e);
    var k := if s == [] || e.priority <= NORMAL then |s| else FirstLower(s, e.priority);
    forall i, j | 0 <= i < j < |r| && r[j].priority > NORMAL ensures r[i].priority >= r[j].priority {
      if i < k < j {
        assert r[j] == s[j - 1] && r[i] == s[i];
      } else if i == k {
        assert r[j] == s[j - 1];
        if k < j - 1 { assert s[k].priority >= s[j - 1].priority; }
      } else if k < i {
        assert r[i] == s[i - 1] && r[j] == s[j - 1];
      }
    }
  }

  /** First in, first out within each class: a push adds the event at the end of its own
      class and leaves the others alone. */
  lemma InsertIsFifo(s: seq<Event>, e: Event, c: nat)
    requires Ordered(s)
    ensures OfClass(Insert(s, e), c) == OfClass(s, c) + if Class(e) == c then [e] else []
  {
    hide OfClass, FirstLower;
    OfClassOne(e, c);
    if s == [] || e.priority <= NORMAL {
      OfClassAppend(s, [e], c);
    } else {
      var k := FirstLower(s, e.priority);
      var pre, post := s[..k], s[k..];
      assert s == pre + post;
      OfClassAppend(pre, post, c);
      OfClassAppend(pre + [e], post, c);
      OfClassAppend(pre, [e], c);
      if Class(e) == c {
        LowerBehind(s, e.priority, k);
        NoneOfClass(post, c);
      }
    }
  }

  lemma LowerBehind(s: seq<Event>, priority: nat, k: nat)
    requires Ordered(s) && k <= |s| && priority > NORMAL && (k < |s| ==> s[k].priority < priority)
    ensures forall i :: 0 <= i < |s[k..]| ==> s[k..][i].priority < priority
  {
    forall i | 0 <= i < |s[k..]| ensures s[k..][i].priority < priority {
      if i > 0 && s[k + i].priority > NORMAL { assert s[k].priority >= s[k + i].priority; }
    }
  }

  /** The event popped next is of the highest class waiting, and the oldest of it. */
  lemma HeadIsHighest(s: seq<Event>)
    requires Ordered(s) && s != []
    ensures forall i :: 0 <= i < |s| ==> Class(s[0]) >= Class(s[i])
    ensures OfClass(s, Class(s[0]))[0] == s[0]
    ensures Ordered(s[1..])
  {
    forall i, j | 0 <= i < j < |s[1..]| && s[1..][j].priority > NORMAL ensures s[1..][i].priority >= s[1..][j].priority {
      assert s[i + 1].priority >= s[j + 1].priority;
    }
  }

  /** What clearType and clearCategory keep. */
  function Filter(s: seq<Event>, keep: Event -> bool): (r: seq<Event>)
    ensures |r| <= |s|
  {
    if s == [] then [] else if keep(s[0]) then [s[0]] + Filter(s[1..], keep) else Filter(s[1..], keep)
  }

  lemma {:induction false} FilterAppend(s: seq<Event>, e: Event, keep: Event -> bool)
    ensures Filter(s + [e], keep) == Filter(s, keep) + if keep(e) then [e] else []
  {
    if s == [] {
      assert [e][1..] == [] && s + [e] == [e];
    } else {
      assert (s + [e])[1..] == s[1..] + [e];
      FilterAppend(s[1..], e, keep);
    }
  }

  lemma {:induction false} FilterKeepsOrder(s: seq<Event>, keep: Event -> bool)
    requires Ordered(s)
    ensures Ordered(Filter(s, keep))
    ensures forall e :: e in Filter(s, keep) <==> e in s && keep(e)
  {
    if s != [] {
      HeadIsHighest(s);
      FilterKeepsOrder(s[1..], keep);
      assert s == [s[0]] + s[1..];
      var r := Filter(s, keep);
      forall i, j | 0 <= i < j < |r| && r[j].priority > NORMAL ensures r[i].priority >= r[j].priority {
        if keep(s[0]) {
          if i == 0 {
            assert r[j] in Filter(s[1..], keep);
            var k :| 0 <= k < |s[1..]| && s[1..][k] == r[j];
            assert s[0].priority >= s[k + 1].priority;
          } else {
            assert r[i] == Filter(s[1..], keep)[i - 1] && r[j] == Filter(s[1..], keep)[j - 1];
          }
        }
      }
    }
  }

  /** Clearing keeps the survivors of each class in order. */
  lemma {:induction false} FilterOfClass(s: seq<Event>, keep: Event -> bool, c: nat)
    ensures OfClass(Filter(s, keep), c) == Filter(OfClass(s, c), keep)
  {
    if s != [] {
      FilterOfClass(s[1..], keep, c);
      if Class(s[0]) == c {
        assert ([s[0]] + OfClass(s[1..], c))[1..] == OfClass(s[1..], c);
      }
      if keep(s[0]) {
        assert ([s[0]] + Filter(s[1..], keep))[1..] == Filter(s[1..], keep);
      }
    }
  }
}
