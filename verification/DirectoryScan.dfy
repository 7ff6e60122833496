/** Assembling long names in a buffer, and scanning one directory for a name. */
module DirectoryScan {
  import opened CStrings
  import opened Names
  import opened LongNames

  const LFN_BUFFER := 256
  const FRAGMENT_BUFFER := 64

  /** strncpy into a whole buffer, one place left for the terminator. */
  method SetText(dest: array<char>, src: string)
    requires dest.Length > 0 && '\0' !in src
    modifies dest
    ensures CStrings.Text(dest[..]) == Cut(src, dest.Length - 1)
  {
    hide CStrings.Text;
    dest[0] := '\0';
    TextIs(dest[..], "");
    var n := if |src| < dest.Length then |src| else dest.Length - 1;
    CopyText(dest, 0, src, n);
    assert src[..|src|] == src && "" + src[..n] == src[..n];
  }

  /** What a fragment yields once `out` was emitted and `units` remain. */
  function Remaining(out: string, ended: bool, units: seq<nat>): string { out + if ended then "" else Emitted(units) }

  lemma EmittedNext(out: string, units: seq<nat>)
    requires units != []
    ensures Remaining(out, false, units) ==
              if units[0] == 0 then Remaining(out, true, units[1..])
              else if units[0] == 0xFFFF then Remaining(out, false, units[1..])
              else Remaining(out + [if units[0] <= 0x7F then units[0] as char else '?'], false, units[1..])
  {}

  /** One group of units, with `later` still to come. */
  method Emit(units: seq<nat>, out: string, done: bool, ghost later: seq<nat>) returns (r: string, ended: bool)
    requires |out| + |units| < FRAGMENT_BUFFER
    ensures Remaining(out, done, units + later) == Remaining(r, ended, later)
    ensures |r| <= |out| + |units|
  {
    hide Remaining;
    r, ended := out, done;
    var i := 0;
    assert units[0..] == units;
    while i < |units|
      invariant 0 <= i <= |units| && |r| <= |out| + i
      invariant Remaining(out, done, units + later) == Remaining(r, ended, units[i..] + later)
    {
      assert (units[i..] + later)[1..] == units[i + 1..] + later;
      if !ended {
        EmittedNext(r, units[i..] + later);
        if units[i] == 0 {
          ended := true;
        } else if units[i] != 0xFFFF {
          var c := if units[i] <= 0x7F then units[i] as char else '?';
          if |r| + 1 < FRAGMENT_BUFFER { r := r + [c]; }
        }
      } else {
        EndedRemaining(r, units[i..] + later, units[i + 1..] + later);
      }
      i := i + 1;
    }
    assert units[i..] + later == later;
  }

  lemma EndedRemaining(out: string, a: seq<nat>, b: seq<nat>)
    ensures Remaining(out, true, a) == out == Remaining(out, true, b)
  {}

  /** lfnPrependFragment */
  method PrependFragment(fragment: string, pending: array<char>)
    requires pending.Length == LFN_BUFFER && |CStrings.Text(pending[..])| < LFN_BUFFER
    requires '\0' !in fragment && 0 < |fragment| < FRAGMENT_BUFFER
    modifies pending
    ensures CStrings.Text(pending[..]) == Prepend(fragment, CStrings.Text(old(pending[..])))
  {
    hide CStrings.Text;
    var p := ReadText(pending);
    var combined := new char[LFN_BUFFER](_ => '\0');
    SetText(combined, fragment);
    var n := if |fragment| + |p| < LFN_BUFFER then |p| else LFN_BUFFER - 1 - |fragment|;
    CopyText(combined, |fragment|, p, n);
    assert fragment[..|fragment|] == fragment && p[..|p|] == p;
    assert fragment + p[..n] == Cut(fragment + p, NAME_MAX);
    var both := ReadText(combined);
    SetText(pending, both);
  }

  /** lfnConsume */
  method ConsumeFragment(f: Fragment, pending: array<char>)
    requires |f.name1| == 5 && |f.name2| == 6 && |f.name3| == 2
    requires pending.Length == LFN_BUFFER && |CStrings.Text(pending[..])| < LFN_BUFFER
    modifies pending
    ensures CStrings.Text(pending[..]) == Prepend(Emitted(Units(f)), CStrings.Text(old(pending[..])))
    ensures |CStrings.Text(pending[..])| < LFN_BUFFER
  {
    hide CStrings.Text, Emitted, Remaining;
    var out, ended := "", false;
    StartAndEnd(Units(f));
    assert f.name1 + (f.name2 + (f.name3 + [])) == Units(f);
    out, ended := Emit(f.name1, out, ended, f.name2 + (f.name3 + []));
    out, ended := Emit(f.name2, out, ended, f.name3 + []);
    out, ended := Emit(f.name3, out, ended, []);
    NothingLater(out, ended);
    if out != "" { PrependFragment(out, pending); }
  }

  lemma StartAndEnd(units: seq<nat>)
    ensures Remaining("", false, units) == Emitted(units)
  {
    assert "" + Emitted(units) == Emitted(units);
  }

  lemma NothingLater(out: string, ended: bool)
    ensures Remaining(out, ended, []) == out
  {}

  // ----- scanning a directory -----

  /** The slots findEntry looks at: in every cluster those before the end mark. */
  function Visited(cluster: seq<Slot>): seq<Slot> {
    if cluster == [] || cluster[0] == EndMark then [] else [cluster[0]] + Visited(cluster[1..])
  }

  function AllVisited(clusters: seq<seq<Slot>>): seq<Slot> {
    if clusters == [] then [] else AllVisited(clusters[..|clusters| - 1]) + Visited(clusters[|clusters| - 1])
  }

  /** The directory as it is: every slot of every cluster. */
  function AllSlots(clusters: seq<seq<Slot>>): seq<Slot> {
    if clusters == [] then [] else AllSlots(clusters[..|clusters| - 1]) + clusters[|clusters| - 1]
  }

  predicate ValidSlots(slots: seq<Slot>) { forall i :: 0 <= i < |slots| ==> ValidSlot(slots[i]) }

  /** The k-th visited slot is an entry of the name asked for. */
  predicate Hit(slots: seq<Slot>, k: nat, element: string)
    requires k < |slots| && ValidSlot(slots[k])
  {
    Matches(AfterAll(NOTHING, slots[..k]), slots[k], element)
  }

  lemma {:induction false} VisitedPrefix(cluster: seq<Slot>, i: nat)
    requires i < |cluster| && forall j :: 0 <= j < i ==> cluster[j] != EndMark
    ensures i <= |Visited(cluster)| && Visited(cluster)[..i] == cluster[..i]
    ensures cluster[i] == EndMark ==> Visited(cluster) == cluster[..i]
    ensures cluster[i] != EndMark ==> |Visited(cluster)| > i && Visited(cluster)[i] == cluster[i]
  {
    if i > 0 {
      VisitedPrefix(cluster[1..], i - 1);
      assert cluster[..i] == [cluster[0]] + cluster[1..][..i - 1];
    }
  }

  lemma {:induction false} VisitedValid(cluster: seq<Slot>)
    requires ValidSlots(cluster)
    ensures ValidSlots(Visited(cluster))
  {
    if cluster != [] { VisitedValid(cluster[1..]); }
  }

  class Scanner {
    const pending: array<char>
    var pendingSum: nat
    var pendingValid: bool

    constructor ()
      ensures fresh(pending) && Ready() && Value() == NOTHING
    {
      pending := new char[LFN_BUFFER](_ => '\0');
      pendingSum, pendingValid := 0, false;
      new;
      TextIs(pending[..], "");
    }

    ghost predicate Ready()
      reads this, pending
    {
      pending.Length == LFN_BUFFER && |CStrings.Text(pending[..])| < LFN_BUFFER
    }

    ghost function Value(): Pending
      reads this, pending
    {
      Pending(CStrings.Text(pending[..]), pendingSum, pendingValid)
    }

    /** lfnClear */
    method Clear()
      requires Ready()
      modifies this, pending
      ensures Ready() && Value() == NOTHING
    {
      hide CStrings.Text;
      pending[0] := '\0';
      TextIs(pending[..], "");
      pendingSum, pendingValid := 0, false;
    }

    method OnLongPart(f: Fragment)
      requires Ready() && |f.name1| == 5 && |f.name2| == 6 && |f.name3| == 2
      modifies this, pending
      ensures Ready() && Value() == Consume(old(Value()), f)
    {
      hide CStrings.Text, Emitted;
      if f.order & 0x40 != 0 {
        Clear();
        pendingSum, pendingValid := f.checksum, true;
      }
      if pendingValid && pendingSum == f.checksum {
        ConsumeFragment(f, pending);
      } else {
        Clear();
      }
    }

    /** One slot: whether it is the entry asked for. */
    method Look(s: Slot, element: string) returns (found: bool)
      requires Ready() && ValidSlot(s) && s != EndMark
      modifies this, pending
      ensures Ready() && found == Matches(old(Value()), s, element)
      ensures !found ==> Value() == After(old(Value()), s)
    {
      hide CStrings.Text, Consume, Lowers, Parse, Checksum;
      found := false;
      match s {
        case Deleted => Clear();
        case Volume => Clear();
        case LongPart(f, proper) => if proper { OnLongPart(f); }
        case Short(name, _) =>
          var shortName := new char[64](_ => '\0');
          ParseName(name, 0, shortName);
          ParseFits(name);
          var short := ReadText(shortName);
          var long := ReadText(pending);
          var byLong := false;
          if pendingValid && long != "" {
            var sum := ChecksumOf(name);
            if sum == pendingSum { byLong := EqualsIgnoreCase(element, long); }
          }
          var byShort := EqualsIgnoreCase(element, short);
          found := byLong || byShort;
          if !found { Clear(); }
      }
    }

    static lemma ParseFits(fat: string)
      requires |fat| == 11
      ensures |Parse(fat, 0)| <= 12
    {
      hide Field;
    }

    static method ChecksumOf(name: string) returns (sum: nat)
      ensures sum == Checksum(name, 0)
    {
      sum := 0;
      var i := 0;
      assert name[0..] == name;
      while i < |name|
        invariant 0 <= i <= |name| && Checksum(name[i..], sum) == Checksum(name, 0)
      {
        assert name[i..][1..] == name[i + 1..];
        sum := ((if sum % 2 == 1 then 0x80 else 0) + sum / 2 + name[i] as nat) % 0x100;
        i := i + 1;
      }
    }

    /** The scan of one cluster: the first slot that matches, which is slot `at`. */
    method FindInCluster(cluster: seq<Slot>, element: string, ghost before: seq<Slot>, from: nat)
      returns (found: bool, index: nat, s: Slot, at: nat)
      requires Ready() && ValidSlots(cluster) && from == |before| && Value() == AfterAll(NOTHING, before)
      requires NoHit(before, element)
      modifies this, pending
      ensures Ready()
      ensures found ==> FirstHit(before + Visited(cluster), index, element) && s == (before + Visited(cluster))[index]
      ensures !found ==> NoHit(before + Visited(cluster), element)
      ensures !found ==> index == |before + Visited(cluster)| && Value() == AfterAll(NOTHING, before + Visited(cluster))
      ensures found ==> at < |cluster| && index == from + at && s == cluster[at]
    {
      hide Matches, After, Visited, CStrings.Text, NoHit, FirstHit, AfterAll;
      found, index, s, at := false, from, EndMark, 0;
      assert before + cluster[..0] == before;
      while at < |cluster|
        invariant 0 <= at <= |cluster| && Ready() && index == from + at && !found
        invariant EndMark !in cluster[..at] && NoHit(before + cluster[..at], element)
        invariant Value() == AfterAll(NOTHING, before + cluster[..at])
      {
        s := cluster[at];
        SlotNext(before, cluster, at, element);
        if s == EndMark { return; }
        found := Look(s, element);
        if found { return; }
        at, index := at + 1, index + 1;
      }
      assert cluster[..at] == cluster;
      VisitedFront(cluster);
    }

    /** What one more slot of a cluster means, after slots that were no hits. */
    static lemma SlotNext(before: seq<Slot>, cluster: seq<Slot>, i: nat, element: string)
      requires i < |cluster| && EndMark !in cluster[..i] && ValidSlots(cluster) && NoHit(before + cluster[..i], element)
      ensures var seen, s, slots := before + cluster[..i], cluster[i], before + Visited(cluster);
        if s == EndMark then seen == slots && |slots| == |before| + i
        else
          && seen + [s] == before + cluster[..i + 1] && EndMark !in cluster[..i + 1]
          && AfterAll(NOTHING, seen + [s]) == After(AfterAll(NOTHING, seen), s)
          && |before| + i < |slots| && slots[|before| + i] == s
          && if Matches(AfterAll(NOTHING, seen), s, element) then FirstHit(slots, |before| + i, element)
             else NoHit(seen + [s], element)
    {
      hide Matches, After, Visited, AfterAll, Hit, NoHit, FirstHit;
      assert forall j :: 0 <= j < i ==> cluster[j] == cluster[..i][j];
      VisitedPrefix(cluster, i);
      VisitedValid(cluster);
      var seen, s, slots := before + cluster[..i], cluster[i], before + Visited(cluster);
      if s != EndMark {
        assert seen + [s] == before + cluster[..i + 1];
        assert slots[..|seen|] == seen && slots[..|seen| + 1] == seen + [s];
        AfterAllOne(seen, s);
        NoHitValid(before + cluster[..i], element);
        HitNext(slots, |seen|, element);
      }
    }

    static lemma NoHitValid(slots: seq<Slot>, element: string)
      requires NoHit(slots, element)
      ensures ValidSlots(slots)
    {}

    static lemma HitNext(slots: seq<Slot>, n: nat, element: string)
      requires n < |slots| && ValidSlots(slots) && NoHit(slots[..n], element)
      ensures if Matches(AfterAll(NOTHING, slots[..n]), slots[n], element) then FirstHit(slots, n, element)
              else NoHit(slots[..n + 1], element)
    {
      hide Matches;
      var more := slots[..n + 1];
      assert more[..n] == slots[..n];
      HitsPrefix(slots[..n], more, element);
    }

    static lemma AfterAllOne(slots: seq<Slot>, s: Slot)
      ensures AfterAll(NOTHING, slots + [s]) == After(AfterAll(NOTHING, slots), s)
    {
      assert (slots + [s])[..|slots|] == slots;
    }
  }

  lemma {:induction false} VisitedMore(clusters: seq<seq<Slot>>, c: nat)
    requires c < |clusters| && forall i :: 0 <= i < |clusters| ==> ValidSlots(clusters[i])
    ensures AllVisited(clusters[..c]) + Visited(clusters[c]) <= AllVisited(clusters)
    ensures AllVisited(clusters[..c + 1]) == AllVisited(clusters[..c]) + Visited(clusters[c])
    ensures ValidSlots(AllVisited(clusters))
    decreases |clusters|
  {
    var n := |clusters| - 1;
    VisitedValid(clusters[n]);
    assert clusters[..c + 1][..c] == clusters[..c];
    if c < n {
      VisitedMore(clusters[..n], c);
      assert clusters[..n][..c] == clusters[..c];
      assert clusters[..n][..c + 1] == clusters[..c + 1];
    } else {
      assert clusters[..n] == clusters[..c] && clusters[..c + 1] == clusters;
      if n > 0 { VisitedMore(clusters[..n], n - 1); }
    }
  }

  /** Hits depend only on the slots up to them. */
  lemma HitsPrefix(a: seq<Slot>, b: seq<Slot>, element: string)
    requires a <= b && ValidSlots(b)
    ensures ValidSlots(a) && forall k :: 0 <= k < |a| ==> Hit(b, k, element) == Hit(a, k, element)
  {
    hide Matches;
    forall k | 0 <= k < |a| ensures ValidSlot(a[k]) && Hit(b, k, element) == Hit(a, k, element) {
      assert a[..k] == b[..k] && a[k] == b[k];
    }
  }

  /** No slot of the given ones is the entry asked for. */
  ghost predicate NoHit(slots: seq<Slot>, element: string) {
    ValidSlots(slots) && forall k :: 0 <= k < |slots| ==> !Hit(slots, k, element)
  }

  /** Slot k is the first that is. */
  ghost predicate FirstHit(slots: seq<Slot>, k: nat, element: string) {
    ValidSlots(slots) && k < |slots| && Hit(slots, k, element) && NoHit(slots[..k], element)
  }

  /** Where slot i of cluster c is in the directory. */
  function Place(clusters: seq<seq<Slot>>, c: nat, i: nat): nat
    requires c < |clusters|
  {
    |AllSlots(clusters[..c])| + i
  }

  lemma {:induction false} PlaceIs(clusters: seq<seq<Slot>>, c: nat, i: nat)
    requires c < |clusters| && i < |clusters[c]|
    ensures Place(clusters, c, i) < |AllSlots(clusters)| && AllSlots(clusters)[Place(clusters, c, i)] == clusters[c][i]
    decreases |clusters|
  {
    var n := |clusters| - 1;
    if c < n {
      PlaceIs(clusters[..n], c, i);
      assert clusters[..n][..c] == clusters[..c];
    } else {
      assert clusters[..n] == clusters[..c];
    }
  }

  lemma {:induction false} VisitedFront(cluster: seq<Slot>)
    ensures Visited(cluster) <= cluster
    ensures EndMark !in cluster ==> Visited(cluster) == cluster
    ensures EndMark in cluster ==> |Visited(cluster)| < |cluster| && cluster[|Visited(cluster)|] == EndMark
    ensures EndMark !in Visited(cluster)
  {
    if cluster != [] { VisitedFront(cluster[1..]); }
  }

  /** Numbers fall behind places as soon as there is an end mark. */
  lemma {:induction false} VisitedShorter(clusters: seq<seq<Slot>>)
    ensures |AllVisited(clusters)| <= |AllSlots(clusters)|
    ensures |AllVisited(clusters)| == |AllSlots(clusters)| <==> forall c :: 0 <= c < |clusters| ==> EndMark !in clusters[c]
    ensures (forall c :: 0 <= c < |clusters| ==> EndMark !in clusters[c]) ==> AllVisited(clusters) == AllSlots(clusters)
  {
    if clusters != [] {
      var n := |clusters| - 1;
      VisitedShorter(clusters[..n]);
      VisitedFront(clusters[n]);
      assert forall c :: 0 <= c < n ==> clusters[..n][c] == clusters[c];
    }
  }

  /** Slot i of cluster c, which is visited under number `index`, is the first that matches. */
  ghost predicate FoundIn(clusters: seq<seq<Slot>>, element: string, index: nat, c: nat, i: nat) {
    && FirstHit(AllVisited(clusters), index, element)
    && c < |clusters| && i < |Visited(clusters[c])| <= |clusters[c]|
    && index == |AllVisited(clusters[..c])| + i
  }

  /** That is one slot: the lookup has no choice. */
  lemma FoundUnique(clusters: seq<seq<Slot>>, element: string, index: nat, c: nat, i: nat, index2: nat, c2: nat, i2: nat)
    requires forall k :: 0 <= k < |clusters| ==> ValidSlots(clusters[k])
    requires FoundIn(clusters, element, index, c, i) && FoundIn(clusters, element, index2, c2, i2)
    ensures index == index2 && c == c2 && i == i2
  {
    hide Hit, Visited;
    FirstHitUnique(AllVisited(clusters), index, index2, element);
    if c < c2 { VisitedGrows(clusters, c, c2); }
    if c2 < c { VisitedGrows(clusters, c2, c); }
  }

  lemma FirstHitUnique(slots: seq<Slot>, k: nat, l: nat, element: string)
    requires FirstHit(slots, k, element) && FirstHit(slots, l, element)
    ensures k == l
  {
    hide Hit;
    HitsPrefix(slots[..k], slots, element);
    HitsPrefix(slots[..l], slots, element);
  }

  lemma {:induction false} VisitedGrows(clusters: seq<seq<Slot>>, c: nat, d: nat)
    requires c < d <= |clusters| && forall k :: 0 <= k < |clusters| ==> ValidSlots(clusters[k])
    ensures |AllVisited(clusters[..c])| + |Visited(clusters[c])| <= |AllVisited(clusters[..d])|
    decreases d
  {
    hide AllVisited, Visited;
    VisitedMore(clusters, d - 1);
    if c < d - 1 { VisitedGrows(clusters, c, d - 1); }
  }

  /** The number of the slot found is its place if and only if no cluster before its own
      holds an end mark. */
  lemma NumberIsPlace(clusters: seq<seq<Slot>>, element: string, index: nat, c: nat, i: nat)
    requires forall k :: 0 <= k < |clusters| ==> ValidSlots(clusters[k])
    requires FoundIn(clusters, element, index, c, i)
    ensures clusters[c][i] == AllVisited(clusters)[index]
    ensures index <= Place(clusters, c, i) < |AllSlots(clusters)| && AllSlots(clusters)[Place(clusters, c, i)] == clusters[c][i]
    ensures index == Place(clusters, c, i) <==> forall k :: 0 <= k < c ==> EndMark !in clusters[k]
  {
    hide FirstHit, Visited, AllVisited, AllSlots;
    VisitedMore(clusters, c);
    VisitedFront(clusters[c]);
    FrontAt(AllVisited(clusters[..c]), Visited(clusters[c]), AllVisited(clusters), i);
    PlaceIs(clusters, c, i);
    VisitedShorter(clusters[..c]);
    assert forall k :: 0 <= k < c ==> clusters[..c][k] == clusters[k];
  }

  lemma FrontAt(a: seq<Slot>, b: seq<Slot>, all: seq<Slot>, i: nat)
    requires a + b <= all && i < |b|
    ensures all[|a| + i] == b[i]
  {
    assert (a + b)[|a| + i] == b[i];
  }

  lemma FoundHere(clusters: seq<seq<Slot>>, c: nat, i: nat, index: nat, element: string)
    requires forall k :: 0 <= k < |clusters| ==> ValidSlots(clusters[k])
    requires c < |clusters| && i < |clusters[c]| && index == |AllVisited(clusters[..c])| + i
    requires FirstHit(AllVisited(clusters[..c]) + Visited(clusters[c]), index, element)
    ensures FoundIn(clusters, element, index, c, i)
  {
    hide Hit, Visited;
    VisitedMore(clusters, c);
    VisitedFront(clusters[c]);
    var all, slots := AllVisited(clusters), AllVisited(clusters[..c]) + Visited(clusters[c]);
    HitsPrefix(slots, all, element);
    assert all[..index] == slots[..index];
  }

  /** No slot is visited in a cluster behind one with an end mark. */
  ghost predicate NothingBehind(clusters: seq<seq<Slot>>) {
    forall c, d :: 0 <= c < d < |clusters| && EndMark in clusters[c] ==> Visited(clusters[d]) == []
  }

  /** The slots visited are the front of the directory, each at its place, if and only if
      nothing is visited behind an end mark; then the first end mark comes next. */
  lemma {:induction false} VisitedInPlace(clusters: seq<seq<Slot>>)
    ensures AllVisited(clusters) <= AllSlots(clusters) <==> NothingBehind(clusters)
    ensures NothingBehind(clusters) && |AllVisited(clusters)| < |AllSlots(clusters)| ==>
      AllSlots(clusters)[|AllVisited(clusters)|] == EndMark
  {
    hide Visited, NothingBehind;
    if clusters == [] {
      NoneBehind();
    } else {
      var n := |clusters| - 1;
      var before, last := clusters[..n], clusters[n];
      var v, s, x := AllVisited(before), AllSlots(before), Visited(last);
      VisitedInPlace(before);
      VisitedShorter(before);
      VisitedFront(last);
      BehindLast(clusters);
      assert forall c :: 0 <= c < n ==> before[c] == clusters[c];
      Fronts(v, x, s, last);
    }
  }

  lemma NoneBehind()
    ensures NothingBehind([])
  {}

  lemma Fronts(v: seq<Slot>, x: seq<Slot>, s: seq<Slot>, last: seq<Slot>)
    requires |v| <= |s| && x <= last && EndMark !in x
    requires |v| < |s| && v <= s ==> s[|v|] == EndMark
    ensures v + x <= s + last <==> v <= s && (|v| < |s| ==> x == [])
  {
    var all := s + last;
    if v + x <= all {
      assert v == all[..|v|] == s[..|v|];
      if x != [] {
        assert (v + x)[|v|] == all[|v|] == x[0];
        assert x[0] in x;
      }
    }
  }

  lemma BehindLast(clusters: seq<seq<Slot>>)
    requires clusters != []
    ensures var n := |clusters| - 1;
      NothingBehind(clusters) <==>
        NothingBehind(clusters[..n]) && ((exists c :: 0 <= c < n && EndMark in clusters[c]) ==> Visited(clusters[n]) == [])
  {
    hide Visited;
    var n := |clusters| - 1;
    var before := clusters[..n];
    assert forall c :: 0 <= c < n ==> before[c] == clusters[c];
    if NothingBehind(clusters) {
      forall c, d | 0 <= c < d < n && EndMark in before[c] ensures Visited(before[d]) == [] {
        assert EndMark in clusters[c] && before[d] == clusters[d];
      }
    }
    if NothingBehind(before) && ((exists c :: 0 <= c < n && EndMark in clusters[c]) ==> Visited(clusters[n]) == []) {
      forall c, d | 0 <= c < d < |clusters| && EndMark in clusters[c] ensures Visited(clusters[d]) == [] {
        if d < n { assert EndMark in before[c] && before[d] == clusters[d]; }
      }
    }
  }

  /** With an end mark inside the directory the scan goes on in the next cluster, and its
      numbers no longer are places. */
  lemma NumbersShift(a: Slot, b: Slot)
    requires a != EndMark && b != EndMark
    ensures AllVisited([[a, EndMark], [b]]) == [a, b]
    ensures AllSlots([[a, EndMark], [b]]) == [a, EndMark, b]
  {
    var clusters := [[a, EndMark], [b]];
    assert clusters[..1] == [[a, EndMark]] && clusters[..1][..0] == [];
    assert [a, EndMark][1..] == [EndMark] && [b][1..] == [];
    assert Visited([a, EndMark]) == [a] by { assert Visited([EndMark]) == []; }
    assert Visited([b]) == [b] by { assert Visited([]) == []; }
    assert AllVisited(clusters[..1]) == [] + [a] && AllSlots(clusters[..1]) == [] + [a, EndMark];
  }
}
