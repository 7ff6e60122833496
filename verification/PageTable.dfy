/** Four-level page tables as words of physical memory, and what they map. */
module PageTable {
  import opened Machine

  // ----- virtual addresses -----

  /** pml4Index, pdptIndex, pdIndex and ptIndex, for levels 4 down to 1. */
  function Index(level: nat, v: nat): (i: nat)
    requires 1 <= level <= 4
    ensures i < 512
  {
    if level == 4 then v / 0x80_0000_0000 % 512
    else if level == 3 then v / 0x4000_0000 % 512
    else if level == 2 then v / 0x20_0000 % 512
    else v / 0x1000 % 512
  }

  /** The 48-bit page number. */
  function PageOf(v: nat): nat { v / PAGE % 0x10_0000_0000 }

  lemma PageOfIndices(v: nat)
    ensures PageOf(v) == Index(4, v) * 0x800_0000 + Index(3, v) * 0x4_0000 + Index(2, v) * 512 + Index(1, v)
  {
    var p := v / PAGE;
    assert v / 0x20_0000 == p / 512;
    assert v / 0x4000_0000 == p / 0x4_0000 && p / 0x4_0000 == p / 512 / 512;
    assert v / 0x80_0000_0000 == p / 0x800_0000 && p / 0x800_0000 == p / 512 / 512 / 512;
    assert p == p / 512 * 512 + p % 512;
    assert p / 512 == p / 512 / 512 * 512 + p / 512 % 512;
    assert p / 512 / 512 == p / 512 / 512 / 512 * 512 + p / 512 / 512 % 512;
    assert p / 512 / 512 / 512 == p / 0x10_0000_0000 * 512 + p / 512 / 512 / 512 % 512;
  }

  /** Two addresses lie in the same page exactly when all four indices agree. */
  lemma SamePage(v: nat, w: nat)
    ensures PageOf(v) == PageOf(w) <==>
      Index(4, v) == Index(4, w) && Index(3, v) == Index(3, w) && Index(2, v) == Index(2, w) && Index(1, v) == Index(1, w)
  {
    hide Index, PageOf;
    PageOfIndices(v);
    PageOfIndices(w);
  }

  // ----- entries -----

  /** The bits of PageFlags: 0 to 8, and 63. */
  datatype Flags = Flags(low: nat, noExecute: bool) {
    predicate Ok() { low < 512 }
    predicate Present() { low % 2 == 1 }
  }

  predicate Frame(phys: nat) {
    phys % PAGE == 0 && phys < 0x10_0000_0000_0000
  }

  /** `phys | flags` */
  function MakeEntry(phys: nat, flags: Flags): nat
    requires Frame(phys) && flags.Ok()
  {
    phys + flags.low + if flags.noExecute then 0x8000_0000_0000_0000 else 0
  }

  /** The entry as lookups see it: one without the present bit maps nothing. */
  function Effective(phys: nat, flags: Flags): nat
    requires Frame(phys) && flags.Ok()
  {
    if flags.Present() then MakeEntry(phys, flags) else 0
  }

  predicate Present(e: nat) { e % 2 == 1 }

  /** `entry & ~0xFFF` */
  function Target(e: nat): nat { e / PAGE * PAGE }

  /** All flags are in the entry. The no-execute bit survives the mask, so an address read back
      is the frame's own if and only if that flag was not set. */
  lemma TargetOfEntry(phys: nat, flags: Flags)
    requires Frame(phys) && flags.Ok()
    ensures Present(MakeEntry(phys, flags)) == flags.Present()
    ensures Target(MakeEntry(phys, flags)) == phys + if flags.noExecute then 0x8000_0000_0000_0000 else 0
    ensures MakeEntry(phys, flags) % PAGE == flags.low
    ensures MakeEntry(phys, flags) / 0x8000_0000_0000_0000 == if flags.noExecute then 1 else 0
  {
    var q := phys / PAGE + if flags.noExecute then 0x8_0000_0000_0000 else 0;
    assert MakeEntry(phys, flags) == q * PAGE + flags.low;
  }

  // ----- tables -----

  /** Word `index` of the table page at physical address `table`. */
  datatype Slot = Slot(table: nat, index: nat)

  type Memory = Slot -> nat

  datatype Path = Absent | Table(addr: nat)

  /** The level-1 table that the walk for v from table t of the given level ends in. */
  function Descend(mem: Memory, t: nat, level: nat, v: nat): Path
    requires 1 <= level <= 4
    decreases level
  {
    if level == 1 then Table(t)
    else
      var e := mem(Slot(t, Index(level, v)));
      if Present(e) then Descend(mem, Target(e), level - 1, v) else Absent
  }

  /** How many tables the walk for v still lacks. */
  function Missing(mem: Memory, t: nat, level: nat, v: nat): (n: nat)
    requires 1 <= level <= 4
    ensures n < level
    ensures n == 0 <==> Descend(mem, t, level, v).Table?
    decreases level
  {
    if level == 1 then 0
    else
      var e := mem(Slot(t, Index(level, v)));
      if Present(e) then Missing(mem, Target(e), level - 1, v) else level - 1
  }

  /** The entry that maps v, or 0. */
  function Lookup(mem: Memory, root: nat, v: nat): nat {
    match Descend(mem, root, 4, v)
    case Absent => 0
    case Table(t) => var e := mem(Slot(t, Index(1, v))); if Present(e) then e else 0
  }

  /** The physical address of v, or 0. */
  function TranslateOf(mem: Memory, root: nat, v: nat): nat {
    var e := Lookup(mem, root, v);
    if Present(e) then Target(e) + v % PAGE else 0
  }

  /** Word i of table t leads to a table of the next level. */
  ghost predicate Link(mem: Memory, level: map<nat, nat>, t: nat, i: nat) {
    t in level && level[t] > 1 && i < 512 && Present(mem(Slot(t, i)))
  }

  /** `level` gives the level of every table page; the tables form a tree below the root. */
  ghost predicate Tree(mem: Memory, root: nat, level: map<nat, nat>) {
    && root in level && level[root] == 4
    && (forall t :: t in level ==> 1 <= level[t] <= 4 && t % PAGE == 0)
    && (forall t, i :: Link(mem, level, t, i) ==>
          Target(mem(Slot(t, i))) in level && level[Target(mem(Slot(t, i)))] == level[t] - 1)
    && (forall t, i, u, j :: Link(mem, level, t, i) && Link(mem, level, u, j) && (t != u || i != j) ==>
          Target(mem(Slot(t, i))) != Target(mem(Slot(u, j))))
  }

  lemma {:induction false} DescendLevel(mem: Memory, root: nat, level: map<nat, nat>, t: nat, l: nat, v: nat)
    requires Tree(mem, root, level) && t in level && level[t] == l && 1 <= l <= 4
    ensures Descend(mem, t, l, v).Table? ==>
      Descend(mem, t, l, v).addr in level && level[Descend(mem, t, l, v).addr] == 1
    decreases l
  {
    if l > 1 && Present(mem(Slot(t, Index(l, v)))) {
      assert Link(mem, level, t, Index(l, v));
      DescendLevel(mem, root, level, Target(mem(Slot(t, Index(l, v)))), l - 1, v);
    }
  }

  /** Walks that end in the same table took the same way there. */
  lemma {:induction false} DescendInjective(mem: Memory, root: nat, level: map<nat, nat>, t: nat, u: nat, l: nat, v: nat, w: nat)
    requires Tree(mem, root, level) && t in level && u in level && level[t] == level[u] == l && 1 <= l <= 4
    requires Descend(mem, t, l, v).Table? && Descend(mem, t, l, v) == Descend(mem, u, l, w)
    ensures t == u
    ensures forall k :: 2 <= k <= l ==> Index(k, v) == Index(k, w)
    decreases l
  {
    if l > 1 {
      var i, j := Index(l, v), Index(l, w);
      assert Link(mem, level, t, i) && Link(mem, level, u, j);
      DescendInjective(mem, root, level, Target(mem(Slot(t, i))), Target(mem(Slot(u, j))), l - 1, v, w);
    }
  }

  /** Changing a word of a level-1 table changes no walk. */
  lemma {:induction false} DescendFrame(mem: Memory, mem': Memory, root: nat, level: map<nat, nat>, t: nat, l: nat, v: nat)
    requires Tree(mem, root, level) && t in level && level[t] == l && 1 <= l <= 4
    requires forall u, i :: u in level && level[u] > 1 ==> mem'(Slot(u, i)) == mem(Slot(u, i))
    ensures Descend(mem', t, l, v) == Descend(mem, t, l, v) && Missing(mem', t, l, v) == Missing(mem, t, l, v)
    decreases l
  {
    if l > 1 && Present(mem(Slot(t, Index(l, v)))) {
      assert Link(mem, level, t, Index(l, v));
      DescendFrame(mem, mem', root, level, Target(mem(Slot(t, Index(l, v)))), l - 1, v);
    }
  }

  /** Memory with one word changed. */
  function Put(mem: Memory, s: Slot, e: nat): Memory {
    x => if x == s then e else mem(x)
  }

  /** Setting the entry of v in the last table changes the lookup of v's page and of no other. */
  lemma PutLeaf(mem: Memory, root: nat, level: map<nat, nat>, v: nat, e: nat)
    requires Tree(mem, root, level) && Descend(mem, root, 4, v).Table?
    ensures var mem' := Put(mem, Slot(Descend(mem, root, 4, v).addr, Index(1, v)), e);
      Tree(mem', root, level)
      && forall w :: Lookup(mem', root, w) == if PageOf(w) == PageOf(v) then (if Present(e) then e else 0) else Lookup(mem, root, w)
  {
    var pt := Descend(mem, root, 4, v).addr;
    var mem' := Put(mem, Slot(pt, Index(1, v)), e);
    DescendLevel(mem, root, level, root, 4, v);
    PutLeafTree(mem, root, level, Slot(pt, Index(1, v)), e);
    forall w ensures Lookup(mem', root, w) == if PageOf(w) == PageOf(v) then (if Present(e) then e else 0) else Lookup(mem, root, w) {
      PutLeafAt(mem, root, level, v, e, w);
    }
  }

  lemma PutLeafMissing(mem: Memory, root: nat, level: map<nat, nat>, v: nat, e: nat)
    requires Tree(mem, root, level) && Descend(mem, root, 4, v).Table?
    ensures forall w :: Missing(Put(mem, Slot(Descend(mem, root, 4, v).addr, Index(1, v)), e), root, 4, w) == Missing(mem, root, 4, w)
  {
    var mem' := Put(mem, Slot(Descend(mem, root, 4, v).addr, Index(1, v)), e);
    DescendLevel(mem, root, level, root, 4, v);
    forall w ensures Missing(mem', root, 4, w) == Missing(mem, root, 4, w) {
      DescendFrame(mem, mem', root, level, root, 4, w);
    }
  }

  lemma PutLeafTree(mem: Memory, root: nat, level: map<nat, nat>, s: Slot, e: nat)
    requires Tree(mem, root, level) && s.table in level && level[s.table] == 1
    ensures Tree(Put(mem, s, e), root, level)
  {
    var mem' := Put(mem, s, e);
    forall t, i ensures Link(mem', level, t, i) <==> Link(mem, level, t, i) {}
  }

  lemma {:induction false} SameWay(mem: Memory, t: nat, l: nat, v: nat, w: nat)
    requires 1 <= l <= 4 && forall k :: 2 <= k <= l ==> Index(k, v) == Index(k, w)
    ensures Descend(mem, t, l, v) == Descend(mem, t, l, w)
    decreases l
  {
    if l > 1 && Present(mem(Slot(t, Index(l, v)))) {
      SameWay(mem, Target(mem(Slot(t, Index(l, v)))), l - 1, v, w);
    }
  }

  lemma PutLeafAt(mem: Memory, root: nat, level: map<nat, nat>, v: nat, e: nat, w: nat)
    requires Tree(mem, root, level) && Descend(mem, root, 4, v).Table?
    ensures Lookup(Put(mem, Slot(Descend(mem, root, 4, v).addr, Index(1, v)), e), root, w)
         == if PageOf(w) == PageOf(v) then (if Present(e) then e else 0) else Lookup(mem, root, w)
  {
    hide Index, PageOf;
    var pt := Descend(mem, root, 4, v).addr;
    var mem' := Put(mem, Slot(pt, Index(1, v)), e);
    DescendLevel(mem, root, level, root, 4, v);
    DescendFrame(mem, mem', root, level, root, 4, w);
    SamePage(v, w);
    if PageOf(w) == PageOf(v) {
      forall k | 2 <= k <= 4 ensures Index(k, v) == Index(k, w) {
        assert k == 2 || k == 3 || k == 4;
      }
      SameWay(mem, root, 4, v, w);
    } else if Descend(mem, root, 4, w) == Table(pt) {
      DescendInjective(mem, root, level, root, root, 4, v, w);
    }
  }

  // ----- a new table -----

  /** A table page cleared and entered into slot s. */
  function Grow(mem: Memory, s: Slot, fresh_: nat): Memory {
    x => if x == s then fresh_ + 3 else if x.table == fresh_ then 0 else mem(x)
  }

  lemma GrowTree(mem: Memory, root: nat, level: map<nat, nat>, s: Slot, n: nat)
    requires Tree(mem, root, level) && s.table in level && level[s.table] > 1 && s.index < 512
    requires !Present(mem(s)) && n !in level && n % PAGE == 0
    ensures Tree(Grow(mem, s, n), root, level[n := level[s.table] - 1])
  {
    hide Target;
    EntryOfTable(n);
    var mem', level' := Grow(mem, s, n), level[n := level[s.table] - 1];
    forall t, i | Link(mem', level', t, i)
      ensures Target(mem'(Slot(t, i))) in level' && level'[Target(mem'(Slot(t, i)))] == level'[t] - 1
      ensures Target(mem'(Slot(t, i))) == n <==> Slot(t, i) == s
      ensures Slot(t, i) == s || (Link(mem, level, t, i) && mem'(Slot(t, i)) == mem(Slot(t, i)))
    {
      GrowLink(mem, root, level, s, n, t, i);
    }
    forall t, i, u, j | Link(mem', level', t, i) && Link(mem', level', u, j) && (t != u || i != j)
      ensures Target(mem'(Slot(t, i))) != Target(mem'(Slot(u, j)))
    {
      assert Slot(t, i) != Slot(u, j);
    }
  }

  /** `newTable | 0x03` is present and leads to the new table. */
  lemma EntryOfTable(n: nat)
    requires n % PAGE == 0
    ensures Present(n + 3) && Target(n + 3) == n
  {
    var q := n / PAGE;
    assert n == PAGE * q && (n + 3) / PAGE == q;
  }

  lemma GrowLink(mem: Memory, root: nat, level: map<nat, nat>, s: Slot, n: nat, t: nat, i: nat)
    requires Tree(mem, root, level) && s.table in level && level[s.table] > 1 && s.index < 512
    requires !Present(mem(s)) && n !in level && n % PAGE == 0
    requires Link(Grow(mem, s, n), level[n := level[s.table] - 1], t, i)
    ensures var mem', level' := Grow(mem, s, n), level[n := level[s.table] - 1];
      && Target(mem'(Slot(t, i))) in level' && level'[Target(mem'(Slot(t, i)))] == level'[t] - 1
      && (Target(mem'(Slot(t, i))) == n <==> Slot(t, i) == s)
      && (Slot(t, i) == s || (Link(mem, level, t, i) && mem'(Slot(t, i)) == mem(Slot(t, i))))
  {
    hide Target;
    EntryOfTable(n);
    if Slot(t, i) != s { assert Link(mem, level, t, i); }
  }

  /** Adding an empty table changes no lookup. */
  lemma {:induction false} GrowDescend(mem: Memory, root: nat, level: map<nat, nat>, s: Slot, n: nat, t: nat, l: nat, w: nat)
    requires Tree(mem, root, level) && s.table in level && level[s.table] > 1 && s.index < 512
    requires !Present(mem(s)) && n !in level && n % PAGE == 0
    requires t in level && level[t] == l && 1 <= l <= 4
    ensures Descend(Grow(mem, s, n), t, l, w) == Descend(mem, t, l, w)
      || (Descend(mem, t, l, w) == Absent && Descend(Grow(mem, s, n), t, l, w) == Table(n))
    ensures Descend(mem, t, l, w) != Table(n)
    decreases l
  {
    hide Index;
    if l > 1 {
      var x := Slot(t, Index(l, w));
      if x == s {
        assert Target(n + 3) == n;
      } else if Present(mem(x)) {
        assert Link(mem, level, t, Index(l, w));
        GrowDescend(mem, root, level, s, n, Target(mem(x)), l - 1, w);
      }
    }
  }

  lemma GrowLookup(mem: Memory, root: nat, level: map<nat, nat>, s: Slot, n: nat)
    requires Tree(mem, root, level) && s.table in level && level[s.table] > 1 && s.index < 512
    requires !Present(mem(s)) && n !in level && n % PAGE == 0
    ensures forall w :: Lookup(Grow(mem, s, n), root, w) == Lookup(mem, root, w)
  {
    forall w ensures Lookup(Grow(mem, s, n), root, w) == Lookup(mem, root, w) {
      GrowDescend(mem, root, level, s, n, root, 4, w);
      DescendLevel(mem, root, level, root, 4, w);
    }
  }

  // ----- tables that are still missing -----

  /** The walk for v reads slot s, an entry of a table above the last one. */
  ghost predicate Reaches(mem: Memory, t: nat, level: nat, v: nat, s: Slot)
    requires 1 <= level <= 4
    decreases level
  {
    level > 1
    && (s == Slot(t, Index(level, v))
        || (Present(mem(Slot(t, Index(level, v)))) && Reaches(mem, Target(mem(Slot(t, Index(level, v)))), level - 1, v, s)))
  }

  /** Where a slot on the walk for v is, and what it says about the tables missing. */
  lemma {:induction false} ReachesAt(mem: Memory, root: nat, level: map<nat, nat>, t: nat, l: nat, v: nat, s: Slot)
    requires Tree(mem, root, level) && t in level && level[t] == l && 1 <= l <= 4 && Reaches(mem, t, l, v, s)
    ensures s.table in level && 2 <= level[s.table] <= l && s.index == Index(level[s.table], v)
    ensures Missing(mem, t, l, v) < level[s.table]
    ensures Present(mem(s)) <==> Missing(mem, t, l, v) < level[s.table] - 1
    ensures Present(mem(s)) && level[s.table] > 2 ==>
      Reaches(mem, t, l, v, Slot(Target(mem(s)), Index(level[s.table] - 1, v)))
    ensures Present(mem(s)) && level[s.table] == 2 ==> Descend(mem, t, l, v) == Table(Target(mem(s)))
    decreases l
  {
    hide Index;
    var x := Slot(t, Index(l, v));
    if Present(mem(x)) {
      assert Link(mem, level, t, Index(l, v));
      if s != x { ReachesAt(mem, root, level, Target(mem(x)), l - 1, v, s); }
    }
  }

  /** A slot of a table of level l is read first on a walk from that level. */
  lemma ReachesFirst(mem: Memory, root: nat, level: map<nat, nat>, t: nat, l: nat, v: nat, s: Slot)
    requires Tree(mem, root, level) && t in level && level[t] == l && 1 <= l <= 4 && Reaches(mem, t, l, v, s)
    ensures s.table in level && (level[s.table] == l <==> s == Slot(t, Index(l, v)))
  {
    hide Index;
    ReachesAt(mem, root, level, t, l, v, s);
    var x := Slot(t, Index(l, v));
    if s != x {
      assert Link(mem, level, t, Index(l, v));
      ReachesAt(mem, root, level, Target(mem(x)), l - 1, v, s);
    }
  }

  /** Walks that read the same slot took the same way there. */
  lemma {:induction false} ReachesInjective(mem: Memory, root: nat, level: map<nat, nat>, t: nat, u: nat, l: nat, v: nat, w: nat, s: Slot)
    requires Tree(mem, root, level) && t in level && u in level && level[t] == level[u] == l && 1 <= l <= 4
    requires Reaches(mem, t, l, v, s) && Reaches(mem, u, l, w, s)
    ensures t == u && s.table in level
    ensures forall k :: level[s.table] <= k <= l ==> Index(k, v) == Index(k, w)
    decreases l
  {
    hide Index;
    var i, j := Index(l, v), Index(l, w);
    ReachesFirst(mem, root, level, t, l, v, s);
    ReachesFirst(mem, root, level, u, l, w, s);
    if level[s.table] != l {
      assert Link(mem, level, t, i) && Link(mem, level, u, j);
      ReachesInjective(mem, root, level, Target(mem(Slot(t, i))), Target(mem(Slot(u, j))), l - 1, v, w, s);
    }
  }

  /** An address with the same indices down to a slot reads that slot too. */
  lemma {:induction false} ReachesSame(mem: Memory, root: nat, level: map<nat, nat>, t: nat, l: nat, v: nat, w: nat, s: Slot)
    requires Tree(mem, root, level) && t in level && level[t] == l && 1 <= l <= 4 && Reaches(mem, t, l, v, s)
    requires s.table in level && forall k :: level[s.table] <= k <= l ==> Index(k, v) == Index(k, w)
    ensures Reaches(mem, t, l, w, s)
    decreases l
  {
    hide Index;
    ReachesAt(mem, root, level, t, l, v, s);
    var x := Slot(t, Index(l, v));
    assert Index(l, v) == Index(l, w);
    if s != x {
      assert Link(mem, level, t, Index(l, v));
      ReachesSame(mem, root, level, Target(mem(x)), l - 1, v, w, s);
    }
  }

  /** A table entered into s is no longer missing for the walks that read s. */
  lemma {:induction false} GrowMissing(mem: Memory, root: nat, level: map<nat, nat>, s: Slot, n: nat, t: nat, l: nat, w: nat)
    requires Tree(mem, root, level) && s.table in level && level[s.table] > 1 && s.index < 512
    requires !Present(mem(s)) && n !in level && n % PAGE == 0
    requires t in level && level[t] == l && 1 <= l <= 4
    ensures Missing(Grow(mem, s, n), t, l, w)
         == if Reaches(mem, t, l, w, s) then level[s.table] - 2 else Missing(mem, t, l, w)
    ensures Reaches(mem, t, l, w, s) ==> Reaches(Grow(mem, s, n), t, l, w, s)
    decreases l
  {
    hide Index, Target;
    EntryOfTable(n);
    if l > 1 {
      var x := Slot(t, Index(l, w));
      if Reaches(mem, t, l, w, s) { ReachesAt(mem, root, level, t, l, w, s); }
      if x != s && Present(mem(x)) {
        assert Link(mem, level, t, Index(l, w));
        GrowMissing(mem, root, level, s, n, Target(mem(x)), l - 1, w);
      }
    }
  }

  /** How many of the three tables below the root the walks for v and w do not share. */
  function Apart(v: nat, w: nat): (n: nat)
    ensures n <= 3
  {
    if Index(4, v) != Index(4, w) then 3
    else if Index(3, v) != Index(3, w) then 2
    else if Index(2, v) != Index(2, w) then 1
    else 0
  }

  function Min(a: nat, b: nat): nat { if a <= b then a else b }

  function Max(a: nat, b: nat): nat { if a <= b then b else a }

  /** After getOrCreateTable at an entry on the walk for v, of a table of level L, every walk
      lacks at most L - 2 tables or those it does not share with v. */
  lemma GrowForAll(mem: Memory, root: nat, level: map<nat, nat>, s: Slot, n: nat, v: nat)
    requires Tree(mem, root, level) && s.table in level && level[s.table] > 1 && s.index < 512
    requires !Present(mem(s)) && n !in level && n % PAGE == 0 && Reaches(mem, root, 4, v, s)
    ensures forall w ::
      Missing(Grow(mem, s, n), root, 4, w) == Min(Missing(mem, root, 4, w), Max(Apart(v, w), level[s.table] - 2))
    ensures Reaches(Grow(mem, s, n), root, 4, v, s)
  {
    hide Index, Missing, Reaches, Apart, Grow;
    GrowMissing(mem, root, level, s, n, root, 4, v);
    forall w ensures
      Missing(Grow(mem, s, n), root, 4, w) == Min(Missing(mem, root, 4, w), Max(Apart(v, w), level[s.table] - 2))
    {
      GrowMissing(mem, root, level, s, n, root, 4, w);
      ReachesApart(mem, root, level, s, v, w);
      if Reaches(mem, root, 4, w, s) { ReachesAt(mem, root, level, root, 4, w, s); }
      ReachesAt(mem, root, level, root, 4, v, s);
      SharedMissing(mem, root, 4, v, w);
    }
  }

  /** What v and w share is missing for both or for none. */
  lemma {:induction false} SharedMissing(mem: Memory, t: nat, l: nat, v: nat, w: nat)
    requires 1 <= l <= 4 && forall k :: l < k <= 4 ==> Index(k, v) == Index(k, w)
    ensures Missing(mem, t, l, w) <= Max(Apart(v, w), Missing(mem, t, l, v))
    decreases l
  {
    hide Index;
    if l > 1 && Index(l, v) == Index(l, w) && Present(mem(Slot(t, Index(l, v)))) {
      SharedMissing(mem, Target(mem(Slot(t, Index(l, v)))), l - 1, v, w);
    }
  }

  /** w reads the slot that v reads exactly when they share the table behind it. */
  lemma ReachesApart(mem: Memory, root: nat, level: map<nat, nat>, s: Slot, v: nat, w: nat)
    requires Tree(mem, root, level) && Reaches(mem, root, 4, v, s)
    ensures s.table in level && 2 <= level[s.table] <= 4
    ensures Reaches(mem, root, 4, w, s) <==> Apart(v, w) <= level[s.table] - 2
  {
    hide Index, Reaches;
    ReachesAt(mem, root, level, root, 4, v, s);
    if Apart(v, w) <= level[s.table] - 2 {
      forall k | level[s.table] <= k <= 4 ensures Index(k, v) == Index(k, w) { assert k == 2 || k == 3 || k == 4; }
      ReachesSame(mem, root, level, root, 4, v, w, s);
    }
    if Reaches(mem, root, 4, w, s) {
      ReachesInjective(mem, root, level, root, root, 4, v, w, s);
    }
  }

  // ----- equal memories -----

  ghost predicate SameWords(mem: Memory, mem': Memory) {
    forall t, i :: i < 512 ==> mem'(Slot(t, i)) == mem(Slot(t, i))
  }

  lemma {:induction false} SameDescend(mem: Memory, mem': Memory, t: nat, l: nat, v: nat)
    requires SameWords(mem, mem') && 1 <= l <= 4
    ensures Descend(mem', t, l, v) == Descend(mem, t, l, v) && Missing(mem', t, l, v) == Missing(mem, t, l, v)
    decreases l
  {
    if l > 1 && Present(mem(Slot(t, Index(l, v)))) {
      SameDescend(mem, mem', Target(mem(Slot(t, Index(l, v)))), l - 1, v);
    }
  }

  lemma SameMeaning(mem: Memory, mem': Memory, root: nat, level: map<nat, nat>)
    requires SameWords(mem, mem')
    ensures Tree(mem, root, level) ==> Tree(mem', root, level)
    ensures forall w :: Lookup(mem', root, w) == Lookup(mem, root, w)
    ensures forall w :: Missing(mem', root, 4, w) == Missing(mem, root, 4, w)
  {
    forall w ensures Lookup(mem', root, w) == Lookup(mem, root, w) && Missing(mem', root, 4, w) == Missing(mem, root, 4, w) {
      SameDescend(mem, mem', root, 4, w);
    }
    forall t, i ensures Link(mem', level, t, i) <==> Link(mem, level, t, i) {}
  }

  lemma {:induction false} SameReaches(mem: Memory, mem': Memory, t: nat, l: nat, v: nat, s: Slot)
    requires SameWords(mem, mem') && 1 <= l <= 4 && Reaches(mem, t, l, v, s)
    ensures Reaches(mem', t, l, v, s)
    decreases l
  {
    if s != Slot(t, Index(l, v)) {
      SameReaches(mem, mem', Target(mem(Slot(t, Index(l, v)))), l - 1, v, s);
    }
  }

  /** What a cleared page entered into a slot on the walk for v does to the tables. */
  lemma NewTable(mem: Memory, mem': Memory, root: nat, level: map<nat, nat>, s: Slot, n: nat, v: nat)
    requires Tree(mem, root, level) && s.table in level && level[s.table] > 1 && s.index < 512
    requires !Present(mem(s)) && n !in level && n % PAGE == 0 && Reaches(mem, root, 4, v, s)
    requires SameWords(Grow(mem, s, n), mem')
    ensures Tree(mem', root, level[n := level[s.table] - 1])
    ensures level[s.table] <= 4
    ensures level[s.table] == 2 ==> Descend(mem', root, 4, v) == Table(n)
    ensures level[s.table] > 2 ==> Reaches(mem', root, 4, v, Slot(n, Index(level[s.table] - 1, v)))
    ensures Present(mem'(s)) && Target(mem'(s)) == n
    ensures forall w :: Lookup(mem', root, w) == Lookup(mem, root, w)
    ensures forall w ::
      Missing(mem', root, 4, w) == Min(Missing(mem, root, 4, w), Max(Apart(v, w), level[s.table] - 2))
  {
    hide Lookup, Missing, Reaches, Apart, Present, Target, Descend, Index;
    GrowTree(mem, root, level, s, n);
    GrowLookup(mem, root, level, s, n);
    GrowForAll(mem, root, level, s, n, v);
    EntryOfTable(n);
    SameMeaning(Grow(mem, s, n), mem', root, level[n := level[s.table] - 1]);
    SameReaches(Grow(mem, s, n), mem', root, 4, v, s);
    assert mem'(Slot(s.table, s.index)) == n + 3;
    ReachesAt(mem', root, level[n := level[s.table] - 1], root, 4, v, s);
  }

  /** The walk for v, spelled out as the code does it. */
  lemma DescendSteps(mem: Memory, root: nat, v: nat)
    ensures var e4 := mem(Slot(root, Index(4, v)));
      var e3 := mem(Slot(Target(e4), Index(3, v)));
      var e2 := mem(Slot(Target(e3), Index(2, v)));
      Descend(mem, root, 4, v)
        == if Present(e4) && Present(e3) && Present(e2) then Table(Target(e2)) else Absent
  {
    var e4 := mem(Slot(root, Index(4, v)));
    var e3 := mem(Slot(Target(e4), Index(3, v)));
    var e2 := mem(Slot(Target(e3), Index(2, v)));
    assert Descend(mem, root, 4, v) == if Present(e4) then Descend(mem, Target(e4), 3, v) else Absent;
    assert Descend(mem, Target(e4), 3, v) == if Present(e3) then Descend(mem, Target(e3), 2, v) else Absent;
    assert Descend(mem, Target(e3), 2, v) == if Present(e2) then Descend(mem, Target(e2), 1, v) else Absent;
  }

  // ----- ranges of pages -----

  const PAGES := 0x10_0000_0000

  /** `virt + i * PAGE_SIZE` */
  function Nth(virt: nat, i: nat): nat { (virt + i * PAGE) % U64 }

  /** Which page of the range from virt on the page of w is, counting around the 48-bit space. */
  function RangeIndex(virt: nat, w: nat): (i: nat)
    ensures i < PAGES
  {
    (PageOf(w) + PAGES - PageOf(virt)) % PAGES
  }

  lemma PageOfNth(virt: nat, i: nat)
    ensures PageOf(Nth(virt, i)) == (PageOf(virt) + i) % PAGES
  {
    hide Nth;
    NthPage(virt, i);
    AddPages(virt, i);
    AddMod(virt / PAGE, i);
  }

  lemma NthPage(virt: nat, i: nat)
    ensures PageOf(Nth(virt, i)) == (virt + i * PAGE) / PAGE % PAGES
  {
    ModPage(virt + i * PAGE);
  }

  lemma AddPages(virt: nat, i: nat)
    ensures (virt + i * PAGE) / PAGE == virt / PAGE + i
  {}

  lemma AddMod(a: nat, i: nat)
    ensures (a % PAGES + i) % PAGES == (a + i) % PAGES
  {
    var q, r := a / PAGES, a % PAGES;
    assert a + i == q * PAGES + (r + i);
  }

  lemma ModPage(x: nat)
    ensures x % U64 / PAGE % PAGES == x / PAGE % PAGES
  {
    var q, r := x / U64, x % U64;
    assert x / PAGE == q * 0x10_0000_0000_0000 + r / PAGE;
    assert x / PAGE == q * 0x1_0000 * PAGES + r / PAGE;
  }

  /** Among fewer than 2^36 pages, w lies in page i of the range exactly if its index is i. */
  lemma RangeIndexIs(virt: nat, i: nat, w: nat)
    requires i < PAGES
    ensures PageOf(w) == PageOf(Nth(virt, i)) <==> RangeIndex(virt, w) == i
  {
    hide Nth, PageOf;
    PageOfNth(virt, i);
    PageBound(w);
    PageBound(virt);
  }

  lemma PageBound(v: nat)
    ensures PageOf(v) < PAGES
  {}

  /** Pages that a size in bytes takes, in 64-bit arithmetic. */
  function PageCount(size: nat): nat { (size + (PAGE - 1)) % U64 / PAGE }

  /** They hold the bytes, and one page less would not, exactly if rounding up does not wrap;
      otherwise there are none. */
  lemma PageCountIs(size: nat)
    requires size < U64
    ensures size <= PAGE * PageCount(size) < size + PAGE <==> size <= U64 - PAGE
    ensures size > U64 - PAGE ==> PageCount(size) == 0
  {
    var up := size + (PAGE - 1);
    if up >= U64 { assert up % U64 == up - U64 < PAGE; }
  }

  /** How many tables w does not share with any of the first i pages of a range, if w is
      not in one of them: its neighbours there are the first page and the last one. */
  function Near(virt: nat, i: nat, w: nat): nat {
    if i == 0 then 3 else Min(Apart(virt, w), Apart(Nth(virt, i - 1), w))
  }

  /** The tables that n pages from virt on need: for each page those that are missing and
      were not made for a page before it. */
  function TablesNeeded(mem: Memory, root: nat, virt: nat, n: nat): nat {
    if n == 0 then 0
    else
      TablesNeeded(mem, root, virt, n - 1)
      + Min(Missing(mem, root, 4, Nth(virt, n - 1)), Near(virt, n - 1, Nth(virt, n - 1)))
  }

  lemma {:induction false} TablesMono(mem: Memory, root: nat, virt: nat, m: nat, n: nat)
    requires m <= n
    ensures TablesNeeded(mem, root, virt, m) <= TablesNeeded(mem, root, virt, n)
    decreases n
  {
    hide Missing, Near, Nth;
    if m < n { TablesMono(mem, root, virt, m, n - 1); }
  }

  /** Behind page i of a range, what page i - 1 shares with w is shared by page i or by the
      first page, however the range wraps around. */
  lemma NearNext(virt: nat, i: nat, w: nat)
    requires 0 < i < RangeIndex(virt, w)
    ensures Near(virt, i + 1, w) == Min(Near(virt, i, w), Apart(Nth(virt, i), w))
  {
    hide Index, PageOf, Nth, Apart;
    ApartPages(virt, w);
    ApartPages(Nth(virt, i), w);
    ApartPages(Nth(virt, i - 1), w);
    var a, p := PageOf(virt), PageOf(w);
    var q, r := PageOf(Nth(virt, i - 1)), PageOf(Nth(virt, i));
    Order(virt, i, w);
    Between(a, p, q, r);
  }

  lemma Order(virt: nat, i: nat, w: nat)
    requires 0 < i < RangeIndex(virt, w)
    ensures var a, p := PageOf(virt), PageOf(w);
      var q, r := PageOf(Nth(virt, i - 1)), PageOf(Nth(virt, i));
      q < r < p || p < a <= q
  {
    hide PageOf, Nth;
    PageOfNth(virt, i);
    PageOfNth(virt, i - 1);
    PageBound(virt);
    PageBound(w);
  }

  lemma Between(a: nat, p: nat, q: nat, r: nat)
    requires q < r < p || p < a <= q
    ensures p / 512 == q / 512 ==> p / 512 == a / 512 || p / 512 == r / 512
    ensures p / 0x4_0000 == q / 0x4_0000 ==> p / 0x4_0000 == a / 0x4_0000 || p / 0x4_0000 == r / 0x4_0000
    ensures p / 0x800_0000 == q / 0x800_0000 ==> p / 0x800_0000 == a / 0x800_0000 || p / 0x800_0000 == r / 0x800_0000
  {}

  /** The tables shared, by page numbers. */
  lemma ApartPages(v: nat, w: nat)
    ensures Apart(v, w) == 0 <==> PageOf(v) / 512 == PageOf(w) / 512
    ensures Apart(v, w) <= 1 <==> PageOf(v) / 0x4_0000 == PageOf(w) / 0x4_0000
    ensures Apart(v, w) <= 2 <==> PageOf(v) / 0x800_0000 == PageOf(w) / 0x800_0000
  {
    hide Index, PageOf;
    PageParts(v);
    PageParts(w);
  }

  lemma PageParts(v: nat)
    ensures PageOf(v) / 0x800_0000 == Index(4, v)
    ensures PageOf(v) / 0x4_0000 == Index(4, v) * 512 + Index(3, v)
    ensures PageOf(v) / 512 == Index(4, v) * 0x4_0000 + Index(3, v) * 512 + Index(2, v)
  {
    hide Index, PageOf;
    PageOfIndices(v);
  }
}
