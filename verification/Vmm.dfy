/** The virtual memory manager: mapping and unmapping pages in the table that CR3
    points to, and allocating ranges of pages backed by physical frames. */
module Vmm {
  import opened Machine
  import opened PageTable
  import opened Pmm

  /** Bytes set aside for page tables before the page allocator is ready. */
  const EARLY := 1024 * 1024

  datatype Status = Success | OutOfMemory | NotFound

  class VirtualMemory {
    const pmm: PageAllocator
    const root: nat
    const earlyBase: nat
    var mem: Memory
    var earlyOffset: nat
    var nextVirtualAddress: nat
    /** The table pages in use and their levels. */
    ghost var level: map<nat, nat>

    ghost predicate Valid()
      reads this
    {
      && Tree(mem, root, level)
      && 0 < earlyBase && earlyBase % PAGE == 0 && earlyOffset % PAGE == 0 && earlyOffset <= EARLY
      && (forall t :: t in level ==> t < earlyBase + earlyOffset || earlyBase + EARLY <= t)
      && nextVirtualAddress < U64 && nextVirtualAddress % PAGE == 0
    }

    /** A root table without entries, as initialize() leaves it. */
    constructor (pmm: PageAllocator, root: nat, earlyBase: nat, words: Memory)
      requires root % PAGE == 0 && (root < earlyBase || earlyBase + EARLY <= root)
      requires 0 < earlyBase && earlyBase % PAGE == 0
      requires forall i :: 0 <= i < 512 ==> words(Slot(root, i)) == 0
      ensures Valid() && this.pmm == pmm && this.root == root && earlyOffset == 0
      ensures forall w :: LookupOf(w) == 0
    {
      this.pmm, this.root, this.earlyBase, mem := pmm, root, earlyBase, words;
      earlyOffset, nextVirtualAddress := 0, 0xFFFF_9000_0000_0000;
      level := map[root := 4];
    }

    ghost function LookupOf(v: nat): nat
      reads `mem
    {
      Lookup(mem, root, v)
    }

    /** How many tables map would have to make for v. */
    ghost function Needed(v: nat): nat
      reads `mem
    {
      Missing(mem, root, 4, v)
    }

    /** earlyAllocatePage: the next page of a fixed buffer, or 0. */
    method EarlyAllocatePage() returns (p: nat)
      requires Valid()
      modifies `earlyOffset
      ensures p == 0 ==> earlyOffset == old(earlyOffset) && earlyOffset + PAGE > EARLY
      ensures p != 0 ==> earlyOffset == old(earlyOffset) + PAGE <= EARLY && p == earlyBase + old(earlyOffset)
    {
      if earlyOffset + PAGE > EARLY { return 0; }
      p := earlyBase + earlyOffset;
      earlyOffset := earlyOffset + PAGE;
    }

    /** VMM::getOrCreateTable: the table that entry `index` of `table` leads to, made empty
        if need be; none if no page is left. No lookup changes. The entry is on the walk
        for v; afterwards no walk lacks the table if it shares it with v. */
    method GetOrCreateTable(table: nat, index: nat, ghost v: nat) returns (r: Path)
      requires Valid() && table in level && level[table] > 1 && index < 512
      requires Reaches(mem, root, 4, v, Slot(table, index))
      modifies `mem, `level, `earlyOffset
      ensures Valid() && table in level && level[table] == old(level[table])
      ensures forall w :: LookupOf(w) == old(LookupOf(w))
      ensures old(Needed(v)) < level[table] && (old(Present(mem(Slot(table, index)))) <==> old(Needed(v)) < level[table] - 1)
      ensures r == Absent <==> old(!Present(mem(Slot(table, index))) && earlyOffset + PAGE > EARLY)
      ensures r == Absent ==> mem == old(mem) && earlyOffset == old(earlyOffset)
      ensures r != Absent ==> Leads(table, index, r.addr, v)
      ensures r != Absent ==> forall w :: Needed(w) == Min(old(Needed(w)), Max(Apart(v, w), level[table] - 2))
      ensures Present(old(mem)(Slot(table, index))) ==> mem == old(mem) && earlyOffset == old(earlyOffset)
      ensures r != Absent && !Present(old(mem)(Slot(table, index))) ==>
        && earlyOffset == old(earlyOffset) + PAGE && mem(Slot(table, index)) == r.addr + 3
        && (forall i :: i < 512 ==> mem(Slot(r.addr, i)) == 0)
        && forall x :: x != Slot(table, index) && x.table != r.addr ==> mem(x) == old(mem)(x)
    {
      hide Lookup, Tree, Reaches, Missing, Apart, Descend, Index;
      RootLevel();
      ReachesAt(mem, root, level, root, 4, v, Slot(table, index));
      var entry := mem(Slot(table, index));
      if Present(entry) {
        LinkTarget(table, index);
        Shared(v);
        return Table(Target(entry));
      }
      var t := EarlyAllocatePage();
      if t == 0 { return Absent; }
      ghost var m0 := mem;
      var i := 0;
      while i < 512
        invariant 0 <= i <= 512 && level == old(level) && earlyOffset == old(earlyOffset) + PAGE
        invariant forall x :: mem(x) == if x.table == t && x.index < i then 0 else m0(x)
      {
        mem := Put(mem, Slot(t, i), 0);
        i := i + 1;
      }
      mem := Put(mem, Slot(table, index), t + 3);
      NewTable(m0, mem, root, level, Slot(table, index), t, v);
      level := level[t := level[table] - 1];
      r := Table(t);
    }

    lemma Shared(v: nat)
      ensures forall w :: Needed(w) <= Max(Apart(v, w), Needed(v))
    {
      forall w ensures Needed(w) <= Max(Apart(v, w), Needed(v)) { SharedMissing(mem, root, 4, v, w); }
    }

    /** Entry `index` of `table` leads to t, the next table on the walk for v. */
    ghost predicate Leads(table: nat, index: nat, t: nat, v: nat)
      reads this
    {
      && table in level && t in level && 1 < level[table] == level[t] + 1 <= 4
      && Present(mem(Slot(table, index))) && Target(mem(Slot(table, index))) == t
      && (if level[t] == 1 then Descend(mem, root, 4, v) == Table(t)
          else Reaches(mem, root, 4, v, Slot(t, Index(level[t], v))))
    }

    lemma LinkTarget(table: nat, index: nat)
      requires Valid() && table in level && level[table] > 1 && index < 512 && Present(mem(Slot(table, index)))
      ensures Target(mem(Slot(table, index))) in level && level[Target(mem(Slot(table, index)))] == level[table] - 1
    {
      assert Link(mem, level, table, index);
    }

    /** VMM::map: the page of v is mapped as the flags say and no other lookup changes. It
        fails exactly when fewer early pages are left than tables are missing, and then no
        lookup changes at all. Afterwards a walk lacks what it lacked and does not share. */
    method Map(v: nat, phys: nat, flags: Flags) returns (status: Status)
      requires Valid() && Frame(phys) && flags.Ok()
      modifies `mem, `level, `earlyOffset
      ensures Valid() && status != NotFound
      ensures status == Success <==> old(earlyOffset + PAGE * Needed(v)) <= EARLY
      ensures status == Success ==> earlyOffset == old(earlyOffset + PAGE * Needed(v))
      ensures status == Success ==> forall w :: Needed(w) == Min(old(Needed(w)), Apart(v, w))
      ensures status == OutOfMemory ==> old(earlyOffset) <= earlyOffset && earlyOffset + PAGE > EARLY
      ensures status == OutOfMemory ==> forall w :: LookupOf(w) == old(LookupOf(w))
      ensures status == Success ==>
        forall w :: LookupOf(w) == if PageOf(w) == PageOf(v) then Effective(phys, flags) else old(LookupOf(w))
    {
      hide Lookup, Tree, Index, PageOf, MakeEntry, Effective, Target, Present, Frame, Descend, Missing;
      RootLevel();
      var pdpt := GetOrCreateTable(root, Index(4, v), v);
      if pdpt == Absent { return OutOfMemory; }
      var pd := GetOrCreateTable(pdpt.addr, Index(3, v), v);
      if pd == Absent { return OutOfMemory; }
      var pt := GetOrCreateTable(pd.addr, Index(2, v), v);
      if pt == Absent { return OutOfMemory; }
      EntrySet(v, phys, flags);
      mem := Put(mem, Slot(pt.addr, Index(1, v)), MakeEntry(phys, flags));
      status := Success;
    }

    lemma EntrySet(v: nat, phys: nat, flags: Flags)
      requires Valid() && Frame(phys) && flags.Ok() && Descend(mem, root, 4, v).Table?
      ensures var mem' := Put(mem, Slot(Descend(mem, root, 4, v).addr, Index(1, v)), MakeEntry(phys, flags));
        && Tree(mem', root, level)
        && (forall w :: Missing(mem', root, 4, w) == Needed(w))
        && (forall w :: Lookup(mem', root, w) == if PageOf(w) == PageOf(v) then Effective(phys, flags) else LookupOf(w))
    {
      hide Lookup, Tree, Index, PageOf, MakeEntry, Target, Frame, Descend, Missing;
      PutLeaf(mem, root, level, v, MakeEntry(phys, flags));
      TargetOfEntry(phys, flags);
      PutLeafMissing(mem, root, level, v, MakeEntry(phys, flags));
    }

    lemma RootLevel()
      requires Valid()
      ensures root in level && level[root] == 4
    {}

    /** VMM::unmap: afterwards the page of v is not mapped; no other lookup changes. */
    method Unmap(v: nat) returns (status: Status)
      requires Valid()
      modifies `mem
      ensures Valid() && status != OutOfMemory
      ensures status == NotFound <==> old(Descend(mem, root, 4, v)) == Absent
      ensures status == NotFound ==> mem == old(mem)
      ensures forall w :: LookupOf(w) == if PageOf(w) == PageOf(v) then 0 else old(LookupOf(w))
    {
      hide Tree, Index, PageOf, Target;
      DescendSteps(mem, root, v);
      var pml4Entry := mem(Slot(root, Index(4, v)));
      if !Present(pml4Entry) { NoPath(v); return NotFound; }
      var pdptEntry := mem(Slot(Target(pml4Entry), Index(3, v)));
      if !Present(pdptEntry) { NoPath(v); return NotFound; }
      var pdEntry := mem(Slot(Target(pdptEntry), Index(2, v)));
      if !Present(pdEntry) { NoPath(v); return NotFound; }
      PutLeaf(mem, root, level, v, 0);
      mem := Put(mem, Slot(Target(pdEntry), Index(1, v)), 0);
      status := Success;
    }

    lemma NoPath(v: nat)
      requires Descend(mem, root, 4, v) == Absent
      ensures forall w :: PageOf(w) == PageOf(v) ==> LookupOf(w) == 0
    {
      SameLookup(v);
    }

    /** All addresses of a page have one entry. */
    lemma SameLookup(v: nat)
      ensures forall w :: PageOf(w) == PageOf(v) ==> LookupOf(w) == LookupOf(v)
    {
      forall w | PageOf(w) == PageOf(v) ensures LookupOf(w) == LookupOf(v) {
        SamePage(v, w);
        forall k | 2 <= k <= 4 ensures Index(k, v) == Index(k, w) { assert k == 2 || k == 3 || k == 4; }
        SameWay(mem, root, 4, v, w);
      }
    }

    /** VMM::translate: the mapped frame plus the offset in the page, or 0. */
    method Translate(v: nat) returns (phys: nat)
      ensures phys == TranslateOf(mem, root, v)
    {
      hide Index, Target;
      DescendSteps(mem, root, v);
      var pml4Entry := mem(Slot(root, Index(4, v)));
      if !Present(pml4Entry) { return 0; }
      var pdptEntry := mem(Slot(Target(pml4Entry), Index(3, v)));
      if !Present(pdptEntry) { return 0; }
      var pdEntry := mem(Slot(Target(pdptEntry), Index(2, v)));
      if !Present(pdEntry) { return 0; }
      var ptEntry := mem(Slot(Target(pdEntry), Index(1, v)));
      if !Present(ptEntry) { return 0; }
      return Target(ptEntry) + v % PAGE;
    }

    /** map followed by translate of any address w: in the page mapped it gives the frame and
        the offset if the flags are present and not no-execute; elsewhere what it gave. */
    method MapThenTranslate(v: nat, phys: nat, flags: Flags, w: nat) returns (status: Status, p: nat)
      requires Valid() && Frame(phys) && flags.Ok()
      modifies `mem, `level, `earlyOffset
      ensures Valid()
      ensures status == Success <==> old(earlyOffset + PAGE * Needed(v)) <= EARLY
      ensures status == Success && PageOf(w) == PageOf(v) ==> p == Translated(phys, flags, w)
      ensures status != Success || PageOf(w) != PageOf(v) ==> p == old(TranslateOf(mem, root, w))
    {
      hide Lookup, PageOf, Effective;
      ghost var before := LookupOf(w);
      status := Map(v, phys, flags);
      ghost var after := LookupOf(w);
      p := Translate(w);
      TranslatedIs(phys, flags, w);
    }

    /** What translate gives for an address w in a page mapped to phys. */
    static function Translated(phys: nat, flags: Flags, w: nat): nat {
      if !flags.Present() then 0
      else phys + w % PAGE + if flags.noExecute then 0x8000_0000_0000_0000 else 0
    }

    static lemma TranslatedIs(phys: nat, flags: Flags, w: nat)
      requires Frame(phys) && flags.Ok()
      ensures var e := Effective(phys, flags);
        Translated(phys, flags, w) == if Present(e) then Target(e) + w % PAGE else 0
    {
      hide Target;
      TargetOfEntry(phys, flags);
    }

    /** VMM::mapRange. It succeeds exactly when the early pages left suffice for the tables
        that the range needs. On success page i of the range is mapped to frame i; on
        failure the pages that had been mapped, k of them, are unmapped again. */
    method MapRange(virt: nat, phys: nat, size: nat, flags: Flags) returns (status: Status, ghost k: nat)
      requires Valid() && flags.Ok() && PageCount(size) <= PAGES && virt < U64
      requires Frame(phys) && phys + PageCount(size) * PAGE <= 0x10_0000_0000_0000
      modifies `mem, `level, `earlyOffset
      ensures Valid() && status != NotFound && k <= PageCount(size)
      ensures status == Success <==> old(earlyOffset + PAGE * TablesNeeded(mem, root, virt, PageCount(size))) <= EARLY
      ensures status == Success ==> earlyOffset == old(earlyOffset + PAGE * TablesNeeded(mem, root, virt, PageCount(size)))
      ensures status == Success ==> k == PageCount(size) && forall w ::
        LookupOf(w) == if RangeIndex(virt, w) < k then NthEntry(phys, RangeIndex(virt, w), flags) else old(LookupOf(w))
      ensures status == OutOfMemory ==>
        k < PageCount(size)
        && old(earlyOffset + PAGE * TablesNeeded(mem, root, virt, k)) <= EARLY
             < old(earlyOffset + PAGE * TablesNeeded(mem, root, virt, k + 1))
      ensures status == OutOfMemory ==> forall w ::
        LookupOf(w) == if RangeIndex(virt, w) < k then 0 else old(LookupOf(w))
      ensures status == OutOfMemory && (forall w :: RangeIndex(virt, w) < PageCount(size) ==> old(LookupOf(w)) == 0) ==>
        forall w :: LookupOf(w) == old(LookupOf(w))
    {
      hide PageOf, RangeIndex, Lookup, Tree, Nth, MakeEntry, Made, Lacking, TablesNeeded, Missing, PageCount;
      MadeNone(virt);
      var pages := PageCount(size);
      k := 0;
      var i := 0;
      while i < pages
        invariant 0 <= i <= pages && k == i
        invariant Valid() && Made(virt, i, true, old(mem), old(earlyOffset))
        invariant forall w ::
          LookupOf(w) == if RangeIndex(virt, w) < i then NthEntry(phys, RangeIndex(virt, w), flags) else old(LookupOf(w))
      {
        NthFrame(phys, i, pages);
        TablesMono(old(mem), root, virt, i + 1, pages);
        MadeOutcome(virt, i, true, old(mem), old(earlyOffset));
        status := MapPage(virt, i, phys + i * PAGE, flags, true, old(mem), old(earlyOffset));
        if status != Success {
          MadeOutcome(virt, i + 1, false, old(mem), old(earlyOffset));
          var j := 0;
          while j < i
            invariant 0 <= j <= i
            invariant Valid()
            invariant forall w ::
              (RangeIndex(virt, w) < j ==> LookupOf(w) == 0)
              && (j <= RangeIndex(virt, w) < i ==> LookupOf(w) == NthEntry(phys, RangeIndex(virt, w), flags))
              && (i <= RangeIndex(virt, w) ==> LookupOf(w) == old(LookupOf(w)))
          {
            var _ := Unmap(Nth(virt, j));
            forall w ensures PageOf(w) == PageOf(Nth(virt, j)) <==> RangeIndex(virt, w) == j { RangeIndexIs(virt, j, w); }
            j := j + 1;
          }
          return;
        }
        i := i + 1;
        k := i;
      }
      MadeOutcome(virt, pages, true, old(mem), old(earlyOffset));
      status := Success;
    }

    /** The entry of page i of a range mapped to the frames from phys on. */
    static ghost function NthEntry(phys: nat, i: nat, flags: Flags): nat {
      if Frame(phys + i * PAGE) && flags.Ok() then Effective(phys + i * PAGE, flags) else 0
    }

    static lemma NthFrame(phys: nat, i: nat, pages: nat)
      requires Frame(phys) && i < pages && phys + pages * PAGE <= 0x10_0000_0000_0000
      ensures Frame(phys + i * PAGE)
    {}

    // ----- ranges backed by frames -----

    /** The frames that translate and freePage give back for pages with these flags: none if
        they are no-execute, because that bit is then part of the address translated. */
    static ghost function Given(frames: seq<nat>, flags: Flags): seq<nat> {
      if flags.noExecute then [] else frames
    }

    /** The others stay in use for good. */
    static ghost function Leaked(frames: seq<nat>, flags: Flags): seq<nat> {
      if flags.noExecute then frames else []
    }

    /** Freeing what translate gives for frame f. */
    static lemma FreedPage(s: seq<bool>, f: nat, flags: Flags)
      requires 0 < f < 0x100_0000_0000 && f < |s| <= 0x100_0000_0007 && s[f]
      ensures var phys := f * PAGE + if flags.noExecute then 0x8000_0000_0000_0000 else 0;
        && phys != 0 && FreeIn(s, phys / PAGE, 1) == 0
        && SetRange(s, phys / PAGE, 1, false) == (if flags.noExecute then s else s[f := false])
        && CountFree(SetRange(s, phys / PAGE, 1, false)) == CountFree(s) + |Given([f], flags)|
    {
      hide CountFree, FreeIn;
      var phys := f * PAGE + if flags.noExecute then 0x8000_0000_0000_0000 else 0;
      if flags.noExecute {
        assert phys / PAGE == f + 0x8_0000_0000_0000;
        UsedRunCount(s, phys / PAGE, 1);
        assert SetRange(s, phys / PAGE, 1, false) == s;
      } else {
        FrameOf(f);
        FreeOne(s, f);
        assert SetRange(s, f, 1, false) == s[f := false];
      }
    }

    /** Frame numbers that are in use, none twice, within what entries can hold. */
    static ghost predicate Frames(s: seq<bool>, total: nat, frames: seq<nat>) {
      && total <= |s| && total <= 0x100_0000_0000
      && (forall i :: 0 <= i < |frames| ==> 0 < frames[i] < total && s[frames[i]])
      && (forall i, j :: 0 <= i < j < |frames| ==> frames[i] != frames[j])
    }

    /** The address of frame number f is a frame, and not null. */
    static lemma FrameOf(f: nat)
      requires 0 < f < 0x100_0000_0000
      ensures Frame(f * PAGE) && f * PAGE != 0 && f * PAGE / PAGE == f
    {}

    /** One turn of the rollback in VMM::allocate. It frees what translate says, so page 0 if
        the page was not mapped; `complete` says that it was, to frame f. */
    method RollbackPage(v: nat, ghost f: nat, flags: Flags, ghost complete: bool)
      requires Valid() && pmm.bitmap.Length > 0
      requires complete ==> pmm.Valid() && flags.Ok() && flags.Present() && 0 < f < pmm.totalPages <= 0x100_0000_0000
      requires complete ==> v % PAGE == 0 && LookupOf(v) == MakeEntry(f * PAGE, flags) && pmm.Pages()[f]
      modifies `mem, pmm.bitmap, pmm`freePages, pmm`freeMemory
      ensures Valid()
      ensures forall w :: LookupOf(w) == if PageOf(w) == PageOf(v) then 0 else old(LookupOf(w))
      ensures complete ==>
        && pmm.Valid() && pmm.Pages() == (if flags.noExecute then old(pmm.Pages()) else old(pmm.Pages())[f := false])
        && pmm.freePages == old(pmm.freePages) + |Given([f], flags)|
      ensures old(LookupOf(v)) == 0 || !old(pmm.Pages()[0]) ==> !pmm.Pages()[0]
    {
      hide PageOf, Lookup, Tree, MakeEntry, Target, Marks, CountFree, FreeIn, Given;
      if complete {
        FrameOf(f);
        TargetOfEntry(f * PAGE, flags);
        FreedPage(pmm.Pages(), f, flags);
      }
      var phys := Translate(v);
      var _ := Unmap(v);
      pmm.FreePage(phys);
      if complete { KeptPage(old(pmm.Pages()), f, flags); }
    }

    static lemma KeptPage(s: seq<bool>, f: nat, flags: Flags)
      requires 0 < f < |s|
      ensures var r := if flags.noExecute then s else s[f := false];
        |r| == |s| && r[0] == s[0] && forall p :: 0 <= p < |s| && p != f ==> r[p] == s[p]
    {}

    /** The rollback of VMM::allocate over the first n pages of a range. If one of them is
        not mapped, page 0 ends up free although it was never taken. */
    method Rollback(addr: nat, n: nat, ghost frames: seq<nat>, flags: Flags, ghost complete: bool, ghost missing: nat,
                    ghost mem0: Memory)
      requires Valid() && pmm.bitmap.Length > 0 && n == |frames| <= PAGES
      requires complete && n > 0 ==> flags.Ok() && flags.Present()
      requires complete ==> pmm.Valid() && addr % PAGE == 0 && Frames(pmm.Pages(), pmm.totalPages, frames)
      requires Progress(addr, n, frames, flags, complete, missing, mem0)
      modifies `mem, pmm.bitmap, pmm`freePages, pmm`freeMemory
      ensures Valid()
      ensures forall w :: LookupOf(w) == if RangeIndex(addr, w) < n then 0 else Lookup(mem0, root, w)
      ensures complete ==> pmm.Valid()
      ensures complete ==> pmm.Pages() == SetAll(old(pmm.Pages()), Given(frames, flags), false)
      ensures complete ==> pmm.freePages == old(pmm.freePages) + |Given(frames, flags)|
      ensures !complete ==> !pmm.Pages()[0]
    {
      hide PageOf, RangeIndex, Lookup, Tree, Nth, MakeEntry, Target, Marks, CountFree;
      ghost var s := pmm.Pages();
      var j := 0;
      assert SetAll(s, frames[..0], false) == s;
      assert SetAll(s, [], false) == s;
      while j < n
        invariant 0 <= j <= n && Valid()
        invariant complete ==> pmm.Valid() && pmm.freePages == old(pmm.freePages) + |Given(frames[..j], flags)|
        invariant complete ==> pmm.Pages() == SetAll(s, Given(frames[..j], flags), false)
        invariant forall w :: LookupOf(w) == if RangeIndex(addr, w) < j then 0 else old(LookupOf(w))
        invariant !complete && j > missing ==> !pmm.Pages()[0]
      {
        forall w ensures PageOf(w) == PageOf(Nth(addr, j)) <==> RangeIndex(addr, w) == j { RangeIndexIs(addr, j, w); }
        if complete {
          NthAligned(addr, j);
          SetOneMore(s, frames[..j], frames[j], false);
          assert frames[..j] + [frames[j]] == frames[..j + 1];
          assert frames[j] !in frames[..j];
          assert Backing(frames, flags, j) == MakeEntry(frames[j] * PAGE, flags) by { FrameOf(frames[j]); }
        }
        RollbackPage(Nth(addr, j), frames[j], flags, complete);
        j := j + 1;
      }
      assert frames[..n] == frames;
    }

    static lemma NthAligned(addr: nat, j: nat)
      requires addr % PAGE == 0
      ensures Nth(addr, j) % PAGE == 0
    {}

    /** The entry of page i of a range backed by the given frames. */
    static ghost function Backing(frames: seq<nat>, flags: Flags, i: nat): nat {
      if i < |frames| && Frame(frames[i] * PAGE) && flags.Ok() then MakeEntry(frames[i] * PAGE, flags) else 0
    }

    /** After n pages of a range: the others are as in mem0, and those n are mapped to the
        frames if all went well, and otherwise one of them is not mapped. */
    ghost predicate Progress(addr: nat, n: nat, frames: seq<nat>, flags: Flags, complete: bool, missing: nat, mem0: Memory)
      reads `mem
    {
      && (forall w :: RangeIndex(addr, w) >= n ==> LookupOf(w) == Lookup(mem0, root, w))
      && (complete ==> forall w :: RangeIndex(addr, w) < n ==> LookupOf(w) == Backing(frames, flags, RangeIndex(addr, w)))
      && (!complete ==> missing < n && forall w :: RangeIndex(addr, w) == missing ==> LookupOf(w) == 0)
    }

    /** After n pages of a range: all of them were mapped exactly if the early pages lasted,
        and then the tables made are those needed, and what the others lack is known. */
    ghost predicate Made(addr: nat, n: nat, complete: bool, mem0: Memory, offset0: nat)
      reads `mem, `earlyOffset
    {
      && (complete <==> offset0 + PAGE * TablesNeeded(mem0, root, addr, n) <= EARLY)
      && (complete ==> earlyOffset == offset0 + PAGE * TablesNeeded(mem0, root, addr, n))
      && (complete ==> Lacking(addr, n, mem0, mem))
    }

    /** What the walks to later pages lack, once n pages of a range are mapped. */
    ghost predicate Lacking(addr: nat, n: nat, mem0: Memory, mem1: Memory) {
      forall w :: RangeIndex(addr, w) >= n ==>
        Missing(mem1, root, 4, w) == Min(Missing(mem0, root, 4, w), Near(addr, n, w))
    }

    lemma MadeNone(addr: nat)
      requires Valid()
      ensures Made(addr, 0, true, mem, earlyOffset)
    {}

    /** What page i needs, once the pages before it have their tables. */
    lemma NeededNext(addr: nat, i: nat, mem0: Memory, mem1: Memory)
      requires Lacking(addr, i, mem0, mem1) && i < PAGES
      ensures TablesNeeded(mem0, root, addr, i + 1)
           == TablesNeeded(mem0, root, addr, i) + Missing(mem1, root, 4, Nth(addr, i))
    {
      hide RangeIndex, Nth, Missing, Near;
      NthIndex(addr, i);
    }

    /** Page i mapped. */
    lemma LackingNext(addr: nat, i: nat, mem0: Memory, mem1: Memory, mem2: Memory)
      requires Lacking(addr, i, mem0, mem1) && i < PAGES && addr < U64
      requires forall w :: Missing(mem2, root, 4, w) == Min(Missing(mem1, root, 4, w), Apart(Nth(addr, i), w))
      ensures Lacking(addr, i + 1, mem0, mem2)
    {
      hide RangeIndex, Nth, Missing, Near, Apart;
      forall w | RangeIndex(addr, w) >= i + 1
        ensures Missing(mem2, root, 4, w) == Min(Missing(mem0, root, 4, w), Near(addr, i + 1, w))
      {
        NearMore(addr, i, w);
      }
    }

    static lemma NearMore(addr: nat, i: nat, w: nat)
      requires RangeIndex(addr, w) > i && addr < U64
      ensures Near(addr, i + 1, w) == Min(Near(addr, i, w), Apart(Nth(addr, i), w))
    {
      hide RangeIndex, Apart, Index;
      if i > 0 { NearNext(addr, i, w); }
    }

    /** Maps page i of a range, with an account of the tables it takes. */
    method MapPage(addr: nat, i: nat, phys: nat, flags: Flags, ghost complete: bool, ghost mem0: Memory, ghost offset0: nat)
      returns (status: Status)
      requires Valid() && Frame(phys) && flags.Ok() && i < PAGES && addr < U64
      requires Made(addr, i, complete, mem0, offset0)
      modifies `mem, `level, `earlyOffset
      ensures Valid() && status != NotFound
      ensures Made(addr, i + 1, complete && status == Success, mem0, offset0)
      ensures status == OutOfMemory ==> forall w :: LookupOf(w) == old(LookupOf(w))
      ensures status == Success ==>
        forall w :: LookupOf(w) == if RangeIndex(addr, w) == i then Effective(phys, flags) else old(LookupOf(w))
    {
      hide PageOf, RangeIndex, Lookup, Tree, Nth, MakeEntry, Target, Descend, Missing, Apart, TablesNeeded, Near, Lacking;
      TablesMono(mem0, root, addr, i, i + 1);
      ghost var mem1 := mem;
      if complete { NeededNext(addr, i, mem0, mem); }
      status := Map(Nth(addr, i), phys, flags);
      forall w ensures PageOf(w) == PageOf(Nth(addr, i)) <==> RangeIndex(addr, w) == i { RangeIndexIs(addr, i, w); }
      if complete && status == Success { LackingNext(addr, i, mem0, mem1, mem); }
    }

    /** Maps page i of a range, whatever the outcome: `fits` says that the early pages lasted,
        and `complete` that besides the page is present. */
    method MapNext(addr: nat, i: nat, phys: nat, flags: Flags, ghost frames: seq<nat>, ghost fits: bool, ghost complete: bool,
                   ghost missing: nat, ghost mem0: Memory, ghost offset0: nat)
      returns (ghost fits': bool, ghost complete': bool, ghost missing': nat)
      requires Valid() && flags.Ok() && i < PAGES && |frames| == i && phys == phys / PAGE * PAGE && Frame(phys)
      requires Progress(addr, i, frames, flags, complete, missing, mem0) && (complete ==> fits)
      requires Made(addr, i, fits, mem0, offset0) && addr < U64
      requires forall w :: RangeIndex(addr, w) == i ==> Lookup(mem0, root, w) == 0
      modifies `mem, `level, `earlyOffset
      ensures Valid() && (fits' ==> fits) && (complete' <==> complete && fits' && flags.Present())
      ensures Progress(addr, i + 1, frames + [phys / PAGE], flags, complete', missing', mem0)
      ensures Made(addr, i + 1, fits', mem0, offset0)
    {
      hide PageOf, RangeIndex, Lookup, Tree, Nth, MakeEntry, Target, Backing, Made;
      var status := MapPage(addr, i, phys, flags, fits, mem0, offset0);
      if flags.Present() { BackingMore(frames, flags, phys / PAGE); }
      fits' := fits && status == Success;
      complete', missing' := complete && fits' && flags.Present(), if complete then i else missing;
    }

    /** The listed frames, free in s, are those taken since. */
    ghost predicate Taken(s: seq<bool>, frames: seq<nat>)
      reads pmm, pmm.bitmap
    {
      Frames(pmm.Pages(), pmm.totalPages, frames) && AllFree(s, frames) && pmm.Pages() == SetAll(s, frames, true)
    }

    /** One frame more, if there is one. */
    method TakeFrame(ghost s: seq<bool>, ghost frames: seq<nat>) returns (phys: nat)
      requires pmm.Valid() && pmm.totalPages <= 0x100_0000_0000 && Taken(s, frames)
      modifies pmm.bitmap, pmm`freePages, pmm`freeMemory
      ensures pmm.Valid() && (phys == 0 <==> old(pmm.freePages) == 0)
      ensures phys == 0 ==> pmm.Pages() == old(pmm.Pages()) && pmm.freePages == 0
      ensures phys != 0 ==> Taken(s, frames + [phys / PAGE]) && pmm.freePages == old(pmm.freePages) - 1
      ensures phys != 0 ==> Frame(phys) && phys == phys / PAGE * PAGE
    {
      hide Marks, CountFree, Frames, AllFree;
      phys := pmm.AllocatePage();
      if phys != 0 {
        OneMoreFrame(s, pmm.totalPages, frames, phys / PAGE);
        FrameOf(phys / PAGE);
      }
    }

    /** VMM::allocate. Complete, it is `pages` free frames mapped behind one another, or 0 if
        there are too few frames, and then everything is as before but for the address
        counter and, with no-execute, for the frames that had been taken, which stay in use.
        It is complete exactly when the early pages that are left suffice for the tables that
        the pages got need, and these are mapped as present: the status of `map` is not looked
        at, and otherwise an unmapped page is handed out, or page 0 is freed. */
    method Allocate(size: nat, flags: Flags) returns (addr: nat, ghost frames: seq<nat>, ghost complete: bool)
      requires Valid() && pmm.Valid() && pmm.totalPages <= 0x100_0000_0000 && flags.Ok()
      requires PageCount(size) <= PAGES && nextVirtualAddress != 0
      requires forall w :: RangeIndex(nextVirtualAddress, w) < PageCount(size) ==> LookupOf(w) == 0
      modifies `mem, `level, `earlyOffset, `nextVirtualAddress, pmm.bitmap, pmm`freePages, pmm`freeMemory
      ensures Valid() && (complete ==> pmm.Valid())
      ensures complete <==>
        old(earlyOffset + PAGE * RangeNeeds(PageCount(size))) <= EARLY
        && (flags.Present() || Min(PageCount(size), CountFree(old(pmm.Pages()))) == 0)
      ensures |frames| == Min(PageCount(size), CountFree(old(pmm.Pages()))) && AllFree(old(pmm.Pages()), frames)
      ensures nextVirtualAddress == Nth(old(nextVirtualAddress), PageCount(size))
      ensures addr == 0 <==> CountFree(old(pmm.Pages())) < PageCount(size)
      ensures complete && addr == 0 ==>
        && pmm.Pages() == SetAll(old(pmm.Pages()), Leaked(frames, flags), true)
        && pmm.freePages == old(pmm.freePages) - |Leaked(frames, flags)|
      ensures addr == 0 ==> forall w :: LookupOf(w) == old(LookupOf(w))
      ensures addr != 0 ==> addr == old(nextVirtualAddress) && Frames(pmm.Pages(), pmm.totalPages, frames)
      ensures addr != 0 ==> pmm.Valid() && pmm.Pages() == SetAll(old(pmm.Pages()), frames, true)
      ensures addr != 0 ==> pmm.freePages == old(pmm.freePages) - PageCount(size)
      ensures complete && addr != 0 ==> forall w ::
        LookupOf(w) == if RangeIndex(addr, w) < |frames| then Backing(frames, flags, RangeIndex(addr, w)) else old(LookupOf(w))
      ensures !complete && addr != 0 ==> exists i :: 0 <= i < PageCount(size) && LookupOf(Nth(addr, i)) == 0
      ensures !complete && addr == 0 ==> !pmm.Pages()[0]
    {
      hide PageOf, RangeIndex, Lookup, Tree, Nth, MakeEntry, Target, Marks, CountFree, Backing, PageCount;
      hide Frames, AllFree, Progress, Frame, Made, TablesNeeded, Given, Leaked;
      NoFrames(pmm.Pages(), pmm.totalPages);
      var pages := PageCount(size);
      addr := nextVirtualAddress;
      NthStart(addr, pages);
      nextVirtualAddress := Nth(addr, pages);
      Begin(addr, flags);
      MadeNone(addr);
      ghost var s := pmm.Pages();
      frames, complete := [], true;
      ghost var missing: nat, fits: bool := 0, true;
      SetOneMore(s, [], 0, true);
      var i := 0;
      while i < pages
        invariant 0 <= i <= pages && |frames| == i
        invariant Valid() && pmm.Valid() && nextVirtualAddress == Nth(addr, pages)
        invariant Made(addr, i, fits, old(mem), old(earlyOffset)) && (complete <==> fits && (flags.Present() || i == 0))
        invariant Taken(s, frames) && pmm.freePages == old(pmm.freePages) - i
        invariant Progress(addr, i, frames, flags, complete, missing, old(mem))
      {
        var phys := TakeFrame(s, frames);
        if phys == 0 {
          MadeOutcome(addr, i, fits, old(mem), old(earlyOffset));
          TakenFree(s, frames);
          Rollback(addr, i, frames, flags, complete, missing, old(mem));
          TakenBack(s, frames, flags);
          return 0, frames, complete;
        }
        fits, complete, missing := MapNext(addr, i, phys, flags, frames, fits, complete, missing, old(mem), old(earlyOffset));
        frames := frames + [phys / PAGE];
        i := i + 1;
      }
      MadeOutcome(addr, pages, fits, old(mem), old(earlyOffset));
      TakenFree(s, frames);
      Outcome(addr, pages, frames, flags, complete, missing, old(mem));
    }

    /** The tables that allocate makes for n pages: for those of them that get a frame. */
    ghost function RangeNeeds(n: nat): nat
      reads `mem, `nextVirtualAddress, pmm, pmm.bitmap
    {
      TablesNeeded(mem, root, nextVirtualAddress, Min(n, CountFree(pmm.Pages())))
    }

    lemma MadeOutcome(addr: nat, n: nat, complete: bool, mem0: Memory, offset0: nat)
      requires Made(addr, n, complete, mem0, offset0)
      ensures complete <==> offset0 + PAGE * TablesNeeded(mem0, root, addr, n) <= EARLY
      ensures complete ==> earlyOffset == offset0 + PAGE * TablesNeeded(mem0, root, addr, n)
    {}

    lemma Begin(addr: nat, flags: Flags)
      ensures Progress(addr, 0, [], flags, true, 0, mem)
    {
      hide RangeIndex, Lookup, Backing;
    }

    /** What the outcome says about the range. */
    lemma Outcome(addr: nat, n: nat, frames: seq<nat>, flags: Flags, complete: bool, missing: nat, mem0: Memory)
      requires Progress(addr, n, frames, flags, complete, missing, mem0) && n <= PAGES
      ensures complete ==> forall w ::
        LookupOf(w) == if RangeIndex(addr, w) < n then Backing(frames, flags, RangeIndex(addr, w)) else Lookup(mem0, root, w)
      ensures !complete ==> exists i :: 0 <= i < n && LookupOf(Nth(addr, i)) == 0
    {
      hide Lookup, RangeIndex, Nth, Backing;
      if !complete { NthIndex(addr, missing); }
    }

    static lemma NoFrames(s: seq<bool>, total: nat)
      requires total <= |s| && total <= 0x100_0000_0000
      ensures Frames(SetAll(s, [], true), total, []) && AllFree(s, []) && SetAll(s, [], true) == s
    {
      assert SetAll(s, [], true) == s;
    }

    static lemma TakenBack(s: seq<bool>, frames: seq<nat>, flags: Flags)
      requires AllFree(s, frames)
      ensures SetAll(SetAll(s, frames, true), Given(frames, flags), false) == SetAll(s, Leaked(frames, flags), true)
      ensures |Given(frames, flags)| + |Leaked(frames, flags)| == |frames|
    {
      SetAllBack(s, frames);
      assert SetAll(SetAll(s, frames, true), [], false) == SetAll(s, frames, true) && SetAll(s, [], true) == s;
    }

    lemma TakenFree(s: seq<bool>, frames: seq<nat>)
      requires Taken(s, frames)
      ensures AllFree(s, frames)
    {}

    static lemma NthStart(addr: nat, pages: nat)
      requires addr % PAGE == 0 && addr < U64
      ensures Nth(addr, 0) == addr && Nth(addr, pages) < U64 && Nth(addr, pages) % PAGE == 0
    {}

    static lemma NthIndex(addr: nat, i: nat)
      requires i < PAGES
      ensures RangeIndex(addr, Nth(addr, i)) == i
    {
      hide RangeIndex, PageOf, Nth;
      RangeIndexIs(addr, i, Nth(addr, i));
    }

    static ghost predicate AllFree(s: seq<bool>, frames: seq<nat>) {
      forall f :: f in frames ==> f < |s| && !s[f]
    }

    static lemma OneMoreFrame(s: seq<bool>, total: nat, frames: seq<nat>, f: nat)
      requires Frames(SetAll(s, frames, true), total, frames) && AllFree(s, frames)
      requires 0 < f < total && !SetAll(s, frames, true)[f]
      ensures SetAll(s, frames, true)[f := true] == SetAll(s, frames + [f], true)
      ensures Frames(SetAll(s, frames + [f], true), total, frames + [f]) && AllFree(s, frames + [f])
    {
      SetOneMore(s, frames, f, true);
    }

    static lemma BackingMore(frames: seq<nat>, flags: Flags, f: nat)
      requires Frame(f * PAGE) && flags.Ok() && flags.Present()
      ensures forall i: nat :: i < |frames| ==> Backing(frames + [f], flags, i) == Backing(frames, flags, i)
      ensures Backing(frames + [f], flags, |frames|) == Effective(f * PAGE, flags)
    {}

    /** The listed frames without the zeroes, which stand for pages that are not mapped. */
    static ghost function Held(frames: seq<nat>): seq<nat> {
      if frames == [] then []
      else
        var n := |frames| - 1;
        Held(frames[..n]) + if frames[n] == 0 then [] else [frames[n]]
    }

    static lemma HeldNone(frames: seq<nat>)
      ensures Held(frames[..0]) == []
    {}

    static lemma {:induction false} HeldAll(frames: seq<nat>)
      requires forall i :: 0 <= i < |frames| ==> frames[i] != 0
      ensures Held(frames) == frames
    {
      if frames != [] {
        var n := |frames| - 1;
        HeldAll(frames[..n]);
        assert frames[..n] + [frames[n]] == frames;
      }
    }

    static lemma HeldSnoc(frames: seq<nat>, j: nat)
      requires j < |frames|
      ensures Held(frames[..j + 1]) == Held(frames[..j]) + if frames[j] == 0 then [] else [frames[j]]
    {
      assert frames[..j + 1][..j] == frames[..j];
    }

    static lemma {:induction false} HeldPrefix(frames: seq<nat>, j: nat)
      requires j <= |frames|
      ensures Held(frames[..j]) <= Held(frames)
      decreases |frames|
    {
      if j < |frames| {
        var n := |frames| - 1;
        HeldPrefix(frames[..n], j);
        assert frames[..n][..j] == frames[..j];
      } else {
        assert frames[..j] == frames;
      }
    }

    /** The next page of a range in VMM::free: its frame, if it has one, is not one before. */
    static lemma HeldNext(s: seq<bool>, total: nat, frames: seq<nat>, j: nat)
      requires Frames(s, total, Held(frames)) && j < |frames|
      ensures Held(frames[..j + 1]) == Held(frames[..j]) + if frames[j] == 0 then [] else [frames[j]]
      ensures total <= |s| && total <= 0x100_0000_0000
      ensures frames[j] != 0 ==> 0 < frames[j] < total && s[frames[j]] && frames[j] !in Held(frames[..j])
    {
      hide Held, Frames;
      HeldSnoc(frames, j);
      FramesBound(s, total, Held(frames));
      if frames[j] != 0 {
        HeldPrefix(frames, j + 1);
        LastApart(s, total, Held(frames), Held(frames[..j + 1]));
      }
    }

    static lemma FramesBound(s: seq<bool>, total: nat, frames: seq<nat>)
      requires Frames(s, total, frames)
      ensures total <= |s| && total <= 0x100_0000_0000
    {}

    /** Of a range whose pages are all mapped. */
    static lemma AllHeld(s: seq<bool>, total: nat, frames: seq<nat>, flags: Flags)
      requires Frames(s, total, frames)
      ensures Held(frames) == frames
      ensures forall i :: 0 <= i < |frames| ==> Backed(frames[i], flags) == Backing(frames, flags, i)
    {
      hide Held;
      HeldAll(frames);
    }

    static lemma LastApart(s: seq<bool>, total: nat, frames: seq<nat>, first: seq<nat>)
      requires Frames(s, total, frames) && first <= frames && first != []
      ensures var f, n := first[|first| - 1], |first| - 1;
        0 < f < total && s[f] && f !in first[..n]
    {
      var n := |first| - 1;
      assert first[n] == frames[n];
      forall i | 0 <= i < n ensures first[i] != first[n] { assert first[i] == frames[i]; }
    }

    /** Unmaps one page and frees its frame f, as VMM::free does; 0 if it is not mapped. */
    method ReleasePage(v: nat, ghost f: nat, flags: Flags)
      requires Valid() && pmm.Valid() && flags.Ok() && f < pmm.totalPages <= 0x100_0000_0000
      requires f != 0 ==> flags.Present()
      requires v % PAGE == 0 && LookupOf(v) == Backed(f, flags) && (f != 0 ==> pmm.Pages()[f])
      modifies `mem, pmm.bitmap, pmm`freePages, pmm`freeMemory
      ensures Valid() && pmm.Valid()
      ensures forall w :: LookupOf(w) == if PageOf(w) == PageOf(v) then 0 else old(LookupOf(w))
      ensures f != 0 && !flags.noExecute ==> pmm.Pages() == old(pmm.Pages())[f := false] && pmm.freePages == old(pmm.freePages) + 1
      ensures f == 0 || flags.noExecute ==> pmm.Pages() == old(pmm.Pages()) && pmm.freePages == old(pmm.freePages)
    {
      hide PageOf, Lookup, Tree, MakeEntry, Target, Marks, CountFree, FreeIn;
      if f != 0 {
        FrameOf(f);
        TargetOfEntry(f * PAGE, flags);
        FreedPage(pmm.Pages(), f, flags);
      }
      var phys := Translate(v);
      if phys != 0 {
        var _ := Unmap(v);
        pmm.FreePage(phys);
        if f != 0 { KeptPage(old(pmm.Pages()), f, flags); }
      } else {
        SameLookup(v);
      }
    }

    /** The entry of a page backed by frame f, or by none if f is 0. */
    static ghost function Backed(f: nat, flags: Flags): nat {
      if f == 0 then 0 else Backing([f], flags, 0)
    }

    /** VMM::free: the pages of the range are unmapped and the frames of those that were
        mapped are given back, unless they were no-execute; the others are skipped. */
    method Free(addr: nat, size: nat, ghost frames: seq<nat>, flags: Flags)
      requires Valid() && pmm.Valid() && flags.Ok() && flags.Present()
      requires addr % PAGE == 0 && PageCount(size) == |frames| <= PAGES
      requires Frames(pmm.Pages(), pmm.totalPages, Held(frames))
      requires forall w :: RangeIndex(addr, w) < |frames| ==> LookupOf(w) == Backed(frames[RangeIndex(addr, w)], flags)
      modifies `mem, pmm.bitmap, pmm`freePages, pmm`freeMemory
      ensures Valid() && pmm.Valid()
      ensures forall w :: LookupOf(w) == if RangeIndex(addr, w) < |frames| then 0 else old(LookupOf(w))
      ensures pmm.Pages() == SetAll(old(pmm.Pages()), Given(Held(frames), flags), false)
      ensures pmm.freePages == old(pmm.freePages) + |Given(Held(frames), flags)|
    {
      hide PageOf, RangeIndex, Lookup, Tree, Nth, MakeEntry, Target, Marks, CountFree, PageCount, Held, Frames, Backed;
      ghost var s, total := pmm.Pages(), pmm.totalPages;
      var pages := PageCount(size);
      var j := 0;
      HeldNone(frames);
      assert SetAll(s, [], false) == s;
      while j < pages
        invariant 0 <= j <= pages
        invariant Valid() && pmm.Valid() && pmm.freePages == old(pmm.freePages) + |Given(Held(frames[..j]), flags)|
        invariant pmm.Pages() == SetAll(s, Given(Held(frames[..j]), flags), false)
        invariant forall w :: LookupOf(w) == if RangeIndex(addr, w) < j then 0 else old(LookupOf(w))
      {
        forall w ensures PageOf(w) == PageOf(Nth(addr, j)) <==> RangeIndex(addr, w) == j { RangeIndexIs(addr, j, w); }
        NthAligned(addr, j);
        HeldNext(s, total, frames, j);
        SetOneMore(s, Held(frames[..j]), frames[j], false);
        ReleasePage(Nth(addr, j), frames[j], flags);
        j := j + 1;
      }
      assert frames[..pages] == frames;
    }

    /** allocate followed by free restores every lookup. It restores the page bitmap and its
        count if and only if the pages are not no-execute, or none was got. */
    method AllocateThenFree(size: nat, flags: Flags)
      requires Valid() && pmm.Valid() && pmm.totalPages <= 0x100_0000_0000 && flags.Ok() && flags.Present()
      requires PageCount(size) <= PAGES && earlyOffset + PAGE * RangeNeeds(PageCount(size)) <= EARLY
      requires nextVirtualAddress != 0
      requires forall w :: RangeIndex(nextVirtualAddress, w) < PageCount(size) ==> LookupOf(w) == 0
      modifies `mem, `level, `earlyOffset, `nextVirtualAddress, pmm.bitmap, pmm`freePages, pmm`freeMemory
      ensures Valid() && pmm.Valid()
      ensures forall w :: LookupOf(w) == old(LookupOf(w))
      ensures pmm.Pages() == old(pmm.Pages()) <==>
        !flags.noExecute || Min(PageCount(size), CountFree(old(pmm.Pages()))) == 0
      ensures pmm.freePages == old(pmm.freePages)
        - if flags.noExecute then Min(PageCount(size), CountFree(old(pmm.Pages()))) else 0
    {
      hide PageOf, RangeIndex, Lookup, Tree, Nth, MakeEntry, Marks, CountFree, Backing, Backed, PageCount, Frames, Held, AllFree;
      ghost var s := pmm.Pages();
      var addr;
      ghost var frames, complete;
      addr, frames, complete := Allocate(size, flags);
      LeakedShows(s, frames);
      SetAllNone(s);
      if addr != 0 {
        AllHeld(pmm.Pages(), pmm.totalPages, frames, flags);
        Free(addr, size, frames, flags);
        TakenBack(s, frames, flags);
      }
    }

    static lemma SetAllNone(s: seq<bool>)
      ensures SetAll(s, [], true) == s
    {
      assert SetAll(s, [], true) == s;
    }

    static lemma LeakedShows(s: seq<bool>, frames: seq<nat>)
      requires AllFree(s, frames)
      ensures SetAll(s, frames, true) == s <==> frames == []
    {
      if frames != [] { assert frames[0] in frames; }
      assert SetAll(s, [], true) == s;
    }
  }
}
