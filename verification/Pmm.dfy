/** The physical page allocator: a bitmap with one bit per page, set when in use. */
module Pmm {
  import opened Machine

  // ----- bits of a byte -----

  /** `1 << k` */
  function Mask(k: nat): bv8
    requires k < 8
  {
    match k
    case 0 => 1
    case 1 => 2
    case 2 => 4
    case 3 => 8
    case 4 => 16
    case 5 => 32
    case 6 => 64
    case _ => 128
  }

  /** The lowest bit first, each next one twice the one before. */
  lemma MaskDoubles(k: nat)
    requires k < 7
    ensures Mask(0) == 1 && Mask(k + 1) == Mask(k) << 1
  {}

  predicate Bit(b: bv8, k: nat)
    requires k < 8
  {
    b & Mask(k) != 0
  }

  lemma BitOps(b: bv8, k: nat, j: nat)
    requires k < 8 && j < 8
    ensures Bit(b | Mask(k), j) == (j == k || Bit(b, j))
    ensures Bit(b & !Mask(k), j) == (j != k && Bit(b, j))
    ensures b == 0xFF ==> Bit(b, j)
  {}

  function Marked(b: bv8, k: nat, used: bool): bv8
    requires k < 8
  {
    if used then b | Mask(k) else b & !Mask(k)
  }

  lemma MarkedBits(b: bv8, k: nat, used: bool, j: nat)
    requires k < 8 && j < 8
    ensures Bit(Marked(b, k, used), j) == if j == k then used else Bit(b, j)
  {
    BitOps(b, k, j);
  }

  // ----- the bitmap as a sequence of marks -----

  function Marks(bitmap: seq<bv8>): (s: seq<bool>)
    ensures |s| == 8 * |bitmap|
  {
    seq(8 * |bitmap|, p requires 0 <= p < 8 * |bitmap| => Bit(bitmap[p / 8], p % 8))
  }

  /** Changing bit p%8 of byte p/8 changes the mark of page p and no other. */
  lemma MarkSet(bitmap: seq<bv8>, p: nat, b: bv8, v: bool)
    requires p < 8 * |bitmap|
    requires forall k :: 0 <= k < 8 ==> Bit(b, k) == if k == p % 8 then v else Bit(bitmap[p / 8], k)
    ensures Marks(bitmap[p / 8 := b]) == Marks(bitmap)[p := v]
  {
    hide Bit;
    var l, r := Marks(bitmap[p / 8 := b]), Marks(bitmap)[p := v];
    forall q | 0 <= q < |l| ensures l[q] == r[q] {
      if q / 8 == p / 8 { assert l[q] == Bit(b, q % 8); }
    }
  }

  /** How many pages are free. */
  function CountFree(s: seq<bool>): nat {
    if s == [] then 0 else (if s[0] then 0 else 1) + CountFree(s[1..])
  }

  lemma {:induction false} CountUpdate(s: seq<bool>, p: nat, v: bool)
    requires p < |s|
    ensures CountFree(s[p := v]) == CountFree(s) + (if s[p] && !v then 1 else if !s[p] && v then -1 else 0)
  {
    if p == 0 {
      assert s[p := v][1..] == s[1..];
    } else {
      CountUpdate(s[1..], p - 1, v);
      assert s[p := v][1..] == s[1..][p - 1 := v];
    }
  }

  lemma {:induction false} CountNone(s: seq<bool>)
    requires forall p :: 0 <= p < |s| ==> s[p]
    ensures CountFree(s) == 0
  {
    if s != [] { CountNone(s[1..]); }
  }

  /** `n` pages from `start` on are free. */
  ghost predicate FreeRun(s: seq<bool>, start: nat, n: nat) {
    start + n <= |s| && forall p :: start <= p < start + n ==> !s[p]
  }

  /** The marks after setting pages [start, start+n), as far as they exist, to v. */
  function SetRange(s: seq<bool>, start: nat, n: nat, v: bool): (r: seq<bool>)
    ensures |r| == |s|
    ensures forall p :: 0 <= p < |s| ==> r[p] == if start <= p < start + n then v else s[p]
  {
    seq(|s|, p requires 0 <= p < |s| => if start <= p < start + n then v else s[p])
  }

  /** Free pages among [start, start+n). */
  function FreeIn(s: seq<bool>, start: nat, n: nat): nat {
    if n == 0 then 0
    else FreeIn(s, start, n - 1) + (if start + n - 1 < |s| && !s[start + n - 1] then 1 else 0)
  }

  /** Pages of [start, start+n) that the bitmap covers. */
  function Covered(s: seq<bool>, start: nat, n: nat): nat {
    if start >= |s| then 0 else if start + n <= |s| then n else |s| - start
  }

  lemma {:induction false} CountRange(s: seq<bool>, start: nat, n: nat, v: bool)
    ensures FreeIn(s, start, n) <= Covered(s, start, n)
    ensures CountFree(SetRange(s, start, n, v))
         == CountFree(s) - FreeIn(s, start, n) + (if v then 0 else Covered(s, start, n))
  {
    if n == 0 {
      assert SetRange(s, start, 0, v) == s;
    } else {
      CountRange(s, start, n - 1, v);
      var p := start + n - 1;
      if p < |s| {
        assert SetRange(s, start, n, v) == SetRange(s, start, n - 1, v)[p := v];
        CountUpdate(SetRange(s, start, n - 1, v), p, v);
      } else {
        assert SetRange(s, start, n, v) == SetRange(s, start, n - 1, v);
      }
    }
  }

  lemma {:induction false} FreeRunCount(s: seq<bool>, start: nat, n: nat)
    requires FreeRun(s, start, n)
    ensures FreeIn(s, start, n) == n == Covered(s, start, n)
  {
    if n > 0 { FreeRunCount(s, start, n - 1); }
  }

  lemma {:induction false} UsedRunCount(s: seq<bool>, start: nat, n: nat)
    requires forall p :: start <= p < start + n && p < |s| ==> s[p]
    ensures FreeIn(s, start, n) == 0
  {
    if n > 0 { UsedRunCount(s, start, n - 1); }
  }

  lemma FreeInNext(s: seq<bool>, start: nat, n: nat)
    ensures FreeIn(s, start, 0) == 0
    ensures FreeIn(s, start, n + 1) == FreeIn(s, start, n) + FreeIn(SetRange(s, start, n, false), start + n, 1)
  {}

  lemma FreeOne(s: seq<bool>, p: nat)
    requires p < |s| && s[p]
    ensures FreeIn(s, p, 1) == 0
    ensures CountFree(SetRange(s, p, 1, false)) == CountFree(s) + 1
  {
    UsedRunCount(s, p, 1);
    CountRange(s, p, 1, false);
  }

  /** The marks after setting the listed pages to v. */
  function SetAll(s: seq<bool>, pages: seq<nat>, v: bool): (r: seq<bool>)
    ensures |r| == |s|
    ensures forall p :: 0 <= p < |s| ==> r[p] == if p in pages then v else s[p]
  {
    seq(|s|, p requires 0 <= p < |s| => if p in pages then v else s[p])
  }

  lemma SetOneMore(s: seq<bool>, pages: seq<nat>, p: nat, v: bool)
    requires p < |s|
    ensures SetAll(s, pages, v)[p := v] == SetAll(s, pages + [p], v)
    ensures SetRange(SetAll(s, pages, v), p, 1, v) == SetAll(s, pages + [p], v)
    ensures SetAll(s, [], v) == s
  {
    assert SetAll(s, pages, v)[p := v] == SetAll(s, pages + [p], v);
    assert SetRange(SetAll(s, pages, v), p, 1, v) == SetAll(s, pages + [p], v);
    assert SetAll(s, [], v) == s;
  }

  /** Pages that were free, marked and unmarked again. */
  lemma SetAllBack(s: seq<bool>, pages: seq<nat>)
    requires forall p :: p in pages ==> p < |s| && !s[p]
    ensures SetAll(SetAll(s, pages, true), pages, false) == s
  {
    assert SetAll(SetAll(s, pages, true), pages, false) == s;
  }

  // ----- the memory map -----

  /** A region of the memory map: `available`, or in use for something else. */
  datatype Region = Region(base: nat, size: nat, available: bool) {
    predicate Ok() { base + size < U64 }

    /** Page p is one that markRegion takes for this region. */
    predicate Covers(p: nat) { base / PAGE <= p < base / PAGE + size / PAGE }
  }

  /** The highest end of an available region. */
  function HighestEnd(regions: seq<Region>): (r: nat)
    ensures forall x :: x in regions && x.available ==> x.base + x.size <= r
    ensures r == 0 || exists x :: x in regions && x.available && x.base + x.size == r
  {
    if regions == [] then 0
    else
      var n := |regions| - 1;
      var before, x := HighestEnd(regions[..n]), regions[n];
      assert regions == regions[..n] + [x];
      if x.available && x.base + x.size > before then x.base + x.size else before
  }

  /** The marks after the regions, and by how much the counter is then too large. */
  function MarkedBy(s: seq<bool>, regions: seq<Region>): (r: seq<bool>)
    ensures |r| == |s|
  {
    if regions == [] then s
    else
      var n := |regions| - 1;
      SetRange(MarkedBy(s, regions[..n]), regions[n].base / PAGE, regions[n].size / PAGE, !regions[n].available)
  }

  function Overcount(s: seq<bool>, regions: seq<Region>): nat {
    if regions == [] then 0
    else
      var n := |regions| - 1;
      Overcount(s, regions[..n]) + FreeIn(MarkedBy(s, regions[..n]), regions[n].base / PAGE, regions[n].size / PAGE)
  }

  /** An available region comes before another one and shares a page with it. */
  ghost predicate Overlap(regions: seq<Region>, pages: nat) {
    exists i, j, p: nat :: 0 <= i < j < |regions| && p < pages
      && regions[i].available && regions[i].Covers(p) && regions[j].Covers(p)
  }

  /** Starting with all pages marked, the counter is right at the end exactly when no
      region shares a page with an available one before it. */
  lemma {:induction false} OvercountIs(s: seq<bool>, regions: seq<Region>)
    requires forall p :: 0 <= p < |s| ==> s[p]
    ensures Overcount(s, regions) == 0 <==> !Overlap(regions, |s|)
  {
    if regions != [] {
      hide Overlap;
      var n := |regions| - 1;
      var before, x := regions[..n], regions[n];
      OvercountIs(s, before);
      FreeInIs(MarkedBy(s, before), x.base / PAGE, x.size / PAGE);
      OverlapLast(regions, |s|);
      if Overcount(s, before) == 0 {
        forall p: nat | p < |s| ensures !MarkedBy(s, before)[p] <==> Freed(before, p) {
          FreeExactly(s, before, p);
        }
      }
    }
  }

  /** An available region covers page p. */
  ghost predicate Freed(regions: seq<Region>, p: nat) {
    exists i :: 0 <= i < |regions| && regions[i].available && regions[i].Covers(p)
  }

  lemma OverlapLast(regions: seq<Region>, pages: nat)
    requires regions != []
    ensures var n := |regions| - 1;
      Overlap(regions, pages)
      <==> Overlap(regions[..n], pages) || exists p: nat :: p < pages && regions[n].Covers(p) && Freed(regions[..n], p)
  {
    hide Region.Covers;
    var n := |regions| - 1;
    var before := regions[..n];
    if Overlap(before, pages) {
      var i, j, p: nat :| 0 <= i < j < n && p < pages && before[i].available && before[i].Covers(p) && before[j].Covers(p);
      assert regions[i].available && regions[i].Covers(p) && regions[j].Covers(p);
    }
    if p: nat :| p < pages && regions[n].Covers(p) && Freed(before, p) {
      var i :| 0 <= i < n && before[i].available && before[i].Covers(p);
      assert regions[i].available && regions[i].Covers(p) && regions[n].Covers(p);
    }
    if Overlap(regions, pages) {
      var i, j, p: nat :| 0 <= i < j <= n && p < pages
        && regions[i].available && regions[i].Covers(p) && regions[j].Covers(p);
      assert before[i].available && before[i].Covers(p);
      if j < n { assert before[j].Covers(p); } else { assert Freed(before, p); }
    }
  }

  lemma FreeExactly(s: seq<bool>, regions: seq<Region>, p: nat)
    requires p < |s| && s[p] && Overcount(s, regions) == 0
    ensures !MarkedBy(s, regions)[p] <==> Freed(regions, p)
  {
    if !MarkedBy(s, regions)[p] { FreeByRegion(s, regions, p); }
    if Freed(regions, p) {
      var i :| 0 <= i < |regions| && regions[i].available && regions[i].Covers(p);
      StaysFree(s, regions, i, p);
    }
  }

  lemma {:induction false} FreeInIs(s: seq<bool>, start: nat, n: nat)
    ensures FreeIn(s, start, n) == 0 <==> forall p: nat :: start <= p < start + n && p < |s| ==> s[p]
  {
    if n > 0 { FreeInIs(s, start, n - 1); }
  }

  /** A page is only free because an available region covers it. */
  lemma {:induction false} FreeByRegion(s: seq<bool>, regions: seq<Region>, p: nat)
    requires p < |s| && s[p] && !MarkedBy(s, regions)[p]
    ensures Freed(regions, p)
  {
    if regions != [] {
      var n := |regions| - 1;
      if regions[n].Covers(p) {
        assert regions[n].available;
      } else {
        FreeByRegion(s, regions[..n], p);
        var i :| 0 <= i < n && regions[..n][i].available && regions[..n][i].Covers(p);
        assert regions[i].available && regions[i].Covers(p);
      }
    }
  }

  /** A page that an available region covers stays free while nothing is counted twice. */
  lemma {:induction false} StaysFree(s: seq<bool>, regions: seq<Region>, i: nat, p: nat)
    requires p < |s| && i < |regions| && regions[i].available && regions[i].Covers(p)
    requires Overcount(s, regions) == 0
    ensures !MarkedBy(s, regions)[p]
  {
    var n := |regions| - 1;
    if i < n {
      StaysFree(s, regions[..n], i, p);
      FreeInIs(MarkedBy(s, regions[..n]), regions[n].base / PAGE, regions[n].size / PAGE);
    }
  }

  /** Pages beyond the highest end of an available region stay marked. */
  lemma {:induction false} BeyondMarked(s: seq<bool>, regions: seq<Region>, p: nat)
    requires p < |s| && s[p] && HighestEnd(regions) / PAGE <= p
    ensures MarkedBy(s, regions)[p]
  {
    if !MarkedBy(s, regions)[p] {
      FreeByRegion(s, regions, p);
    }
  }

  lemma PaddingMarked(s: seq<bool>, regions: seq<Region>)
    requires forall p :: 0 <= p < |s| ==> s[p]
    ensures forall p: nat :: HighestEnd(regions) / PAGE <= p < |s| ==> MarkedBy(s, regions)[p]
  {
    forall p: nat | HighestEnd(regions) / PAGE <= p < |s| ensures MarkedBy(s, regions)[p] {
      BeyondMarked(s, regions, p);
    }
  }

  lemma EmptyMap(s: seq<bool>, regions: seq<Region>)
    ensures HighestEnd(regions[..0]) == 0 && MarkedBy(s, regions[..0]) == s && Overcount(s, regions[..0]) == 0
  {}

  lemma NextOfMap(s: seq<bool>, regions: seq<Region>, k: nat)
    requires k < |regions|
    ensures var x, before, after := regions[k], regions[..k], regions[..k + 1];
      && HighestEnd(after)
         == (if x.available && x.base + x.size > HighestEnd(before) then x.base + x.size else HighestEnd(before))
      && MarkedBy(s, after) == SetRange(MarkedBy(s, before), x.base / PAGE, x.size / PAGE, !x.available)
      && Overcount(s, after) == Overcount(s, before) + FreeIn(MarkedBy(s, before), x.base / PAGE, x.size / PAGE)
  {
    assert regions[..k + 1][..k] == regions[..k];
  }

  class PageAllocator {
    const bitmap: array<bv8>
    const totalPages: nat
    var freePages: int
    var freeMemory: int

    ghost function Pages(): (s: seq<bool>)
      reads bitmap
      ensures |s| == 8 * bitmap.Length
    {
      Marks(bitmap[..])
    }

    /** The bitmap is as long as initialize() makes it, its last padding bits are set,
        and page 0 is in use, so that address 0 can mean failure. */
    ghost predicate Shape()
      reads this, bitmap
    {
      && bitmap.Length == (totalPages + 7) / 8 && totalPages > 0
      && Pages()[0] && (forall p :: totalPages <= p < |Pages()| ==> Pages()[p])
    }

    ghost predicate Valid()
      reads this, bitmap
    {
      Shape() && freePages == CountFree(Pages())
    }

    constructor (bitmap: array<bv8>, totalPages: nat)
      requires totalPages > 0 && bitmap.Length == (totalPages + 7) / 8
      requires forall i :: 0 <= i < bitmap.Length ==> bitmap[i] == 0xFF
      ensures Valid() && this.bitmap == bitmap && this.totalPages == totalPages && freePages == freeMemory == 0
      ensures forall p :: 0 <= p < |Pages()| ==> Pages()[p]
    {
      this.bitmap, this.totalPages := bitmap, totalPages;
      freePages, freeMemory := 0, 0;
      new;
      AllMarked();
    }

    /** PMM::initialize over a bitmap set up with all pages in use. The allocator is in
        order exactly when no available region covers page 0 and no region shares a page with
        an available one before it; with such a region the counter is too large. */
    constructor Initialize (bitmap: array<bv8>, regions: seq<Region>)
      requires forall r :: r in regions ==> r.Ok()
      requires bitmap.Length == (HighestEnd(regions) / PAGE + 7) / 8
      requires forall i :: 0 <= i < bitmap.Length ==> bitmap[i] == 0xFF
      modifies bitmap
      ensures this.bitmap == bitmap && totalPages == HighestEnd(regions) / PAGE
      ensures Pages() == MarkedBy(seq(8 * bitmap.Length, _ => true), regions)
      ensures freePages == CountFree(Pages()) + Overcount(seq(8 * bitmap.Length, _ => true), regions)
      ensures freeMemory == freePages * PAGE
      ensures Valid() <==> totalPages > 0 && !Freed(regions, 0) && !Overlap(regions, 8 * bitmap.Length)
    {
      hide Marks, CountFree, MarkedBy, Overcount, HighestEnd, Overlap, Freed;
      var highestAddr := 0;
      var i := 0;
      EmptyMap(seq(8 * bitmap.Length, _ => true), regions);
      while i < |regions|
        invariant 0 <= i <= |regions| && highestAddr == HighestEnd(regions[..i])
        invariant forall b :: 0 <= b < bitmap.Length ==> bitmap[b] == 0xFF
      {
        NextOfMap([], regions, i);
        if regions[i].available && regions[i].base + regions[i].size > highestAddr {
          highestAddr := regions[i].base + regions[i].size;
        }
        i := i + 1;
      }
      assert regions[..i] == regions;
      this.bitmap, this.totalPages := bitmap, highestAddr / PAGE;
      freePages, freeMemory := 0, 0;
      new;
      ghost var s := seq(8 * bitmap.Length, _ => true);
      AllMarked();
      assert Pages() == s;
      var k := 0;
      while k < |regions|
        invariant 0 <= k <= |regions|
        invariant Pages() == MarkedBy(s, regions[..k])
        invariant freePages == CountFree(Pages()) + Overcount(s, regions[..k])
      {
        NextOfMap(s, regions, k);
        MarkRegion(regions[k].base, regions[k].size, !regions[k].available);
        k := k + 1;
      }
      assert regions[..k] == regions;
      freeMemory := freePages * PAGE;
      OvercountIs(s, regions);
      PaddingMarked(s, regions);
      if totalPages > 0 && Overcount(s, regions) == 0 { FreeExactly(s, regions, 0); }
    }

    lemma AllMarked()
      requires forall i :: 0 <= i < bitmap.Length ==> bitmap[i] == 0xFF
      ensures Pages() == seq(8 * bitmap.Length, _ => true) && CountFree(Pages()) == 0
    {
      forall p | 0 <= p < |Pages()| ensures Pages()[p] { BitOps(0xFF, 0, p % 8); }
      CountNone(Pages());
      assert Pages() == seq(8 * bitmap.Length, _ => true);
    }

    /** Sets or clears the bit of a page. */
    method Mark(p: nat, used: bool)
      requires p < 8 * bitmap.Length
      modifies bitmap
      ensures Pages() == old(Pages())[p := used]
    {
      hide Marks, Bit, Mask, Marked;
      var b := bitmap[p / 8];
      forall k | 0 <= k < 8 ensures Bit(Marked(b, p % 8, used), k) == if k == p % 8 then used else Bit(b, k) {
        MarkedBits(b, p % 8, used, k);
      }
      MarkSet(bitmap[..], p, Marked(b, p % 8, used), used);
      ghost var before := bitmap[..];
      bitmap[p / 8] := Marked(b, p % 8, used);
      assert bitmap[..] == before[p / 8 := Marked(b, p % 8, used)];
    }

    /** PMM::markRegion. The counter stays right if and only if no page of the region was
        free before; every page that was makes it too large by one. */
    method MarkRegion(base: nat, size: nat, used: bool)
      modifies bitmap, `freePages
      ensures Pages() == SetRange(old(Pages()), base / PAGE, size / PAGE, used)
      ensures freePages - CountFree(Pages())
           == old(freePages - CountFree(Pages())) + FreeIn(old(Pages()), base / PAGE, size / PAGE)
    {
      var startPage, pageCount := base / PAGE, size / PAGE;
      ghost var s := Pages();
      var i := 0;
      assert SetRange(s, startPage, 0, used) == s;
      while i < pageCount
        invariant 0 <= i <= pageCount
        invariant Pages() == SetRange(s, startPage, i, used)
        invariant freePages == old(freePages) + if used then 0 else Covered(s, startPage, i)
      {
        var page := startPage + i;
        if page / 8 < bitmap.Length {
          Mark(page, used);
          if !used { freePages := freePages + 1; }
        }
        i := i + 1;
        assert Pages() == SetRange(s, startPage, i, used);
      }
      CountRange(s, startPage, pageCount, used);
    }

    /** PMM::allocatePage: the lowest free page, marked as used; 0 if there is none. */
    method AllocatePage() returns (addr: nat)
      requires Valid()
      modifies bitmap, `freePages, `freeMemory
      ensures Valid()
      ensures addr == 0 <==> CountFree(old(Pages())) == 0
      ensures addr == 0 ==> Pages() == old(Pages()) && freePages == old(freePages) && freeMemory == old(freeMemory)
      ensures addr != 0 ==> addr % PAGE == 0 && var p := addr / PAGE;
        && 0 < p < totalPages && !old(Pages())[p] && (forall q :: 0 <= q < p ==> old(Pages())[q])
        && Pages() == old(Pages())[p := true]
        && freePages == old(freePages) - 1 && freeMemory == freePages * PAGE
    {
      hide Marks, Bit, Mask, CountFree;
      ghost var s := Pages();
      var i := 0;
      while i < bitmap.Length
        invariant 0 <= i <= bitmap.Length
        invariant bitmap[..] == old(bitmap[..]) && freePages == old(freePages) && freeMemory == old(freeMemory)
        invariant forall q :: 0 <= q < 8 * i ==> s[q]
      {
        if bitmap[i] != 0xFF {
          var bit := 0;
          while bit < 8
            invariant 0 <= bit <= 8
            invariant bitmap[..] == old(bitmap[..]) && freePages == old(freePages) && freeMemory == old(freeMemory)
            invariant forall q :: 0 <= q < 8 * i + bit ==> s[q]
          {
            MarkIs(i, bit);
            if !Bit(bitmap[i], bit) {
              CountUpdate(s, 8 * i + bit, true);
              Mark(8 * i + bit, true);
              freePages := freePages - 1;
              freeMemory := freePages * PAGE;
              return (8 * i + bit) * PAGE;
            }
            bit := bit + 1;
          }
        } else {
          FullByte(i, s);
        }
        assert forall q :: 0 <= q < 8 * i + 8 ==> s[q];
        i := i + 1;
      }
      CountNone(s);
      return 0;
    }

    lemma MarkIs(i: nat, bit: nat)
      requires i < bitmap.Length && bit < 8
      ensures Pages()[8 * i + bit] == Bit(bitmap[i], bit)
    {}

    lemma FullByte(i: nat, s: seq<bool>)
      requires i < bitmap.Length && bitmap[i] == 0xFF && s == Pages()
      ensures forall q :: 8 * i <= q < 8 * i + 8 ==> s[q]
    {
      forall q | 8 * i <= q < 8 * i + 8 ensures s[q] { BitOps(bitmap[i], 0, q % 8); }
    }

    /** PMM::freePage. Freeing a page that is free makes the counter too large by one. */
    method FreePage(addr: nat)
      modifies bitmap, `freePages, `freeMemory
      ensures var p := addr / PAGE;
        Pages() == SetRange(old(Pages()), p, 1, false)
        && freePages - CountFree(Pages()) == old(freePages - CountFree(Pages())) + FreeIn(old(Pages()), p, 1)
      ensures old(freeMemory == freePages * PAGE) ==> freeMemory == freePages * PAGE
    {
      var page := addr / PAGE;
      ghost var s := Pages();
      CountRange(s, page, 1, false);
      if page / 8 < bitmap.Length {
        Mark(page, false);
        assert Pages() == SetRange(s, page, 1, false);
        freePages := freePages + 1;
        freeMemory := freePages * PAGE;
      } else {
        assert Pages() == SetRange(s, page, 1, false);
      }
    }

    /** PMM::allocatePages: the lowest run of `count` free pages, marked as used;
        0 exactly when there is no such run. */
    method AllocatePages(count: nat) returns (addr: nat)
      requires Valid()
      modifies bitmap, `freePages, `freeMemory
      ensures Valid()
      ensures addr == 0 <==> count == 0 || forall q :: 0 <= q && q + count <= totalPages ==> !FreeRun(old(Pages()), q, count)
      ensures addr == 0 ==> Pages() == old(Pages()) && freePages == old(freePages) && freeMemory == old(freeMemory)
      ensures addr != 0 ==> addr % PAGE == 0 && var p := addr / PAGE;
        && FreeRun(old(Pages()), p, count) && (forall q :: 0 <= q < p ==> !FreeRun(old(Pages()), q, count))
        && Pages() == SetRange(old(Pages()), p, count, true)
        && freePages == old(freePages) - count && freeMemory == freePages * PAGE
    {
      hide Marks, Bit, Mask, CountFree;
      if count == 0 { return 0; }
      ghost var s := Pages();
      if count == 1 {
        addr := AllocatePage();
        One(s, addr);
        return;
      }
      var consecutive, startPage := 0, 0;
      var page := 0;
      while page < totalPages
        invariant bitmap[..] == old(bitmap[..]) && freePages == old(freePages) && freeMemory == old(freeMemory)
        invariant 0 <= page <= totalPages && 0 <= consecutive < count && consecutive <= page
        invariant consecutive > 0 ==> startPage == page - consecutive
        invariant forall p :: page - consecutive <= p < page ==> !s[p]
        invariant forall q :: 0 <= q < page - consecutive ==> !FreeRun(s, q, count)
      {
        MarkIs(page / 8, page % 8);
        if !Bit(bitmap[page / 8], page % 8) {
          if consecutive == 0 { startPage := page; }
          consecutive := consecutive + 1;
          if consecutive >= count {
            TakeRun(startPage, count);
            return startPage * PAGE;
          }
        } else {
          forall q | 0 <= q < page + 1 ensures !FreeRun(s, q, count) {
            if q >= page - consecutive { RunBlocked(s, q, count, page); }
          }
          consecutive := 0;
        }
        page := page + 1;
      }
      forall q | 0 <= q && q + count <= totalPages ensures !FreeRun(s, q, count) {}
      return 0;
    }

    method TakeRun(startPage: nat, count: nat)
      requires Valid() && FreeRun(Pages(), startPage, count)
      modifies bitmap, `freePages, `freeMemory
      ensures Valid() && Pages() == SetRange(old(Pages()), startPage, count, true)
      ensures freePages == old(freePages) - count && freeMemory == freePages * PAGE
    {
      hide Marks, CountFree;
      ghost var s := Pages();
      var i := 0;
      assert SetRange(s, startPage, 0, true) == s;
      while i < count
        invariant 0 <= i <= count
        invariant freePages == old(freePages) && freeMemory == old(freeMemory)
        invariant Pages() == SetRange(s, startPage, i, true)
      {
        Mark(startPage + i, true);
        i := i + 1;
        assert Pages() == SetRange(s, startPage, i, true);
      }
      CountRange(s, startPage, count, true);
      FreeRunCount(s, startPage, count);
      freePages := freePages - count;
      freeMemory := freePages * PAGE;
    }

    static lemma RunBlocked(s: seq<bool>, start: nat, n: nat, page: nat)
      requires start <= page < start + n && page < |s| && s[page]
      ensures !FreeRun(s, start, n)
    {}

    static lemma One(s: seq<bool>, addr: nat)
      ensures CountFree(s) == 0 <==> forall q :: 0 <= q < |s| ==> !FreeRun(s, q, 1)
      ensures forall q :: 0 <= q < |s| ==> FreeRun(s, q, 1) == !s[q]
      ensures forall p: nat :: p < |s| ==> SetRange(s, p, 1, true) == s[p := true]
    {
      forall p: nat | p < |s| ensures SetRange(s, p, 1, true) == s[p := true] {}
      NoneFree(s);
      forall q | 0 <= q < |s| ensures FreeRun(s, q, 1) <==> !s[q] {}
    }

    static lemma {:induction false} NoneFree(s: seq<bool>)
      ensures CountFree(s) == 0 <==> forall q :: 0 <= q < |s| ==> s[q]
    {
      if s != [] {
        NoneFree(s[1..]);
        assert forall q :: 0 < q < |s| ==> s[q] == s[1..][q - 1];
        if forall q :: 0 <= q < |s| ==> s[q] {
          assert forall q :: 0 <= q < |s[1..]| ==> s[1..][q] == s[q + 1];
        }
      }
    }

    /** PMM::freePages: clears the bits of the pages, as far as they exist; the counter
        drifts by the number of them that were free. */
    method FreePages(addr: nat, count: nat)
      modifies bitmap, `freePages, `freeMemory
      ensures Pages() == SetRange(old(Pages()), addr / PAGE, count, false)
      ensures freePages - CountFree(Pages()) == old(freePages - CountFree(Pages())) + FreeIn(old(Pages()), addr / PAGE, count)
      ensures old(freeMemory == freePages * PAGE) ==> freeMemory == freePages * PAGE
    {
      hide Marks, CountFree, FreeIn;
      ghost var s, first := Pages(), addr / PAGE;
      FreeInNext(s, first, 0);
      assert SetRange(s, first, 0, false) == s;
      var i := 0;
      while i < count
        invariant 0 <= i <= count
        invariant Pages() == SetRange(s, first, i, false)
        invariant freePages - CountFree(Pages()) == old(freePages - CountFree(Pages())) + FreeIn(s, first, i)
        invariant old(freeMemory == freePages * PAGE) ==> freeMemory == freePages * PAGE
      {
        assert (addr + i * PAGE) / PAGE == first + i;
        FreeInNext(s, first, i);
        FreePage(addr + i * PAGE);
        i := i + 1;
        assert Pages() == SetRange(s, first, i, false);
      }
    }
  }

  /** Allocating pages and freeing them again changes neither the bitmap nor the count. */
  method AllocateThenFree(a: PageAllocator, count: nat) returns (ok: bool)
    requires a.Valid()
    modifies a.bitmap, a`freePages, a`freeMemory
    ensures a.Valid() && a.Pages() == old(a.Pages()) && a.freePages == old(a.freePages)
    ensures old(a.freeMemory == a.freePages * PAGE) ==> a.freeMemory == old(a.freeMemory)
  {
    ghost var s := a.Pages();
    var addr := a.AllocatePages(count);
    ok := addr != 0;
    if ok {
      UsedRunCount(a.Pages(), addr / PAGE, count);
      a.FreePages(addr, count);
      assert a.Pages() == s;
    }
  }
}
