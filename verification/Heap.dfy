/** The kernel heap: first-fit allocation in one arena, splitting and merging of
    blocks, all done by rewriting the headers inside the arena. */
module Heap {
  import opened Bytes
  import opened HeapBlocks
  import opened Machine

  /** Rounds up to 16 as the C++ expression does, in 64-bit arithmetic. */
  function Align16(size: nat): nat {
    (size + 15) % U64 / 16 * 16
  }

  lemma Align16Covers(size: nat)
    requires size < U64
    ensures Align16(size) % 16 == 0 && Align16(size) < size + 16
    ensures size <= Align16(size) <==> size <= U64 - 16
  {}

  class Arena {
    const base: nat
    const totalSize: nat
    const mem: array<byte>
    var usedSize: nat
    var allocationCount: nat
    ghost var blocks: seq<Block>

    ghost predicate Shape()
      reads this, mem
    {
      && mem.Length == totalSize && 0 < base && base + totalSize + 16 <= U64
      && Tiles(blocks, totalSize) && Linked(mem[..], base, blocks) && Aligned(blocks)
    }

    ghost predicate Valid()
      reads this, mem
    {
      && Shape() && NoFreeNeighbours(blocks)
      && usedSize == HEADER + UsedBytes(blocks) && allocationCount == |Used(blocks)|
    }

    /** Heap::initialize on an arena it accepts. */
    constructor (base: nat, size: nat)
      requires base != 0 && size > HEADER && base + size + 16 <= U64
      ensures Valid() && fresh(mem) && this.base == base && totalSize == size
      ensures blocks == [Block(0, size - HEADER, false)]
    {
      this.base, this.totalSize := base, size;
      mem := new byte[size];
      usedSize, allocationCount := HEADER, 0;
      blocks := [Block(0, size - HEADER, false)];
      new;
      ghost var hs := [HeaderAt(mem[..], 0)];
      hs := PutSize(0, 0, size - HEADER, hs);
      hs := PutUsed(0, 0, false, hs);
      hs := PutNext(0, 0, 0, hs);
      hs := PutPrev(0, 0, 0, hs);
      assert hs == Wanted(base, blocks);
      LinkedIsReads(mem[..], base, blocks);
    }

    /** The header that a block pointer points to. */
    function HeaderOf(p: nat): Header
      requires base <= p && p - base + HEADER <= mem.Length
      reads mem
    {
      HeaderAt(mem[..], p - base)
    }

    /** `block->size = v`, where the block is number k of a list whose headers are hs. */
    method PutSize(at: nat, ghost k: nat, v: nat, ghost hs: seq<Header>) returns (ghost hs': seq<Header>)
      requires Tiles(blocks, totalSize) && mem.Length == totalSize && Reads(mem[..], blocks, hs)
      requires k < |blocks| && at == blocks[k].at && v < U64
      modifies mem
      ensures hs' == hs[k := hs[k].(size := v)] && Reads(mem[..], blocks, hs')
      ensures Kept(old(mem[..]), mem[..], Live(blocks))
    {
      hide Tiles, HeaderAt, Used, Encode;
      InArena(blocks, totalSize, k);
      FieldStored(mem[..], at, v);
      hs' := hs[k := hs[k].(size := v)];
      StoreInHeader(mem[..], blocks, totalSize, hs, k, SIZE, Encode(8, v), hs'[k]);
      CopyInto(mem, at + SIZE, Encode(8, v));
    }

    method PutNext(at: nat, ghost k: nat, v: nat, ghost hs: seq<Header>) returns (ghost hs': seq<Header>)
      requires Tiles(blocks, totalSize) && mem.Length == totalSize && Reads(mem[..], blocks, hs)
      requires k < |blocks| && at == blocks[k].at && v < U64
      modifies mem
      ensures hs' == hs[k := hs[k].(next := v)] && Reads(mem[..], blocks, hs')
      ensures Kept(old(mem[..]), mem[..], Live(blocks))
    {
      hide Tiles, HeaderAt, Used, Encode;
      InArena(blocks, totalSize, k);
      FieldStored(mem[..], at, v);
      hs' := hs[k := hs[k].(next := v)];
      StoreInHeader(mem[..], blocks, totalSize, hs, k, NEXT, Encode(8, v), hs'[k]);
      CopyInto(mem, at + NEXT, Encode(8, v));
    }

    method PutPrev(at: nat, ghost k: nat, v: nat, ghost hs: seq<Header>) returns (ghost hs': seq<Header>)
      requires Tiles(blocks, totalSize) && mem.Length == totalSize && Reads(mem[..], blocks, hs)
      requires k < |blocks| && at == blocks[k].at && v < U64
      modifies mem
      ensures hs' == hs[k := hs[k].(prev := v)] && Reads(mem[..], blocks, hs')
      ensures Kept(old(mem[..]), mem[..], Live(blocks))
    {
      hide Tiles, HeaderAt, Used, Encode;
      InArena(blocks, totalSize, k);
      FieldStored(mem[..], at, v);
      hs' := hs[k := hs[k].(prev := v)];
      StoreInHeader(mem[..], blocks, totalSize, hs, k, PREV, Encode(8, v), hs'[k]);
      CopyInto(mem, at + PREV, Encode(8, v));
    }

    method PutUsed(at: nat, ghost k: nat, used: bool, ghost hs: seq<Header>) returns (ghost hs': seq<Header>)
      requires Tiles(blocks, totalSize) && mem.Length == totalSize && Reads(mem[..], blocks, hs)
      requires k < |blocks| && at == blocks[k].at
      modifies mem
      ensures hs' == hs[k := hs[k].(used := used)] && Reads(mem[..], blocks, hs')
      ensures Kept(old(mem[..]), mem[..], Live(blocks))
    {
      hide Tiles, HeaderAt, Used;
      InArena(blocks, totalSize, k);
      FlagStored(mem[..], at, used);
      hs' := hs[k := hs[k].(used := used)];
      StoreInHeader(mem[..], blocks, totalSize, hs, k, USED, [if used then 1 else 0], hs'[k]);
      CopyInto(mem, at + USED, [if used then 1 else 0]);
    }

    /** The lowest free block that is large enough, or 0. */
    method FindFreeBlock(size: nat) returns (p: nat, ghost k: nat)
      requires Shape()
      ensures forall j :: 0 <= j < k && j < |blocks| ==> blocks[j].used || blocks[j].size < size
      ensures p != 0 ==> k < |blocks| && !blocks[k].used && blocks[k].size >= size && p == base + blocks[k].at
      ensures p == 0 <==> NoneFits(blocks, size)
    {
      hide Shape, HeaderOf;
      p, k := base, 0;
      FirstBlock();
      while p != 0
        invariant k <= |blocks| && p == if k < |blocks| then base + blocks[k].at else 0
        invariant forall j :: 0 <= j < k && j < |blocks| ==> blocks[j].used || blocks[j].size < size
        decreases |blocks| - k
      {
        AtBlock(k);
        if !HeaderOf(p).used && HeaderOf(p).size >= size { return; }
        p := HeaderOf(p).next;
        k := k + 1;
      }
    }

    lemma AtBlock(k: nat)
      requires Shape() && k < |blocks|
      ensures mem.Length == totalSize && blocks[k].End() <= totalSize
      ensures HeaderOf(base + blocks[k].at) == Want(base, blocks, k)
    {
      InArena(blocks, totalSize, k);
    }

    lemma FirstBlock()
      requires Shape()
      ensures |blocks| > 0 && blocks[0].at == 0 && base > 0
    {}

    /** Cuts the free block k in two; the second part starts `size` payload bytes on. */
    method SplitBlock(p: nat, size: nat, ghost k: nat)
      requires Shape() && k < |blocks| && !blocks[k].used && p == base + blocks[k].at
      requires size % 16 == 0 && size + HEADER + 16 < blocks[k].size
      modifies mem, `blocks
      ensures Shape() && blocks == SplitAt(old(blocks), k, size)
      ensures Used(blocks) == Used(old(blocks)) && UsedBytes(blocks) == UsedBytes(old(blocks))
      ensures Kept(old(mem[..]), mem[..], Live(old(blocks)))
    {
      hide HeaderAt, Used, UsedBytes, SplitAt, Kept, Headers, Reads, Linked;
      SplitTiles(blocks, totalSize, k, size);
      SplitUsed(blocks, k, size);
      SplitEntries(blocks, k, size);
      SplitWanted(mem[..], base, blocks, totalSize, k, size);
      ghost var b, m0 := blocks, mem[..];
      AtBlock(k);
      var newAt := p - base + HEADER + size;
      var blockSize, next := HeaderOf(p).size, HeaderOf(p).next;
      blocks := SplitAt(blocks, k, size);
      ghost var hs := Headers(m0, blocks);
      hs := PutHeader(newAt, k + 1, Header(blockSize - size - HEADER, false, next, p), hs);
      ghost var m1 := mem[..];
      if next != 0 {
        assert b[k + 1] == blocks[k + 2];
        hs := PutPrev(next - base, k + 2, base + newAt, hs);
        KeptTrans(m0, m1, mem[..], Live(blocks));
      }
      ghost var m2 := mem[..];
      hs := PutNext(p - base, k, base + newAt, hs);
      KeptTrans(m0, m2, mem[..], Live(blocks));
      ghost var m3 := mem[..];
      hs := PutSize(p - base, k, size, hs);
      KeptTrans(m0, m3, mem[..], Live(blocks));
      LinkedIsReads(mem[..], base, blocks);
    }

    /** Fills in a whole header, field by field. */
    method PutHeader(at: nat, ghost k: nat, h: Header, ghost hs: seq<Header>) returns (ghost hs': seq<Header>)
      requires Tiles(blocks, totalSize) && mem.Length == totalSize && Reads(mem[..], blocks, hs)
      requires k < |blocks| && at == blocks[k].at && h.size < U64 && h.next < U64 && h.prev < U64
      modifies mem
      ensures hs' == hs[k := h] && Reads(mem[..], blocks, hs')
      ensures Kept(old(mem[..]), mem[..], Live(blocks))
    {
      hide Tiles, HeaderAt, Used, Kept;
      ghost var m0 := mem[..];
      hs' := PutSize(at, k, h.size, hs);
      ghost var m1 := mem[..];
      hs' := PutUsed(at, k, h.used, hs');
      KeptTrans(m0, m1, mem[..], Live(blocks));
      ghost var m2 := mem[..];
      hs' := PutNext(at, k, h.next, hs');
      KeptTrans(m0, m2, mem[..], Live(blocks));
      ghost var m3 := mem[..];
      hs' := PutPrev(at, k, h.prev, hs');
      KeptTrans(m0, m3, mem[..], Live(blocks));
    }

    /** Joins the free block k with the free block behind it. */
    method MergeNext(p: nat, ghost k: nat)
      requires Shape() && k + 1 < |blocks| && !blocks[k].used && !blocks[k + 1].used && p == base + blocks[k].at
      modifies mem, `blocks
      ensures Shape() && blocks == MergeAt(old(blocks), k)
      ensures Used(blocks) == Used(old(blocks)) && UsedBytes(blocks) == UsedBytes(old(blocks))
      ensures Kept(old(mem[..]), mem[..], Live(blocks))
    {
      hide HeaderAt, Used, UsedBytes, MergeAt, Kept, Reads, Linked;
      MergeTiles(blocks, totalSize, k);
      MergeUsed(blocks, k);
      ghost var m0 := mem[..];
      AtBlock(k);
      AtBlock(k + 1);
      LinkedIsReads(m0, base, blocks);
      ghost var hs := Wanted(base, blocks);
      var next := HeaderOf(p).next;
      hs := PutSize(p - base, k, HeaderOf(p).size + HeaderOf(next).size + HEADER, hs);
      ghost var m1 := mem[..];
      hs := PutNext(p - base, k, NextOf(next, k + 1, hs), hs);
      KeptTrans(m0, m1, mem[..], Live(blocks));
      var nextNext := NextOf(p, k, hs);
      ghost var m2 := mem[..];
      if nextNext != 0 {
        hs := PutPrev(nextNext - base, k + 2, p, hs);
        KeptTrans(m0, m2, mem[..], Live(blocks));
      }
      MergeWanted(mem[..], base, blocks, totalSize, k);
      blocks := MergeAt(blocks, k);
    }

    /** `block->next`, while the headers are in between states. */
    function NextOf(p: nat, ghost k: nat, ghost hs: seq<Header>): (next: nat)
      requires Tiles(blocks, totalSize) && mem.Length == totalSize && Reads(mem[..], blocks, hs)
      requires k < |blocks| && p == base + blocks[k].at
      reads this, mem
      ensures next == hs[k].next
    {
      InArena(blocks, totalSize, k);
      HeaderOf(p).next
    }

    /** Joins all free neighbours in one pass. */
    method MergeBlocks()
      requires Shape()
      modifies mem, `blocks
      ensures Shape() && NoFreeNeighbours(blocks)
      ensures Used(blocks) == Used(old(blocks)) && UsedBytes(blocks) == UsedBytes(old(blocks))
      ensures Kept(old(mem[..]), mem[..], Live(blocks))
    {
      hide HeaderAt, Used, UsedBytes, Kept, Shape, HeaderOf;
      FirstBlock();
      KeptRefl();
      var p := base;
      ghost var k := 0;
      AtBlock(k);
      while p != 0 && HeaderOf(p).next != 0
        invariant Shape() && k < |blocks| && p == base + blocks[k].at && base > 0
        invariant mem.Length == totalSize && blocks[k].End() <= totalSize && HeaderOf(p) == Want(base, blocks, k)
        invariant forall j :: 0 <= j < k ==> blocks[j].used || blocks[j + 1].used
        invariant Used(blocks) == Used(old(blocks)) && UsedBytes(blocks) == UsedBytes(old(blocks))
        invariant Kept(old(mem[..]), mem[..], Live(blocks))
        decreases |blocks| - k
      {
        AtBlock(k + 1);
        if !HeaderOf(p).used && !HeaderOf(HeaderOf(p).next).used {
          ghost var m := mem[..];
          MergeEntries(blocks, k);
          MergeNext(p, k);
          KeptTrans(old(mem[..]), m, mem[..], Live(blocks));
          AtBlock(k);
        } else {
          p := HeaderOf(p).next;
          k := k + 1;
        }
      }
    }

    lemma KeptRefl()
      requires Shape()
      ensures Kept(mem[..], mem[..], Live(blocks))
    {
      forall x | x in Live(blocks) ensures x.End() <= totalSize {
        UsedMembers(blocks, x);
        var j :| 0 <= j < |blocks| && blocks[j] == x;
        InArena(blocks, totalSize, j);
      }
    }

    /** Heap::allocate: the start of the lowest free block that fits, or 0 if there is none.
        No byte of a live block changes. */
    method Allocate(request: nat) returns (ptr: nat, ghost k: nat, ghost x: Block)
      requires Valid() && request < U64
      modifies mem, `blocks, `usedSize, `allocationCount
      ensures Valid()
      ensures ptr == 0 <==> request == 0 || NoneFits(old(blocks), Align16(request))
      ensures ptr == 0 ==> blocks == old(blocks) && mem[..] == old(mem[..])
      ensures ptr != 0 ==>
        && k < |old(blocks)| && !old(blocks)[k].used && old(blocks)[k].size >= Align16(request)
        && (forall j :: 0 <= j < k ==> old(blocks)[j].used || old(blocks)[j].size < Align16(request))
        && Allocated(old(blocks), blocks, k, x) && ptr == base + x.Payload()
        && Align16(request) <= x.size <= Align16(request) + HEADER + 16
      ensures Kept(old(mem[..]), mem[..], Live(old(blocks)))
      ensures ptr != 0 ==> (ptr - base) % 16 == 0
    {
      hide HeaderAt, Used, UsedBytes, Kept, HeaderOf, Tiles, Linked, SplitAt, NoFreeNeighbours;
      KeptRefl();
      x, k := Block(0, 0, false), 0;
      if request == 0 { return 0, k, x; }
      var size := Align16(request);
      Align16Covers(request);
      var p;
      p, k := FindFreeBlock(size);
      if p == 0 {
        // expandHeap is not implemented, so the second search finds what the first found
        p, k := FindFreeBlock(size);
        if p == 0 { return 0, k, x; }
      }
      ghost var b := blocks;
      AtBlock(k);
      PlacesAligned(blocks, totalSize, k);
      ghost var split := HeaderOf(p).size > size + HEADER + 16;
      TakeKeepsShape(b, k, size, split);
      if HeaderOf(p).size > size + HEADER + 16 {
        SplitEntries(b, k, size);
        SplitParts(b, k, size);
        SplitBlock(p, size, k);
      }
      x := blocks[k].Mark(true);
      UsedOne(blocks[k]);
      UsedOne(x);
      ghost var m := mem[..];
      MarkBlock(p, true, k);
      KeptTrans(old(mem[..]), m, mem[..], Live(b));
      AtBlock(k);
      usedSize := usedSize + HeaderOf(p).size + HEADER;
      allocationCount := allocationCount + 1;
      ptr := p + HEADER;
    }

    /** Heap::free of the block k, or of null. A block that is not in use is left alone. */
    method Free(ptr: nat, ghost k: nat)
      requires Valid() && (ptr == 0 || (k < |blocks| && ptr == base + blocks[k].Payload()))
      modifies mem, `blocks, `usedSize, `allocationCount
      ensures Valid()
      ensures ptr == 0 || !old(blocks)[k].used ==> blocks == old(blocks) && mem[..] == old(mem[..])
      ensures ptr != 0 && old(blocks)[k].used ==> Released(old(blocks), blocks, k)
      ensures Kept(old(mem[..]), mem[..], Live(blocks))
    {
      hide HeaderAt, Used, UsedBytes, Kept, HeaderOf, Tiles, Linked, NoFreeNeighbours;
      KeptRefl();
      if ptr == 0 { return; }
      var p := ptr - HEADER;
      AtBlock(k);
      if !HeaderOf(p).used { return; }
      ghost var b := blocks;
      UsedOne(b[k]);
      UsedOne(b[k].Mark(false));
      MarkBlock(p, false, k);
      AtBlock(k);
      usedSize := usedSize - (HeaderOf(p).size + HEADER);
      allocationCount := allocationCount - 1;
      ghost var m := mem[..];
      ReleasedLive(b, blocks, totalSize, k);
      KeptFewer(old(mem[..]), m, Live(b), Live(blocks));
      MergeBlocks();
      KeptTrans(old(mem[..]), m, mem[..], Live(blocks));
    }

    /** The owner of a live block writes into it: the heap and all other blocks are unaffected. */
    method WritePayload(ptr: nat, t: seq<byte>, ghost k: nat)
      requires Valid() && k < |blocks| && blocks[k].used && ptr == base + blocks[k].Payload() && |t| <= blocks[k].size
      modifies mem
      ensures Valid() && Kept(old(mem[..]), mem[..], Live(blocks) - {blocks[k]})
      ensures blocks[k].End() <= totalSize && mem[blocks[k].Payload()..blocks[k].Payload() + |t|] == t
    {
      hide HeaderAt, Used, UsedBytes, Kept, Linked, NoFreeNeighbours, Aligned, Tiles;
      AtBlock(k);
      StoreInPayload(mem[..], base, blocks, totalSize, k, ptr - base, t);
      CopyInto(mem, ptr - base, t);
    }

    /** No free block is large enough. */
    static ghost predicate NoneFits(b: seq<Block>, size: nat) {
      forall j :: 0 <= j < |b| && !b[j].used ==> b[j].size < size
    }

    /** Heap::reallocate of the live block k, or of null. What the block held is at the
        start of what is returned; if no memory is left nothing changes. Size 0 frees. */
    method Reallocate(ptr: nat, newSize: nat, ghost k: nat) returns (r: nat, ghost x: Block)
      requires Valid() && newSize <= U64 - 16
      requires ptr == 0 || (k < |blocks| && blocks[k].used && ptr == base + blocks[k].Payload())
      modifies mem, `blocks, `usedSize, `allocationCount
      ensures Valid()
      ensures r == 0 <==>
        newSize == 0 || ((ptr == 0 || old(blocks)[k].size < newSize) && NoneFits(old(blocks), Align16(newSize)))
      ensures r == 0 && (newSize != 0 || ptr == 0) ==> blocks == old(blocks) && mem[..] == old(mem[..])
      ensures ptr != 0 && 0 < newSize <= old(blocks)[k].size ==>
        r == ptr && x == old(blocks)[k] && blocks == old(blocks) && mem[..] == old(mem[..])
      ensures ptr == 0 && r != 0 ==> Live(blocks) == Live(old(blocks)) + {x} && x !in Live(old(blocks))
      ensures ptr != 0 && newSize == 0 ==> Live(blocks) == Live(old(blocks)) - {old(blocks)[k]}
      ensures r != 0 ==> x in Live(blocks) && r == base + x.Payload() && x.size >= newSize && x.End() <= totalSize
      ensures ptr == 0 ==> Kept(old(mem[..]), mem[..], Live(old(blocks)))
      ensures ptr != 0 ==> Kept(old(mem[..]), mem[..], Live(old(blocks)) - {old(blocks)[k]})
      ensures ptr != 0 && r != 0 ==>
        && Live(blocks) == Live(old(blocks)) - {old(blocks)[k]} + {x}
        && old(blocks)[k].size <= x.size && old(blocks)[k].End() <= totalSize
        && mem[x.Payload()..x.Payload() + old(blocks)[k].size]
           == old(mem[..])[old(blocks)[k].Payload()..old(blocks)[k].End()]
    {
      hide HeaderAt, Used, UsedBytes, Kept, HeaderOf, Linked, NoFreeNeighbours, Aligned, Released, Allocated, Tiles;
      ghost var b, m0 := blocks, mem[..];
      x := Block(0, 0, false);
      Align16Covers(newSize);
      KeptRefl();
      if ptr == 0 {
        ghost var i;
        r, i, x := Allocate(newSize);
        if r != 0 { AllocatedLive(b, blocks, totalSize, i, x); LiveInArena(x); }
        return;
      }
      AtBlock(k);
      assert b[k] in b;
      UsedMembers(b, b[k]);
      KeptFewer(m0, m0, Live(b), Live(b) - {b[k]});
      if newSize == 0 {
        Free(ptr, k);
        ReleasedLive(b, blocks, totalSize, k);
        return 0, x;
      }
      if HeaderOf(ptr - HEADER).size >= newSize {
        return ptr, b[k];
      }
      var bytes := mem[ptr - base..ptr - base + HeaderOf(ptr - HEADER).size];
      ghost var i;
      r, i, x := Allocate(newSize);
      if r == 0 { return 0, x; }
      Moved(ptr, r, bytes, k, i, x, b, m0);
    }

    /** The second half of reallocate: copy, then free the old block. */
    method Moved(ptr: nat, r: nat, bytes: seq<byte>, ghost k: nat, ghost i: nat, ghost x: Block, ghost b: seq<Block>, ghost m0: seq<byte>)
      requires Valid() && Tiles(b, totalSize) && k < |b| && b[k].used && b[k].End() <= totalSize == |m0|
      requires ptr == base + b[k].Payload() && r == base + x.Payload() && x.size >= b[k].size
      requires Allocated(b, blocks, i, x) && Kept(m0, mem[..], Live(b)) && bytes == m0[b[k].Payload()..b[k].End()]
      modifies mem, `blocks, `usedSize, `allocationCount
      ensures Valid() && x.End() <= totalSize
      ensures Live(blocks) == Live(b) - {b[k]} + {x}
      ensures Kept(m0, mem[..], Live(b) - {b[k]})
      ensures mem[x.Payload()..x.Payload() + b[k].size] == bytes
    {
      hide HeaderAt, Used, UsedBytes, Kept, HeaderOf, Linked, NoFreeNeighbours, Aligned, Released, Allocated, Tiles;
      ghost var c, m1 := blocks, mem[..];
      AllocatedLive(b, c, totalSize, i, x);
      assert b[k] in b;
      UsedMembers(b, b[k]);
      UsedMembers(c, x);
      UsedMembers(c, b[k]);
      assert b[k] in Live(b) && b[k] in Live(c) && x in Live(c);
      ghost var ix :| 0 <= ix < |c| && c[ix] == x;
      ghost var ik :| 0 <= ik < |c| && c[ik] == b[k];
      WritePayload(r, bytes, ix);
      ghost var m2 := mem[..];
      Free(ptr, ik);
      ReleasedLive(c, blocks, totalSize, ik);
      KeptFewer(m0, m1, Live(b), Live(b) - {b[k]});
      KeptFewer(m1, m2, Live(c) - {x}, Live(b) - {b[k]});
      KeptFewer(m2, mem[..], Live(blocks), Live(b) - {b[k]});
      KeptTrans(m0, m1, m2, Live(b) - {b[k]});
      KeptTrans(m0, m2, mem[..], Live(b) - {b[k]});
      KeptAt(m2, mem[..], Live(blocks), x, |bytes|);
    }

    lemma LiveInArena(x: Block)
      requires Shape() && x in Live(blocks)
      ensures x.End() <= totalSize
    {
      UsedMembers(blocks, x);
      var j :| 0 <= j < |blocks| && blocks[j] == x;
      InArena(blocks, totalSize, j);
    }

    static lemma KeptAt(m: seq<byte>, m': seq<byte>, live: set<Block>, x: Block, n: nat)
      requires Kept(m, m', live) && x in live && n <= x.size
      ensures x.End() <= |m| == |m'|
      ensures m'[x.Payload()..x.Payload() + n] == m[x.Payload()..x.Payload() + n]
    {
      SliceOfSlice(m, x.Payload(), x.size, 0, n);
      SliceOfSlice(m', x.Payload(), x.size, 0, n);
    }

    /** `block->used = used`. */
    method MarkBlock(p: nat, used: bool, ghost k: nat)
      requires Shape() && k < |blocks| && p == base + blocks[k].at
      modifies mem, `blocks
      ensures Shape() && blocks == old(blocks)[k := old(blocks)[k].Mark(used)]
      ensures Kept(old(mem[..]), mem[..], Live(old(blocks)))
      ensures Used(blocks) == Used(old(blocks)[..k]) + Used([blocks[k]]) + Used(old(blocks)[k + 1..])
      ensures Used(old(blocks)) == Used(old(blocks)[..k]) + Used([old(blocks)[k]]) + Used(old(blocks)[k + 1..])
      ensures UsedBytes(blocks) == UsedBytes(old(blocks)) - UsedBytes([old(blocks)[k]]) + UsedBytes([blocks[k]])
    {
      hide HeaderAt, Used, UsedBytes, Kept, Linked, Reads, SetUsed;
      ghost var b := blocks;
      SetUsedShape(b, totalSize, k, used);
      SetUsedUsed(b, k, used);
      LinkedIsReads(mem[..], base, b);
      ghost var hs := PutUsed(p - base, k, used, Wanted(base, b));
      SetUsedReads(mem[..], base, b, k, used);
      blocks := SetUsed(b, k, used);
    }
  }
}
