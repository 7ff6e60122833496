/** The kernel heap's arena as bytes: block headers threaded through it, and the
    list of blocks those headers describe. */
module HeapBlocks {
  import opened Bytes
  import opened Machine

  const HEADER := 32

  /** A block: where its header is, how many payload bytes follow, whether it is in use. */
  datatype Block = Block(at: nat, size: nat, used: bool) {
    function Payload(): nat { at + HEADER }
    function End(): nat { at + HEADER + size }
    function Mark(used: bool): Block { Block(at, size, used) }
  }

  /** The four fields of a header, as the C++ struct lays them out on x86-64. */
  datatype Header = Header(size: nat, used: bool, next: nat, prev: nat)

  const SIZE := 0
  const USED := 8
  const NEXT := 16
  const PREV := 24

  function Word(mem: seq<byte>, at: nat): nat
    requires at + 8 <= |mem|
  {
    Decode(mem[at..at + 8])
  }

  function HeaderAt(mem: seq<byte>, at: nat): Header
    requires at + HEADER <= |mem|
  {
    Header(Word(mem, at + SIZE), mem[at + USED] != 0, Word(mem, at + NEXT), Word(mem, at + PREV))
  }

  lemma WordStored(mem: seq<byte>, at: nat, v: nat, field: nat)
    requires at + 8 <= |mem| && v < U64 && field + 8 <= |mem|
    ensures field == at ==> Word(Splice(mem, at, Encode(8, v)), field) == v
    ensures field + 8 <= at || at + 8 <= field ==> Word(Splice(mem, at, Encode(8, v)), field) == Word(mem, field)
  {
    hide Encode, Decode;
    Widths();
    DecodeEncode(8, v);
    SpliceSlice(mem, at, Encode(8, v), field, field + 8);
  }

  /** Storing one field of a header changes that field of it only. */
  lemma FieldStored(mem: seq<byte>, at: nat, v: nat)
    requires at + HEADER <= |mem| && v < U64
    ensures HeaderAt(Splice(mem, at + SIZE, Encode(8, v)), at) == HeaderAt(mem, at).(size := v)
    ensures HeaderAt(Splice(mem, at + NEXT, Encode(8, v)), at) == HeaderAt(mem, at).(next := v)
    ensures HeaderAt(Splice(mem, at + PREV, Encode(8, v)), at) == HeaderAt(mem, at).(prev := v)
  {
    hide Word, Encode;
    WordStored(mem, at + SIZE, v, at + SIZE);
    WordStored(mem, at + SIZE, v, at + NEXT);
    WordStored(mem, at + SIZE, v, at + PREV);
    WordStored(mem, at + NEXT, v, at + SIZE);
    WordStored(mem, at + NEXT, v, at + NEXT);
    WordStored(mem, at + NEXT, v, at + PREV);
    WordStored(mem, at + PREV, v, at + SIZE);
    WordStored(mem, at + PREV, v, at + NEXT);
    WordStored(mem, at + PREV, v, at + PREV);
  }

  lemma FlagStored(mem: seq<byte>, at: nat, used: bool)
    requires at + HEADER <= |mem|
    ensures HeaderAt(Splice(mem, at + USED, [if used then 1 else 0]), at) == HeaderAt(mem, at).(used := used)
  {
    var t := [if used then 1 else 0];
    SpliceSlice(mem, at + USED, t, at + SIZE, at + SIZE + 8);
    SpliceSlice(mem, at + USED, t, at + NEXT, at + NEXT + 8);
    SpliceSlice(mem, at + USED, t, at + PREV, at + PREV + 8);
  }

  /** A store outside a header leaves the header alone. */
  lemma HeaderFrame(mem: seq<byte>, at: nat, t: seq<byte>, header: nat)
    requires at + |t| <= |mem| && header + HEADER <= |mem|
    requires at + |t| <= header || header + HEADER <= at
    ensures HeaderAt(Splice(mem, at, t), header) == HeaderAt(mem, header)
  {
    SpliceSlice(mem, at, t, header + SIZE, header + SIZE + 8);
    SpliceSlice(mem, at, t, header + NEXT, header + NEXT + 8);
    SpliceSlice(mem, at, t, header + PREV, header + PREV + 8);
  }

  // ----- the list of blocks -----

  /** The blocks cover the arena, one behind the other, in address order. */
  ghost predicate Tiles(b: seq<Block>, total: nat) {
    && b != [] && b[0].at == 0 && b[|b| - 1].End() == total
    && forall i :: 0 <= i < |b| - 1 ==> b[i + 1].at == b[i].End()
  }

  ghost predicate NoFreeNeighbours(b: seq<Block>) {
    forall i :: 0 <= i < |b| - 1 ==> b[i].used || b[i + 1].used
  }

  ghost predicate Aligned(b: seq<Block>) {
    forall i :: 0 <= i < |b| - 1 ==> b[i].size % 16 == 0
  }

  lemma {:induction false} Ordered(b: seq<Block>, total: nat, i: nat, j: nat)
    requires Tiles(b, total) && i < j < |b|
    ensures b[i].End() <= b[j].at
    decreases j
  {
    assert b[j].at == b[j - 1].End() by { assert b[j - 1 + 1].at == b[j - 1].End(); }
    if i < j - 1 { Ordered(b, total, i, j - 1); }
  }

  lemma InArena(b: seq<Block>, total: nat, i: nat)
    requires Tiles(b, total) && i < |b|
    ensures b[i].End() <= total
  {
    if i < |b| - 1 { Ordered(b, total, i, |b| - 1); }
  }

  /** What the header of block i must say. */
  function Want(base: nat, b: seq<Block>, i: nat): Header
    requires i < |b|
  {
    Header(b[i].size, b[i].used,
           if i + 1 < |b| then base + b[i + 1].at else 0,
           if i > 0 then base + b[i - 1].at else 0)
  }

  ghost predicate Linked(mem: seq<byte>, base: nat, b: seq<Block>) {
    forall i :: 0 <= i < |b| ==> b[i].End() <= |mem| && HeaderAt(mem, b[i].at) == Want(base, b, i)
  }

  /** The blocks in use, in address order. */
  function Used(b: seq<Block>): seq<Block> {
    if b == [] then [] else if b[0].used then [b[0]] + Used(b[1..]) else Used(b[1..])
  }

  /** Bytes of the arena that b's blocks in use occupy, headers included. */
  function UsedBytes(b: seq<Block>): nat {
    if b == [] then 0 else (if b[0].used then HEADER + b[0].size else 0) + UsedBytes(b[1..])
  }

  function FreeBytes(b: seq<Block>): nat {
    if b == [] then 0 else (if b[0].used then 0 else HEADER + b[0].size) + FreeBytes(b[1..])
  }

  lemma {:induction false} UsedAppend(a: seq<Block>, b: seq<Block>)
    ensures Used(a + b) == Used(a) + Used(b)
    ensures UsedBytes(a + b) == UsedBytes(a) + UsedBytes(b)
    ensures FreeBytes(a + b) == FreeBytes(a) + FreeBytes(b)
  {
    if a == [] {
      assert a + b == b;
    } else {
      assert (a + b)[1..] == a[1..] + b;
      UsedAppend(a[1..], b);
    }
  }

  lemma UsedOne(x: Block)
    ensures Used([x]) == if x.used then [x] else []
    ensures UsedBytes([x]) == if x.used then HEADER + x.size else 0
    ensures FreeBytes([x]) == if x.used then 0 else HEADER + x.size
  {
    assert [x][1..] == [];
  }

  /** b with block i replaced by the blocks `mid`. */
  function Replace(b: seq<Block>, i: nat, n: nat, mid: seq<Block>): seq<Block>
    requires i + n <= |b|
  {
    b[..i] + mid + b[i + n..]
  }

  lemma ReplaceUsed(b: seq<Block>, i: nat, n: nat, mid: seq<Block>)
    requires i + n <= |b|
    ensures Used(Replace(b, i, n, mid)) == Used(b[..i]) + Used(mid) + Used(b[i + n..])
    ensures Used(b) == Used(b[..i]) + Used(b[i..i + n]) + Used(b[i + n..])
    ensures UsedBytes(Replace(b, i, n, mid)) == UsedBytes(b) - UsedBytes(b[i..i + n]) + UsedBytes(mid)
    ensures FreeBytes(Replace(b, i, n, mid)) == FreeBytes(b) - FreeBytes(b[i..i + n]) + FreeBytes(mid)
  {
    assert b == b[..i] + b[i..i + n] + b[i + n..];
    UsedAppend(b[..i], mid);
    UsedAppend(b[..i] + mid, b[i + n..]);
    UsedAppend(b[..i], b[i..i + n]);
    UsedAppend(b[..i] + b[i..i + n], b[i + n..]);
  }

  // ----- what the shape determines -----

  /** Used and free bytes make up the part of the arena that the blocks cover. */
  lemma {:induction false} Coverage(b: seq<Block>)
    requires b != [] && forall i :: 0 <= i < |b| - 1 ==> b[i + 1].at == b[i].End()
    ensures UsedBytes(b) + FreeBytes(b) == b[|b| - 1].End() - b[0].at
  {
    if |b| == 1 {
      UsedOne(b[0]);
      assert b == [b[0]];
    } else {
      forall i | 0 <= i < |b[1..]| - 1 ensures b[1..][i + 1].at == b[1..][i].End() {
        assert b[i + 1 + 1].at == b[i + 1].End();
      }
      Coverage(b[1..]);
      assert b[0 + 1].at == b[0].End();
    }
  }

  /** The live blocks alone determine the whole list: two lists that cover the same
      stretch without free neighbours and have the same blocks in use are equal. */
  lemma {:induction false} Canonical(a: seq<Block>, b: seq<Block>)
    requires a != [] && b != [] && a[0].at == b[0].at && a[|a| - 1].End() == b[|b| - 1].End()
    requires forall i :: 0 <= i < |a| - 1 ==> a[i + 1].at == a[i].End()
    requires forall i :: 0 <= i < |b| - 1 ==> b[i + 1].at == b[i].End()
    requires NoFreeNeighbours(a) && NoFreeNeighbours(b) && Used(a) == Used(b)
    ensures a == b
    decreases |a|
  {
    UsedOrdered(a);
    UsedOrdered(b);
    if !a[0].used && !b[0].used {
      FreeHead(a);
      FreeHead(b);
    }
    assert a[0] == b[0];
    if |a| == 1 || |b| == 1 {
      if |a| > 1 { Later(a, |a| - 1); }
      if |b| > 1 { Later(b, |b| - 1); }
    } else {
      TailTiles(a);
      TailTiles(b);
      UsedTail(a, b);
      Canonical(a[1..], b[1..]);
      assert a == [a[0]] + a[1..] && b == [b[0]] + b[1..];
    }
  }

  lemma UsedTail(a: seq<Block>, b: seq<Block>)
    requires a != [] && b != [] && a[0] == b[0] && Used(a) == Used(b)
    ensures Used(a[1..]) == Used(b[1..])
  {
    if a[0].used {
      assert Used(a)[1..] == Used(a[1..]);
      assert Used(b)[1..] == Used(b[1..]);
    }
  }

  lemma TailTiles(b: seq<Block>)
    requires |b| > 1 && NoFreeNeighbours(b)
    requires forall i :: 0 <= i < |b| - 1 ==> b[i + 1].at == b[i].End()
    ensures b[1..][0].at == b[0].End() && NoFreeNeighbours(b[1..])
    ensures forall i :: 0 <= i < |b[1..]| - 1 ==> b[1..][i + 1].at == b[1..][i].End()
  {
    assert b[0 + 1].at == b[0].End();
    forall i | 0 <= i < |b[1..]| - 1
      ensures b[1..][i + 1].at == b[1..][i].End() && (b[1..][i].used || b[1..][i + 1].used)
    {
      assert b[i + 1 + 1].at == b[i + 1].End();
    }
  }

  lemma {:induction false} Later(b: seq<Block>, j: nat)
    requires 0 < j < |b| && forall i :: 0 <= i < |b| - 1 ==> b[i + 1].at == b[i].End()
    ensures b[0].End() <= b[j].at
  {
    assert b[j - 1 + 1].at == b[j - 1].End();
    if j > 1 { Later(b, j - 1); }
  }

  /** The first block in use lies at or behind the first block. */
  lemma {:induction false} UsedOrdered(b: seq<Block>)
    requires b != [] && forall i :: 0 <= i < |b| - 1 ==> b[i + 1].at == b[i].End()
    ensures Used(b) != [] ==> Used(b)[0].used && Used(b)[0].at >= b[0].at
    ensures Used(b) != [] && Used(b)[0].at == b[0].at ==> b[0].used && Used(b)[0] == b[0]
    ensures b[0].used ==> Used(b) != [] && Used(b)[0] == b[0]
  {
    if |b| > 1 && !b[0].used {
      forall i | 0 <= i < |b[1..]| - 1 ensures b[1..][i + 1].at == b[1..][i].End() {
        assert b[i + 1 + 1].at == b[i + 1].End();
      }
      assert b[0 + 1].at == b[0].End();
      UsedOrdered(b[1..]);
    }
  }

  /** A free first block reaches exactly to the first block in use, or to the end. */
  lemma FreeHead(b: seq<Block>)
    requires b != [] && !b[0].used && NoFreeNeighbours(b)
    requires forall i :: 0 <= i < |b| - 1 ==> b[i + 1].at == b[i].End()
    ensures b[0].End() == if Used(b) == [] then b[|b| - 1].End() else Used(b)[0].at
  {
    if |b| > 1 {
      assert b[0 + 1].at == b[0].End() && b[0 + 1].used;
    }
  }

  // ----- headers in memory, seen all at once -----

  /** The headers of the blocks b, whatever they say, are hs. */
  ghost predicate Reads(mem: seq<byte>, b: seq<Block>, hs: seq<Header>) {
    |hs| == |b| && forall j :: 0 <= j < |b| ==> b[j].End() <= |mem| && HeaderAt(mem, b[j].at) == hs[j]
  }

  function Live(b: seq<Block>): set<Block> { set x | x in Used(b) }

  /** Payload bytes of the given blocks are the same in both memories. */
  ghost predicate Kept(mem: seq<byte>, mem': seq<byte>, live: set<Block>) {
    |mem'| == |mem| && forall x :: x in live ==>
      x.End() <= |mem| && mem'[x.Payload()..x.End()] == mem[x.Payload()..x.End()]
  }

  lemma {:induction false} UsedMembers(b: seq<Block>, x: Block)
    ensures x in Used(b) <==> x in b && x.used
  {
    if b != [] {
      UsedMembers(b[1..], x);
      assert b == [b[0]] + b[1..];
    }
  }

  /** A store inside header k, of t at offset `field`, changes no other header and no
      payload of a block in use. */
  lemma StoreInHeader(mem: seq<byte>, b: seq<Block>, total: nat, hs: seq<Header>, k: nat, field: nat, t: seq<byte>, h: Header)
    requires Tiles(b, total) && total <= |mem| && Reads(mem, b, hs) && k < |b|
    requires field + |t| <= HEADER && b[k].at + HEADER <= |mem|
    requires HeaderAt(Splice(mem, b[k].at + field, t), b[k].at) == h
    ensures Reads(Splice(mem, b[k].at + field, t), b, hs[k := h])
    ensures Kept(mem, Splice(mem, b[k].at + field, t), Live(b))
  {
    hide Splice, HeaderAt, Tiles;
    var at := b[k].at + field;
    forall j | 0 <= j < |b| ensures HeaderAt(Splice(mem, at, t), b[j].at) == hs[k := h][j] {
      if j < k { Ordered(b, total, j, k); }
      if k < j { Ordered(b, total, k, j); }
      if j != k { HeaderFrame(mem, at, t, b[j].at); }
    }
    forall x | x in Live(b) ensures x.End() <= |mem|
      && Splice(mem, at, t)[x.Payload()..x.End()] == mem[x.Payload()..x.End()]
    {
      UsedMembers(b, x);
      var j :| 0 <= j < |b| && b[j] == x;
      InArena(b, total, j);
      if j < k { Ordered(b, total, j, k); }
      if k < j { Ordered(b, total, k, j); }
      SpliceSlice(mem, at, t, x.Payload(), x.End());
    }
  }

  /** The live blocks of c are those of b and, in the place of the free block k, x. */
  ghost predicate Allocated(b: seq<Block>, c: seq<Block>, k: nat, x: Block) {
    && k < |b| && !b[k].used && x.used && x.at == b[k].at && x.size <= b[k].size
    && Used(b) == Used(b[..k]) + Used(b[k + 1..])
    && Used(c) == Used(b[..k]) + [x] + Used(b[k + 1..])
  }

  /** The live blocks of c are those of b without block k. */
  ghost predicate Released(b: seq<Block>, c: seq<Block>, k: nat) {
    && k < |b| && b[k].used
    && Used(b) == Used(b[..k]) + [b[k]] + Used(b[k + 1..])
    && Used(c) == Used(b[..k]) + Used(b[k + 1..])
  }

  /** Freeing what was just allocated, whatever happened in between to the places of
      the blocks, leaves exactly the list that was there before. */
  lemma AllocateThenFree(b: seq<Block>, c: seq<Block>, d: seq<Block>, total: nat, k: nat, j: nat, x: Block)
    requires Tiles(b, total) && Tiles(c, total) && Tiles(d, total) && NoFreeNeighbours(b) && NoFreeNeighbours(d)
    requires Allocated(b, c, k, x) && Released(c, d, j) && c[j] == x
    ensures d == b
  {
    var pre, post := Used(b[..k]), Used(b[k + 1..]);
    var pre', post' := Used(c[..j]), Used(c[j + 1..]);
    UsedDistinct(c, total);
    assert Used(c)[|pre|] == x == Used(c)[|pre'|];
    assert pre == Used(c)[..|pre|] && pre' == Used(c)[..|pre'|];
    assert post == Used(c)[|pre| + 1..] && post' == Used(c)[|pre'| + 1..];
    Canonical(d, b);
  }

  lemma {:induction false} UsedDistinct(b: seq<Block>, total: nat)
    requires Tiles(b, total)
    ensures forall i, j :: 0 <= i < j < |Used(b)| ==> Used(b)[i] != Used(b)[j]
  {
    UsedIncreasing(b);
  }

  lemma {:induction false} UsedIncreasing(b: seq<Block>)
    requires forall i :: 0 <= i < |b| - 1 ==> b[i + 1].at == b[i].End()
    ensures forall i, j :: 0 <= i < j < |Used(b)| ==> Used(b)[i].at < Used(b)[j].at
    ensures b != [] ==> forall i :: 0 <= i < |Used(b)| ==> Used(b)[i].at >= b[0].at
  {
    if |b| > 1 {
      forall i | 0 <= i < |b[1..]| - 1 ensures b[1..][i + 1].at == b[1..][i].End() {
        assert b[i + 1 + 1].at == b[i + 1].End();
      }
      assert b[0 + 1].at == b[0].End();
      UsedIncreasing(b[1..]);
    } else if |b| == 1 {
      UsedOne(b[0]);
      assert b == [b[0]];
    }
  }

  lemma KeptFewer(m0: seq<byte>, m1: seq<byte>, live: set<Block>, fewer: set<Block>)
    requires Kept(m0, m1, live) && fewer <= live
    ensures Kept(m0, m1, fewer)
  {}

  lemma AllocatedLive(b: seq<Block>, c: seq<Block>, total: nat, k: nat, x: Block)
    requires Tiles(b, total) && Allocated(b, c, k, x)
    ensures Live(c) == Live(b) + {x} && x !in Live(b)
  {
    var pre, post := Used(b[..k]), Used(b[k + 1..]);
    assert forall y :: y in pre + [x] + post <==> y in pre + post || y == x;
    forall y | y in Used(b) ensures y.at != x.at {
      UsedMembers(b, y);
      var i :| 0 <= i < |b| && b[i] == y;
      if i < k { Ordered(b, total, i, k); }
      if k < i { Ordered(b, total, k, i); }
    }
  }

  lemma ReleasedLive(b: seq<Block>, c: seq<Block>, total: nat, k: nat)
    requires Tiles(b, total) && Released(b, c, k)
    ensures Live(c) == Live(b) - {b[k]} && b[k] in Live(b)
  {
    var pre, post := Used(b[..k]), Used(b[k + 1..]);
    UsedDistinct(b, total);
    assert Used(b)[|pre|] == b[k];
    forall y | y in pre + post ensures y in Used(b) && y != b[k] {
      var i :| 0 <= i < |pre + post| && (pre + post)[i] == y;
      assert y == Used(b)[if i < |pre| then i else i + 1];
    }
    forall y | y in Used(b) && y != b[k] ensures y in pre + post {
      var i :| 0 <= i < |Used(b)| && Used(b)[i] == y;
      assert y == (pre + post)[if i < |pre| then i else i - 1];
    }
  }

  /** Writing inside the payload of a live block changes no header and no other payload. */
  lemma StoreInPayload(mem: seq<byte>, base: nat, b: seq<Block>, total: nat, k: nat, at: nat, t: seq<byte>)
    requires Tiles(b, total) && total <= |mem| && Linked(mem, base, b) && k < |b|
    requires b[k].Payload() <= at && at + |t| <= b[k].End()
    ensures at + |t| <= |mem|
    ensures Linked(Splice(mem, at, t), base, b)
    ensures Kept(mem, Splice(mem, at, t), Live(b) - {b[k]})
  {
    hide Splice, HeaderAt, Tiles;
    InArena(b, total, k);
    forall j | 0 <= j < |b| ensures HeaderAt(Splice(mem, at, t), b[j].at) == Want(base, b, j) {
      if j < k { Ordered(b, total, j, k); }
      if k < j { Ordered(b, total, k, j); }
      HeaderFrame(mem, at, t, b[j].at);
    }
    forall x | x in Live(b) - {b[k]} ensures x.End() <= |mem|
      && Splice(mem, at, t)[x.Payload()..x.End()] == mem[x.Payload()..x.End()]
    {
      UsedMembers(b, x);
      var j :| 0 <= j < |b| && b[j] == x;
      InArena(b, total, j);
      if j < k { Ordered(b, total, j, k); }
      if k < j { Ordered(b, total, k, j); }
      SpliceSlice(mem, at, t, x.Payload(), x.End());
    }
  }

  lemma KeptTrans(m0: seq<byte>, m1: seq<byte>, m2: seq<byte>, live: set<Block>)
    requires Kept(m0, m1, live) && Kept(m1, m2, live)
    ensures Kept(m0, m2, live)
  {}

  /** All the headers that a list wants. */
  function Wanted(base: nat, b: seq<Block>): seq<Header> {
    seq(|b|, i requires 0 <= i < |b| => Want(base, b, i))
  }

  lemma LinkedIsReads(mem: seq<byte>, base: nat, b: seq<Block>)
    ensures Linked(mem, base, b) <==> Reads(mem, b, Wanted(base, b))
  {}

  // ----- the three changes of the list -----

  function SetUsed(b: seq<Block>, i: nat, used: bool): seq<Block>
    requires i < |b|
  {
    Replace(b, i, 1, [b[i].Mark(used)])
  }

  function SplitAt(b: seq<Block>, i: nat, size: nat): seq<Block>
    requires i < |b| && size + HEADER <= b[i].size
  {
    Replace(b, i, 1, [b[i].(size := size), Block(b[i].at + HEADER + size, b[i].size - size - HEADER, false)])
  }

  function MergeAt(b: seq<Block>, i: nat): seq<Block>
    requires i + 1 < |b|
  {
    Replace(b, i, 2, [b[i].(size := b[i].size + HEADER + b[i + 1].size)])
  }

  lemma SetUsedShape(b: seq<Block>, total: nat, i: nat, used: bool)
    requires Tiles(b, total) && i < |b|
    ensures SetUsed(b, i, used) == b[i := b[i].Mark(used)]
    ensures Tiles(SetUsed(b, i, used), total)
    ensures Aligned(b) ==> Aligned(SetUsed(b, i, used))
  {
    var c := SetUsed(b, i, used);
    forall j | 0 <= j < |c| - 1 ensures c[j + 1].at == c[j].End() { assert b[j + 1].at == b[j].End(); }
  }

  lemma SplitEntries(b: seq<Block>, i: nat, size: nat)
    requires i < |b| && size + HEADER <= b[i].size
    ensures var c := SplitAt(b, i, size);
      && |c| == |b| + 1
      && (forall j :: 0 <= j < i ==> c[j] == b[j])
      && c[i] == b[i].(size := size)
      && c[i + 1] == Block(b[i].at + HEADER + size, b[i].size - size - HEADER, false)
      && (forall j :: i + 2 <= j < |c| ==> c[j] == b[j - 1])
  {}

  lemma SplitTiles(b: seq<Block>, total: nat, i: nat, size: nat)
    requires Tiles(b, total) && i < |b| && size + HEADER <= b[i].size
    ensures Tiles(SplitAt(b, i, size), total)
    ensures Aligned(b) && size % 16 == 0 ==> Aligned(SplitAt(b, i, size))
  {
    hide SplitAt;
    SplitEntries(b, i, size);
    var c := SplitAt(b, i, size);
    forall j | 0 <= j < |c| - 1 ensures c[j + 1].at == c[j].End() {
      if j < i { assert b[j + 1].at == b[j].End(); }
      if j > i { assert b[j - 1 + 1].at == b[j - 1].End(); }
    }
    assert c[|c| - 1].End() == b[|b| - 1].End();
    if Aligned(b) && size % 16 == 0 {
      forall j | 0 <= j < |c| - 1 ensures c[j].size % 16 == 0 {
        if j == i + 1 { assert b[i].size % 16 == 0; }
        if j > i + 1 { assert b[j - 1].size % 16 == 0; }
      }
    }
  }

  /** Splitting a free block changes neither the blocks in use nor what they occupy. */
  lemma SplitUsed(b: seq<Block>, i: nat, size: nat)
    requires i < |b| && size + HEADER <= b[i].size && !b[i].used
    ensures Used(SplitAt(b, i, size)) == Used(b) && UsedBytes(SplitAt(b, i, size)) == UsedBytes(b)
  {
    hide Used, UsedBytes, FreeBytes, Replace;
    var x, y := b[i].(size := size), Block(b[i].at + HEADER + size, b[i].size - size - HEADER, false);
    ReplaceUsed(b, i, 1, [x, y]);
    assert b[i..i + 1] == [b[i]] && [x, y] == [x] + [y];
    UsedAppend([x], [y]);
    UsedOne(x);
    UsedOne(y);
    UsedOne(b[i]);
  }

  lemma MergeEntries(b: seq<Block>, i: nat)
    requires i + 1 < |b|
    ensures var c := MergeAt(b, i);
      && |c| == |b| - 1
      && (forall j :: 0 <= j < i ==> c[j] == b[j])
      && c[i] == b[i].(size := b[i].size + HEADER + b[i + 1].size)
      && (forall j :: i + 1 <= j < |c| ==> c[j] == b[j + 1])
  {}

  lemma MergeTiles(b: seq<Block>, total: nat, i: nat)
    requires Tiles(b, total) && i + 1 < |b|
    ensures Tiles(MergeAt(b, i), total)
    ensures Aligned(b) ==> Aligned(MergeAt(b, i))
  {
    hide MergeAt;
    MergeEntries(b, i);
    var c := MergeAt(b, i);
    assert b[i + 1].at == b[i].End();
    forall j | 0 <= j < |c| - 1 ensures c[j + 1].at == c[j].End() {
      if j < i { assert b[j + 1].at == b[j].End(); }
      if j >= i { assert b[j + 1 + 1].at == b[j + 1].End(); }
    }
    assert c[|c| - 1].End() == b[|b| - 1].End();
    if Aligned(b) {
      forall j | 0 <= j < |c| - 1 ensures c[j].size % 16 == 0 {
        if j == i { assert b[i].size % 16 == 0 && b[i + 1].size % 16 == 0; }
        if j > i { assert b[j + 1].size % 16 == 0; }
      }
    }
  }

  /** Merging two free blocks changes neither the blocks in use nor what they occupy. */
  lemma MergeUsed(b: seq<Block>, i: nat)
    requires i + 1 < |b| && !b[i].used && !b[i + 1].used
    ensures Used(MergeAt(b, i)) == Used(b) && UsedBytes(MergeAt(b, i)) == UsedBytes(b)
  {
    hide Used, UsedBytes, FreeBytes, Replace;
    var x := b[i].(size := b[i].size + HEADER + b[i + 1].size);
    ReplaceUsed(b, i, 2, [x]);
    assert b[i..i + 2] == [b[i]] + [b[i + 1]];
    UsedAppend([b[i]], [b[i + 1]]);
    UsedOne(b[i]);
    UsedOne(b[i + 1]);
    UsedOne(x);
  }

  /** Flipping the mark of a block adds it to the blocks in use or removes it. */
  lemma SetUsedUsed(b: seq<Block>, i: nat, used: bool)
    requires i < |b|
    ensures Used(SetUsed(b, i, used)) == Used(b[..i]) + Used([b[i].Mark(used)]) + Used(b[i + 1..])
    ensures Used(b) == Used(b[..i]) + Used([b[i]]) + Used(b[i + 1..])
    ensures UsedBytes(SetUsed(b, i, used)) == UsedBytes(b) - UsedBytes([b[i]]) + UsedBytes([b[i].Mark(used)])
  {
    hide *;
    var one, marked := [b[i]], [b[i].Mark(used)];
    assert b[i..i + 1] == one;
    ReplaceUsed(b, i, 1, marked);
    SetUsedIs(b, i, used);
  }

  lemma SetUsedIs(b: seq<Block>, i: nat, used: bool)
    requires i < |b|
    ensures SetUsed(b, i, used) == Replace(b, i, 1, [b[i].Mark(used)])
  {}

  // ----- the headers after a change of the list -----

  lemma SetUsedReads(mem: seq<byte>, base: nat, b: seq<Block>, k: nat, used: bool)
    requires k < |b| && Reads(mem, b, Wanted(base, b)[k := Wanted(base, b)[k].(used := used)])
    ensures Linked(mem, base, b[k := b[k].Mark(used)])
  {
    hide HeaderAt;
    var c, hs := b[k := b[k].Mark(used)], Wanted(base, b)[k := Wanted(base, b)[k].(used := used)];
    forall j | 0 <= j < |c| ensures c[j].End() <= |mem| && HeaderAt(mem, c[j].at) == Want(base, c, j) {
      assert HeaderAt(mem, b[j].at) == hs[j];
    }
  }

  /** The two parts of a split block, as seen from the rest of the list. */
  lemma SplitParts(b: seq<Block>, k: nat, size: nat)
    requires k < |b| && size + HEADER <= b[k].size
    ensures var c := SplitAt(b, k, size);
      k < |c| && Used(c[..k]) == Used(b[..k]) && Used(c[k + 1..]) == Used(b[k + 1..])
  {
    var c := SplitAt(b, k, size);
    var y := Block(b[k].at + HEADER + size, b[k].size - size - HEADER, false);
    assert c[..k] == b[..k];
    assert c[k + 1..] == [y] + b[k + 1..];
    assert ([y] + b[k + 1..])[1..] == b[k + 1..];
  }

  /** Taking a free block, whole or its first part, leaves no free neighbours. */
  lemma TakeKeepsShape(b: seq<Block>, k: nat, size: nat, split: bool)
    requires NoFreeNeighbours(b) && k < |b| && !b[k].used && (split ==> size + HEADER <= b[k].size)
    ensures var c := if split then SplitAt(b, k, size) else b;
      k < |c| && NoFreeNeighbours(c[k := c[k].Mark(true)])
  {
    if split {
      hide SplitAt;
      SplitEntries(b, k, size);
      var c := SplitAt(b, k, size);
      var d := c[k := c[k].Mark(true)];
      forall i | 0 <= i < |d| - 1 ensures d[i].used || d[i + 1].used {
        if i < k - 1 { assert b[i].used || b[i + 1].used; }
        if i == k + 1 { assert b[k].used || b[k + 1].used; }
        if i > k + 1 { assert b[i - 1].used || b[i - 1 + 1].used; }
      }
    }
  }

  /** The headers at the places where a list has blocks. */
  function Headers(mem: seq<byte>, b: seq<Block>): (hs: seq<Header>)
    ensures |hs| == |b|
  {
    seq(|b|, j requires 0 <= j < |b| =>
      if b[j].End() <= |mem| then HeaderAt(mem, b[j].at) else Header(0, false, 0, 0))
  }

  /** The header stores of splitBlock, in the order of the code; c is the list after. */
  function SplitStores(base: nat, c: seq<Block>, hs: seq<Header>, k: nat): (r: seq<Header>)
    requires k + 1 < |c| == |hs|
    ensures |r| == |c|
  {
    var new_ := base + c[k + 1].at;
    var h1 := hs[k + 1 := Header(c[k + 1].size, false, hs[k].next, base + c[k].at)];
    var h2 := if k + 2 < |c| then h1[k + 2 := h1[k + 2].(prev := new_)] else h1;
    var h3 := h2[k := h2[k].(next := new_)];
    h3[k := h3[k].(size := c[k].size)]
  }

  lemma SplitWanted(mem: seq<byte>, base: nat, b: seq<Block>, total: nat, k: nat, size: nat)
    requires Tiles(b, total) && total <= |mem| && Linked(mem, base, b)
    requires k < |b| && size + HEADER <= b[k].size
    ensures var c := SplitAt(b, k, size);
      Reads(mem, c, Headers(mem, c)) && Headers(mem, c)[k] == Want(base, b, k)
      && SplitStores(base, c, Headers(mem, c), k) == Wanted(base, c)
  {
    hide SplitAt, HeaderAt, Tiles, SplitStores, Wanted;
    SplitEntries(b, k, size);
    var c := SplitAt(b, k, size);
    SplitTiles(b, total, k, size);
    forall j | 0 <= j < |c| ensures c[j].End() <= |mem| { InArena(c, total, j); }
    var hs := Headers(mem, c);
    forall j | 0 <= j < |c| && j != k + 1
      ensures hs[j] == Want(base, b, if j <= k then j else j - 1)
    {
      var i := if j <= k then j else j - 1;
      assert c[j].at == b[i].at;
      assert HeaderAt(mem, b[i].at) == Want(base, b, i);
    }
    SplitStored(base, b, total, k, size, hs);
  }

  lemma SplitStored(base: nat, b: seq<Block>, total: nat, k: nat, size: nat, hs: seq<Header>)
    requires Tiles(b, total) && k < |b| && size + HEADER <= b[k].size
    requires |hs| == |b| + 1
    requires forall j :: 0 <= j < |hs| && j != k + 1 ==> hs[j] == Want(base, b, if j <= k then j else j - 1)
    ensures |SplitAt(b, k, size)| == |b| + 1
    ensures SplitStores(base, SplitAt(b, k, size), hs, k) == Wanted(base, SplitAt(b, k, size))
  {
    hide SplitAt, Tiles;
    SplitEntries(b, k, size);
    var c := SplitAt(b, k, size);
    var r := SplitStores(base, c, hs, k);
    forall j | 0 <= j < |c| ensures r[j] == Want(base, c, j) {
      if j == k + 2 { assert hs[j] == Want(base, b, j - 1); }
      if j == k { assert hs[j] == Want(base, b, j); }
      if j > k + 2 { assert hs[j] == Want(base, b, j - 1) && c[j - 1].at == b[j - 2].at; }
      if j < k { assert hs[j] == Want(base, b, j) && c[j + 1].at == b[j + 1].at; }
    }
    assert r == Wanted(base, c);
  }

  /** The header stores of one merge, on the headers of the list before. */
  function MergeStores(base: nat, b: seq<Block>, hs: seq<Header>, k: nat): (r: seq<Header>)
    requires k + 1 < |b| == |hs|
    ensures |r| == |b|
  {
    var h1 := hs[k := hs[k].(size := b[k].size + HEADER + b[k + 1].size)];
    var h2 := h1[k := h1[k].(next := h1[k + 1].next)];
    if k + 2 < |b| then h2[k + 2 := h2[k + 2].(prev := base + b[k].at)] else h2
  }

  lemma MergeWanted(mem: seq<byte>, base: nat, b: seq<Block>, total: nat, k: nat)
    requires Tiles(b, total) && total <= |mem| && k + 1 < |b|
    requires Reads(mem, b, MergeStores(base, b, Wanted(base, b), k))
    ensures Linked(mem, base, MergeAt(b, k))
  {
    hide MergeAt, HeaderAt, Tiles, MergeStores;
    MergeEntries(b, k);
    MergeTiles(b, total, k);
    var c := MergeAt(b, k);
    forall j | 0 <= j < |c| ensures c[j].End() <= |mem| && HeaderAt(mem, c[j].at) == Want(base, c, j) {
      InArena(c, total, j);
      MergeStored(base, b, k, j);
      var i := if j <= k then j else j + 1;
      assert c[j].at == b[i].at;
      assert HeaderAt(mem, b[i].at) == MergeStores(base, b, Wanted(base, b), k)[i];
    }
  }

  lemma MergeStoresEntries(base: nat, b: seq<Block>, hs: seq<Header>, k: nat)
    requires k + 1 < |b| == |hs|
    ensures var r := MergeStores(base, b, hs, k);
      && r[k] == Header(b[k].size + HEADER + b[k + 1].size, hs[k].used, hs[k + 1].next, hs[k].prev)
      && (k + 2 < |b| ==> r[k + 2] == hs[k + 2].(prev := base + b[k].at))
      && (forall i :: 0 <= i < |b| && i != k && i != k + 2 ==> r[i] == hs[i])
  {}

  lemma MergeStored(base: nat, b: seq<Block>, k: nat, j: nat)
    requires k + 1 < |b| && j < |b| - 1
    ensures |MergeAt(b, k)| == |b| - 1
    ensures MergeStores(base, b, Wanted(base, b), k)[if j <= k then j else j + 1] == Want(base, MergeAt(b, k), j)
  {
    hide MergeAt, MergeStores;
    MergeEntries(b, k);
    MergeStoresEntries(base, b, Wanted(base, b), k);
    var c := MergeAt(b, k);
    var i := if j <= k then j else j + 1;
    assert Wanted(base, b)[i] == Want(base, b, i);
    if j < k {
      assert c[j + 1].at == b[j + 1].at;
    } else if j == k {
      assert Wanted(base, b)[k + 1] == Want(base, b, k + 1);
    } else if j > k + 1 {
      assert c[j - 1].at == b[j].at;
    }
  }

  /** Every block starts at a multiple of 16 from the base. */
  lemma {:induction false} PlacesAligned(b: seq<Block>, total: nat, k: nat)
    requires Tiles(b, total) && Aligned(b) && k < |b|
    ensures b[k].at % 16 == 0
  {
    if k > 0 {
      PlacesAligned(b, total, k - 1);
      assert b[k - 1 + 1].at == b[k - 1].End();
    }
  }

  // ----- consequences for the users of the heap -----

  /** A heap without live blocks is the single free block it began as. */
  lemma NothingLive(b: seq<Block>, total: nat)
    requires Tiles(b, total) && NoFreeNeighbours(b) && Used(b) == []
    ensures total >= HEADER && b == [Block(0, total - HEADER, false)]
  {
    InArena(b, total, 0);
    Canonical(b, [Block(0, total - HEADER, false)]);
  }

  /** Live blocks do not overlap. */
  lemma LiveApart(b: seq<Block>, total: nat, x: Block, y: Block)
    requires Tiles(b, total) && x in Used(b) && y in Used(b) && x != y
    ensures x.End() <= y.at || y.End() <= x.at
  {
    UsedMembers(b, x);
    UsedMembers(b, y);
    var i :| 0 <= i < |b| && b[i] == x;
    var j :| 0 <= j < |b| && b[j] == y;
    if i < j { Ordered(b, total, i, j); } else { Ordered(b, total, j, i); }
  }

  /** totalSize - usedSize, as freeSize() computes it, wraps around exactly when no
      block is free; otherwise it is the free payload and headers less one header. */
  lemma FreeSizeWraps(b: seq<Block>, total: nat)
    requires Tiles(b, total)
    ensures total < HEADER + UsedBytes(b) <==> forall i :: 0 <= i < |b| ==> b[i].used
    ensures total - (HEADER + UsedBytes(b)) == FreeBytes(b) - HEADER
  {
    Coverage(b);
    SomeFree(b);
  }

  lemma {:induction false} SomeFree(b: seq<Block>)
    ensures if forall i :: 0 <= i < |b| ==> b[i].used then FreeBytes(b) == 0 else FreeBytes(b) >= HEADER
  {
    if b != [] {
      SomeFree(b[1..]);
      if forall i :: 0 <= i < |b| ==> b[i].used {
        assert forall i :: 0 <= i < |b[1..]| ==> b[1..][i].used;
      } else if b[0].used {
        var i :| 0 <= i < |b| && !b[i].used;
        assert !b[1..][i - 1].used;
      }
    }
  }
}
