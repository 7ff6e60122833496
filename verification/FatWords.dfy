/** The words of a device from the first file allocation table on, of the table and of all
    that follows it: a link can lead anywhere among them. */
module FatWords {
  import opened Bytes
  import opened DirEntry
  import opened FatChain
  import opened FatLayout

  /** Table words in a sector. */
  function PerSector(g: Geometry): nat { if g.wide then 128 else 256 }

  /** How many copies of the table writeFAT updates. */
  function Copies(g: Geometry): nat { if g.wide then 1 else g.fatCount }

  /** Words from one copy of the table to the next. */
  function Stride(g: Geometry): nat { g.sectorsPerFat * PerSector(g) }

  /** The sector of word c of a copy is on the device. */
  predicate Present(g: Geometry, bytes: seq<byte>, copy: nat, c: nat) {
    512 * g.FatSector(copy, c) + 512 <= |bytes|
  }

  function WordCount(g: Geometry, bytes: seq<byte>): nat {
    if |bytes| / 512 > g.fatStart then (|bytes| / 512 - g.fatStart) * PerSector(g) else 0
  }

  /** Where word c of a copy is, and which word of the device it is. */
  lemma WordPlace(g: Geometry, bytes: seq<byte>, copy: nat, c: nat)
    ensures Present(g, bytes, copy, c) <==> copy * Stride(g) + c < WordCount(g, bytes)
    ensures g.EntryOffset(copy, c) == g.EntryOffset(0, copy * Stride(g) + c)
    ensures Present(g, bytes, copy, c) ==> g.EntryOffset(copy, c) + g.Width() <= |bytes|
    ensures 512 * g.FatSector(copy, c) + g.EntryStart(c) % 512 == g.EntryOffset(copy, c)
    ensures g.EntryStart(c) % 512 + g.Width() <= 512
  {
    SectorSplit(g, c);
    CopyStart(g, copy);
    var sectors, before := |bytes| / 512, copy * g.sectorsPerFat;
    assert Present(g, bytes, copy, c) <==> g.fatStart + before + g.EntryStart(c) / 512 < sectors;
  }

  lemma CopyStart(g: Geometry, copy: nat)
    ensures copy * Stride(g) == copy * g.sectorsPerFat * PerSector(g)
  {}

  /** The words of a device behind its start of the table. */
  ghost function Words(g: Geometry, bytes: seq<byte>): (w: seq<nat>)
    ensures |w| == WordCount(g, bytes)
  {
    seq(WordCount(g, bytes), c requires 0 <= c < WordCount(g, bytes) =>
      WordPlace(g, bytes, 0, c); EntryAt(g, bytes, g.EntryOffset(0, c)))
  }

  /** What readFAT gives for any number: FAT16 takes a sector it cannot read for zero. */
  ghost function WordAt(g: Geometry, bytes: seq<byte>, c: nat): nat {
    if c < WordCount(g, bytes) then Words(g, bytes)[c] else 0
  }

  /** The word found in the sector that readFAT loads. */
  lemma WordRead(g: Geometry, bytes: seq<byte>, c: nat, buffer: seq<byte>)
    requires Present(g, bytes, 0, c)
    requires buffer == bytes[512 * g.FatSector(0, c)..512 * g.FatSector(0, c) + 512]
    ensures g.EntryStart(c) % 512 + g.Width() <= 512
    ensures EntryAt(g, buffer, g.EntryStart(c) % 512) == WordAt(g, bytes, c) < g.Values()
  {
    hide Decode, Encode, Pow256;
    WordPlace(g, bytes, 0, c);
    SliceOfSlice(bytes, 512 * g.FatSector(0, c), 512, g.EntryStart(c) % 512, g.Width());
    Widths();
    EncodeDecode(EntryBytesAt(g, bytes, g.EntryOffset(0, c)));
  }

  /** The bytes after writeFAT has stored a value in the first n copies, as far as the device
      reaches. */
  ghost function PutEntry(g: Geometry, bytes: seq<byte>, c: nat, value: nat, n: nat): (r: seq<byte>)
    ensures |r| == |bytes|
  {
    if n == 0 then bytes
    else
      var b := PutEntry(g, bytes, c, value, n - 1);
      WordPlace(g, b, n - 1, c);
      if Present(g, b, n - 1, c) then PutOne(g, b, g.EntryOffset(n - 1, c), value) else b
  }

  /** One entry stored. */
  ghost function PutOne(g: Geometry, b: seq<byte>, at: nat, value: nat): (r: seq<byte>)
    requires at + g.Width() <= |b|
    ensures |r| == |b|
  {
    Splice(b, at, NewEntry(g.wide, EntryBytesAt(g, b, at), value))
  }

  /** The same on words. */
  function PutCopies(w: seq<nat>, c: nat, value: nat, n: nat, stride: nat): (r: seq<nat>)
    ensures |r| == |w|
  {
    if n == 0 then w
    else
      var u, d := PutCopies(w, c, value, n - 1, stride), (n - 1) * stride + c;
      if d < |u| then u[d := value] else u
  }

  lemma PutOneWords(g: Geometry, bytes: seq<byte>, j: nat, value: nat)
    requires j < WordCount(g, bytes) && value < g.Values()
    ensures g.EntryOffset(0, j) + g.Width() <= |bytes|
    ensures Words(g, PutOne(g, bytes, g.EntryOffset(0, j), value)) == Words(g, bytes)[j := value]
  {
    hide EntryValue, NewEntry, Splice;
    WordPlace(g, bytes, 0, j);
    var at := g.EntryOffset(0, j);
    var was := EntryBytesAt(g, bytes, at);
    var t := NewEntry(g.wide, was, value);
    NewEntryIs(g.wide, was, value);
    var after := Splice(bytes, at, t);
    var l, r := Words(g, after), Words(g, bytes)[j := value];
    forall d | 0 <= d < |l| ensures l[d] == r[d] {
      WordPlace(g, bytes, 0, d);
      SpliceSlice(bytes, at, t, g.EntryOffset(0, d), g.EntryOffset(0, d) + g.Width());
      assert d != j ==> g.EntryOffset(0, d) + g.Width() <= at || at + g.Width() <= g.EntryOffset(0, d);
    }
  }

  lemma {:induction false} PutWords(g: Geometry, bytes: seq<byte>, c: nat, value: nat, n: nat)
    requires value < g.Values()
    ensures Words(g, PutEntry(g, bytes, c, value, n)) == PutCopies(Words(g, bytes), c, value, n, Stride(g))
  {
    hide Words, PutOne, Stride;
    if n > 0 {
      var b := PutEntry(g, bytes, c, value, n - 1);
      PutWords(g, bytes, c, value, n - 1);
      WordPlace(g, b, n - 1, c);
      if Present(g, b, n - 1, c) { PutOneWords(g, b, (n - 1) * Stride(g) + c, value); }
    }
  }

  /** On a mounted volume, for an entry of the table, this is what writeFAT is for. */
  lemma {:induction false} PutRepresents(g: Geometry, bytes: seq<byte>, fat: seq<nat>, data: seq<seq<byte>>, root: seq<Entry>,
                                         c: nat, value: nat, n: nat)
    requires Represents(g, bytes, fat, data, root) && c < |fat| && value < g.Values() && n <= g.fatCount
    ensures Represents(g, PutEntry(g, bytes, c, value, n), if n == 0 then fat else fat[c := value], data, root)
  {
    hide TableIs, ClustersAre, RootIs, EntryValue, NewEntry, Fits, Splice, EntryBytesAt, Geometry.EntryOffset, Geometry.FatSector;
    if n > 0 {
      var b := PutEntry(g, bytes, c, value, n - 1);
      var now := if n == 1 then fat else fat[c := value];
      PutRepresents(g, bytes, fat, data, root, c, value, n - 1);
      EntryPlace(g, b, n - 1, c);
      var was := EntryBytesAt(g, b, g.EntryOffset(n - 1, c));
      NewEntryIs(g.wide, was, value);
      EntryMeaning(g, b, now, data, root, n - 1, c, NewEntry(g.wide, was, value));
      assert fat[c := value][c := value] == fat[c := value];
    }
  }

  lemma SameSize(g: Geometry, a: seq<byte>, b: seq<byte>)
    requires |a| == |b| && Fits(g, a)
    ensures Fits(g, b)
  {}

  /** And no other entry of any copy changes. */
  lemma {:induction false} PutCopyFrame(g: Geometry, bytes: seq<byte>, c: nat, value: nat, n: nat, k: nat, d: nat)
    requires Fits(g, bytes) && c < g.totalClusters + 2 && d < g.totalClusters + 2 && n <= g.fatCount && k < g.fatCount
    ensures g.EntryOffset(k, d) + g.Width() <= |bytes|
    ensures EntryBytesAt(g, PutEntry(g, bytes, c, value, n), g.EntryOffset(k, d))
         == if d == c && k < n then NewEntry(g.wide, EntryBytesAt(g, bytes, g.EntryOffset(k, d)), value)
            else EntryBytesAt(g, bytes, g.EntryOffset(k, d))
  {
    hide NewEntry, Fits, Splice, EntryBytesAt, Geometry.EntryOffset, Geometry.FatSector;
    EntryPlace(g, bytes, k, d);
    if n > 0 {
      var b := PutEntry(g, bytes, c, value, n - 1);
      PutCopyFrame(g, bytes, c, value, n - 1, k, d);
      PutCopyFrame(g, bytes, c, value, n - 1, n - 1, c);
      SameSize(g, bytes, b);
      EntryPlace(g, b, n - 1, c);
      CopyFrame(g, b, n - 1, c, NewEntry(g.wide, EntryBytesAt(g, b, g.EntryOffset(n - 1, c)), value), k, d);
    }
  }

  /** The table is the first of the words. */
  lemma TableWords(g: Geometry, bytes: seq<byte>, fat: seq<nat>, data: seq<seq<byte>>, root: seq<Entry>)
    requires Represents(g, bytes, fat, data, root)
    ensures fat <= Words(g, bytes)
  {
    hide ClustersAre, RootIs, EntryValue;
    if fat != [] {
      var n := |fat| - 1;
      EntryPlace(g, bytes, 0, n);
      WordPlace(g, bytes, 0, n);
    }
  }

  // ----- freeing a chain, whatever the words are -----

  lemma {:induction false} ZeroCopies(w: seq<nat>, c: nat, n: nat, stride: nat)
    ensures var r := PutCopies(w, c, 0, n, stride);
      && (forall d :: 0 <= d < |w| ==> r[d] == w[d] || r[d] == 0)
      && (n > 0 && c < |w| ==> r[c] == 0)
      && NonZero(r) <= NonZero(w)
      && (n > 0 && c < |w| && w[c] != 0 ==> NonZero(r) < NonZero(w))
  {
    if n > 0 {
      ZeroCopies(w, c, n - 1, stride);
      var r := PutCopies(w, c, 0, n, stride);
      if n == 1 { assert (n - 1) * stride + c == c; }
      if c < |w| && w[c] != 0 { assert c in NonZero(w) && c !in NonZero(r); }
    }
  }

  /** The words after freeClusterChain from c: each word visited is zeroed with its copies, a
      word behind the end of the device reads as zero, and the first marker ends the walk. */
  ghost function FreeRun(w: seq<nat>, eoc: nat, n: nat, stride: nat, c: nat): (r: seq<nat>)
    requires n > 0
    ensures |r| == |w|
    decreases NonZero(w)
  {
    if Stops(eoc, c) || c >= |w| then w
    else
      ZeroCopies(w, c, n, stride);
      var v := PutCopies(w, c, 0, n, stride);
      if Stops(eoc, w[c]) then v else FreeRun(v, eoc, n, stride, w[c])
  }

  /** One turn of the loop. */
  lemma RunStep(w: seq<nat>, eoc: nat, n: nat, stride: nat, c: nat)
    requires n > 0
    ensures Stops(eoc, c) ==> FreeRun(w, eoc, n, stride, c) == w
    ensures !Stops(eoc, c) ==>
      var v, next := PutCopies(w, c, 0, n, stride), if c < |w| then w[c] else 0;
      && (Stops(eoc, next) ==> v == FreeRun(w, eoc, n, stride, c))
      && (!Stops(eoc, next) ==> FreeRun(v, eoc, n, stride, next) == FreeRun(w, eoc, n, stride, c) && NonZero(v) < NonZero(w))
      && (n == 1 && StaysInside(w, eoc, c) && !Stops(eoc, next) ==> StaysInside(v, eoc, next))
  {
    if !Stops(eoc, c) {
      ZeroCopies(w, c, n, stride);
      if c >= |w| { BehindEnd(w, c, n, stride); }
      if n == 1 { OneCopy(w, c, stride); }
    }
  }

  lemma {:induction false} BehindEnd(w: seq<nat>, c: nat, n: nat, stride: nat)
    requires c >= |w|
    ensures PutCopies(w, c, 0, n, stride) == w
  {
    if n > 0 { BehindEnd(w, c, n - 1, stride); }
  }

  lemma OneCopy(w: seq<nat>, c: nat, stride: nat)
    ensures PutCopies(w, c, 0, 1, stride) == if c < |w| then w[c := 0] else w
  {
    assert PutCopies(w, c, 0, 0, stride) == w && 0 * stride + c == c;
  }

  /** The same inside a table. */
  lemma FreeStep(fat: seq<nat>, eoc: nat, c: nat)
    requires StaysInside(fat, eoc, c)
    ensures Stops(eoc, c) ==> ZeroAll(fat, FreeWalk(fat, eoc, c)) == fat
    ensures !Stops(eoc, c) ==> c < |fat|
    ensures !Stops(eoc, c) && Stops(eoc, fat[c]) ==> fat[c := 0] == ZeroAll(fat, FreeWalk(fat, eoc, c))
    ensures !Stops(eoc, c) && !Stops(eoc, fat[c]) ==>
      && StaysInside(fat[c := 0], eoc, fat[c])
      && ZeroAll(fat[c := 0], FreeWalk(fat[c := 0], eoc, fat[c])) == ZeroAll(fat, FreeWalk(fat, eoc, c))
  {
    assert ZeroAll(fat, []) == fat;
    if !Stops(eoc, c) {
      if Stops(eoc, fat[c]) {
        ZeroStep(fat, c, []);
        assert [c] == [c] + [];
        assert ZeroAll(fat[c := 0], []) == fat[c := 0];
      } else {
        NonZeroShrinks(fat, c);
        ZeroStep(fat, c, FreeWalk(fat[c := 0], eoc, fat[c]));
      }
    }
  }

  /** With one copy, as in FAT32, that zeroes the words of the walk. */
  lemma {:induction false} FreeRunOne(w: seq<nat>, eoc: nat, stride: nat, c: nat)
    requires StaysInside(w, eoc, c)
    ensures FreeRun(w, eoc, 1, stride, c) == ZeroAll(w, FreeWalk(w, eoc, c))
    decreases NonZero(w)
  {
    assert ZeroAll(w, []) == w;
    if !Stops(eoc, c) {
      assert PutCopies(w, c, 0, 0, stride) == w && 0 * stride + c == c;
      assert PutCopies(w, c, 0, 1, stride) == w[c := 0];
      if Stops(eoc, w[c]) {
        ZeroStep(w, c, []);
        assert ZeroAll(w[c := 0], []) == w[c := 0];
        assert [c] == [c] + [];
      } else {
        NonZeroShrinks(w, c);
        FreeRunOne(w[c := 0], eoc, stride, w[c]);
        ZeroStep(w, c, FreeWalk(w[c := 0], eoc, w[c]));
      }
    }
  }

  /** Freeing only zeroes. */
  lemma {:induction false} FreeRunZeroes(w: seq<nat>, eoc: nat, n: nat, stride: nat, c: nat)
    requires n > 0
    ensures forall d :: 0 <= d < |w| ==> FreeRun(w, eoc, n, stride, c)[d] == w[d] || FreeRun(w, eoc, n, stride, c)[d] == 0
    decreases NonZero(w)
  {
    if !(Stops(eoc, c) || c >= |w|) {
      ZeroCopies(w, c, n, stride);
      var v := PutCopies(w, c, 0, n, stride);
      if !Stops(eoc, w[c]) { FreeRunZeroes(v, eoc, n, stride, w[c]); }
    }
  }

  /** The words that are copies of word c and lie at `from` or behind are zero. */
  predicate CopiesZero(w: seq<nat>, c: nat, n: nat, stride: nat, from: nat) {
    n == 0
    || (CopiesZero(w, c, n - 1, stride, from)
        && var d := (n - 1) * stride + c; !(from <= d < |w| && w[d] != 0))
  }

  /** The words at `from` and behind are the same. */
  ghost predicate KeptFrom(w: seq<nat>, r: seq<nat>, from: nat) {
    |r| == |w| && forall d :: from <= d < |w| ==> r[d] == w[d]
  }

  /** Following the links from c, every word met has only zeroes among its copies that lie
      behind the tables. */
  ghost predicate Harmless(w: seq<nat>, eoc: nat, n: nat, stride: nat, from: nat, c: nat)
    requires n > 0
    decreases NonZero(w)
  {
    Stops(eoc, c) || c >= |w|
    || (CopiesZero(w, c, n, stride, from)
        && (Stops(eoc, w[c])
            || (ZeroCopies(w, c, n, stride); Harmless(PutCopies(w, c, 0, n, stride), eoc, n, stride, from, w[c]))))
  }

  lemma {:induction false} CopiesZeroKeep(w: seq<nat>, c: nat, n: nat, stride: nat, from: nat)
    ensures KeptFrom(w, PutCopies(w, c, 0, n, stride), from) <==> CopiesZero(w, c, n, stride, from)
  {
    if n > 0 {
      CopiesZeroKeep(w, c, n - 1, stride, from);
      ZeroCopies(w, c, n - 1, stride);
      ZeroedMore(w, PutCopies(w, c, 0, n - 1, stride), (n - 1) * stride + c, from);
    }
  }

  lemma ZeroedMore(w: seq<nat>, u: seq<nat>, d: nat, from: nat)
    requires |u| == |w| && forall x :: 0 <= x < |w| ==> u[x] == w[x] || u[x] == 0
    ensures KeptFrom(w, if d < |u| then u[d := 0] else u, from) <==>
      KeptFrom(w, u, from) && !(from <= d < |w| && w[d] != 0)
  {
    var r := if d < |u| then u[d := 0] else u;
    if KeptFrom(w, r, from) {
      forall x | from <= x < |w| ensures u[x] == w[x] { assert r[x] == w[x]; }
    }
  }

  /** Nothing behind the tables changes if and only if the walk is harmless. */
  lemma {:induction false} FreeRunHarm(w: seq<nat>, eoc: nat, n: nat, stride: nat, from: nat, c: nat)
    requires n > 0
    ensures KeptFrom(w, FreeRun(w, eoc, n, stride, c), from) <==> Harmless(w, eoc, n, stride, from, c)
    decreases NonZero(w)
  {
    if !(Stops(eoc, c) || c >= |w|) {
      ZeroCopies(w, c, n, stride);
      CopiesZeroKeep(w, c, n, stride, from);
      var v := PutCopies(w, c, 0, n, stride);
      if !Stops(eoc, w[c]) {
        FreeRunHarm(v, eoc, n, stride, from, w[c]);
        FreeRunZeroes(v, eoc, n, stride, w[c]);
        BothKept(w, v, FreeRun(v, eoc, n, stride, w[c]), from);
      }
    }
  }

  lemma BothKept(w: seq<nat>, v: seq<nat>, r: seq<nat>, from: nat)
    requires |w| == |v| == |r|
    requires forall d :: 0 <= d < |w| ==> (v[d] == w[d] || v[d] == 0) && (r[d] == v[d] || r[d] == 0)
    ensures KeptFrom(w, r, from) <==> KeptFrom(w, v, from) && KeptFrom(v, r, from)
  {
    if KeptFrom(w, r, from) {
      forall d | from <= d < |w| ensures v[d] == w[d] && r[d] == v[d] { assert r[d] == w[d]; }
    }
  }

  /** With one copy: the first link that leaves the table must lead to a zero word. */
  ghost predicate HarmlessLink(w: seq<nat>, eoc: nat, from: nat, c: nat)
    decreases NonZero(w)
  {
    Stops(eoc, c) || c >= |w|
    || if c >= from then w[c] == 0
       else Stops(eoc, w[c]) || (NonZeroShrinks(w, c); HarmlessLink(w[c := 0], eoc, from, w[c]))
  }

  lemma {:induction false} HarmlessOne(w: seq<nat>, eoc: nat, stride: nat, from: nat, c: nat)
    requires eoc >= 2
    ensures Harmless(w, eoc, 1, stride, from, c) <==> HarmlessLink(w, eoc, from, c)
    decreases NonZero(w)
  {
    if !(Stops(eoc, c) || c >= |w|) {
      assert CopiesZero(w, c, 0, stride, from) && 0 * stride + c == c;
      assert PutCopies(w, c, 0, 0, stride) == w && PutCopies(w, c, 0, 1, stride) == w[c := 0];
      if c < from && !Stops(eoc, w[c]) {
        NonZeroShrinks(w, c);
        HarmlessOne(w[c := 0], eoc, stride, from, w[c]);
      }
    }
  }

  /** A table of three entries whose last one leads to word 5, in use for something else:
      freeing from entry 2 zeroes that word. */
  lemma StrayLink(eoc: nat, stride: nat)
    requires eoc > 8
    ensures FreeRun([0, 0, 5, 9, 9, 1], eoc, 1, stride, 2) == [0, 0, 0, 9, 9, 0]
    ensures !HarmlessLink([0, 0, 5, 9, 9, 1], eoc, 3, 2)
  {
    var w, v: seq<nat> := [0, 0, 5, 9, 9, 1], [0, 0, 0, 9, 9, 1];
    assert 0 * stride + 2 == 2 && 0 * stride + 5 == 5;
    assert PutCopies(w, 2, 0, 0, stride) == w && PutCopies(w, 2, 0, 1, stride) == w[2 := 0] == v;
    assert PutCopies(v, 5, 0, 0, stride) == v && PutCopies(v, 5, 0, 1, stride) == v[5 := 0] == [0, 0, 0, 9, 9, 0];
    assert FreeRun(v, eoc, 1, stride, 5) == v[5 := 0];
    assert FreeRun(w, eoc, 1, stride, 2) == FreeRun(v, eoc, 1, stride, 5);
    assert !HarmlessLink(v, eoc, 3, 5);
    assert HarmlessLink(w, eoc, 3, 2) == HarmlessLink(v, eoc, 3, 5);
  }
}
