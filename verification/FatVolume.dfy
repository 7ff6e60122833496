/** The FAT16 and FAT32 drivers: the file allocation table, cluster chains, and files read
    and written through handles, all on one byte-addressed device. The two are the same
    code up to the width of an entry and a few checks, which `g.wide` tells apart. */
module FatVolume {
  import opened Bytes
  import opened FatChain
  import opened DirEntry
  import opened FatLayout
  import opened FatWords

  /** A device whose transfers of sectors that it has always succeed. */
  class BlockDevice {
    var bytes: seq<byte>

    constructor (image: seq<byte>)
      ensures bytes == image
    {
      bytes := image;
    }

    method ReadSectors(sector: nat, count: nat) returns (buf: seq<byte>)
      requires 512 * (sector + count) <= |bytes|
      ensures buf == bytes[512 * sector..512 * (sector + count)]
    {
      buf := bytes[512 * sector..512 * (sector + count)];
    }

    method WriteSectors(sector: nat, buf: seq<byte>)
      requires 512 * sector + |buf| <= |bytes|
      modifies this
      ensures bytes == Splice(old(bytes), 512 * sector, buf)
    {
      bytes := Splice(bytes, 512 * sector, buf);
    }
  }

  class FileHandle {
    var startCluster: nat
    var size: nat
    const dirCluster: nat
    const dirEntryIndex: nat
    var dirty: bool
    /** Which chain of the volume is this file's. */
    ghost const file: nat

    constructor (startCluster: nat, size: nat, dirCluster: nat, dirEntryIndex: nat, ghost file: nat)
      ensures this.startCluster == startCluster && this.size == size && this.file == file
      ensures this.dirCluster == dirCluster && this.dirEntryIndex == dirEntryIndex && !dirty
    {
      this.startCluster, this.size, this.dirty, this.file := startCluster, size, false, file;
      this.dirCluster, this.dirEntryIndex := dirCluster, dirEntryIndex;
    }
  }

  datatype OpenMode = OpenMode(read: bool, write: bool, create: bool, append: bool, truncate: bool)

  datatype SeekOrigin = Begin | Current | End

  class Volume {
    const device: BlockDevice
    const g: Geometry
    const clusterSize: nat
    const clusterBuffer: array<byte>

    /** What the device holds: table, clusters, root directory. */
    ghost var fat: seq<nat>
    ghost var data: seq<seq<byte>>
    ghost var root: seq<Entry>
    /** The chain of each root directory slot, and clusters of no slot. */
    ghost var chains: seq<seq<nat>>
    ghost const reserved: set<nat>

    ghost predicate Mounted()
      reads this, device
    {
      && Represents(g, device.bytes, fat, data, root)
      && clusterSize == g.ClusterSize() > 0
      && clusterBuffer.Length == clusterSize
    }

    ghost predicate Valid()
      reads this, device
    {
      && Mounted()
      && WellFormed(fat, g.Eoc(), chains, reserved)
      && (!g.wide ==> |chains| == |root|)
    }

    /** FAT16::mount, on a disk whose chains are as given. */
    constructor (device: BlockDevice, boot: BootSector, ghost chains: seq<seq<nat>>, ghost reserved: set<nat>)
      requires Supported(boot) && Fits(LayoutOf(boot), device.bytes)
      requires WellFormed(TableOf(LayoutOf(boot), device.bytes), LayoutOf(boot).Eoc(), chains, reserved)
      requires |chains| == LayoutOf(boot).Slots()
      ensures Valid() && fresh(clusterBuffer)
      ensures this.device == device && g == LayoutOf(boot) && PlacedBy(g, boot)
      ensures this.chains == chains && this.reserved == reserved
      ensures fat == TableOf(g, device.bytes) && data == ClustersOf(g, device.bytes) && root == RootOf(g, device.bytes)
    {
      this.device, this.g := device, LayoutOf(boot);
      clusterSize := LayoutOf(boot).ClusterSize();
      clusterBuffer := new byte[LayoutOf(boot).ClusterSize()];
      this.chains, this.reserved := chains, reserved;
      fat := TableOf(LayoutOf(boot), device.bytes);
      data := ClustersOf(LayoutOf(boot), device.bytes);
      root := RootOf(LayoutOf(boot), device.bytes);
      EveryDiskMeansSomething(LayoutOf(boot), device.bytes);
      LayoutIs(boot);
    }

    /** FAT32::mount */
    constructor Wide(device: BlockDevice, boot: BootSector, ghost chains: seq<seq<nat>>, ghost reserved: set<nat>)
      requires SupportedWide(boot) && Fits(LayoutOfWide(boot), device.bytes)
      requires WellFormed(TableOf(LayoutOfWide(boot), device.bytes), LayoutOfWide(boot).Eoc(), chains, reserved)
      ensures Valid() && fresh(clusterBuffer)
      ensures this.device == device && g == LayoutOfWide(boot) && PlacedWideBy(g, boot)
      ensures this.chains == chains && this.reserved == reserved
      ensures fat == TableOf(g, device.bytes) && data == ClustersOf(g, device.bytes)
    {
      this.device, this.g := device, LayoutOfWide(boot);
      clusterSize := LayoutOfWide(boot).ClusterSize();
      clusterBuffer := new byte[LayoutOfWide(boot).ClusterSize()];
      this.chains, this.reserved := chains, reserved;
      fat := TableOf(LayoutOfWide(boot), device.bytes);
      data := ClustersOf(LayoutOfWide(boot), device.bytes);
      root := RootOf(LayoutOfWide(boot), device.bytes);
      EveryDiskMeansSomething(LayoutOfWide(boot), device.bytes);
      LayoutWideIs(boot);
    }

    /** FAT16::mount from the disk itself: refused exactly if the first sector cannot be read
        or one of its fields is not as the driver wants it. */
    static method Mount(device: BlockDevice, ghost chains: seq<seq<nat>>, ghost reserved: set<nat>) returns (v: Volume?)
      requires |device.bytes| >= 512 && Supported(BootOf(device.bytes[..512])) ==>
        var g := LayoutOf(BootOf(device.bytes[..512]));
        Fits(g, device.bytes) && WellFormed(TableOf(g, device.bytes), g.Eoc(), chains, reserved) && |chains| == g.Slots()
      ensures |device.bytes| < 512 ==> v == null
      ensures |device.bytes| >= 512 ==>
        var b := BootOf(device.bytes[..512]);
        v == null <==> !(b.bytesPerSector == 512 && b.sectorsPerCluster > 0 && b.reservedSectors > 0 && b.fatCount > 0
                         && b.sectorsPerFat16 > 0 && b.rootEntryCount > 0)
      ensures v != null ==> v.Valid() && v.device == device && PlacedBy(v.g, BootOf(device.bytes[..512]))
      ensures v != null ==> fresh(v) && fresh(v.clusterBuffer) && v.chains == chains && v.reserved == reserved
    {
      hide BootOf, LayoutOf, PlacedBy, WellFormed, Fits;
      if |device.bytes| < 512 { return null; }
      var buf := device.ReadSectors(0, 1);
      var boot := BootOf(buf);
      if !Supported(boot) { return null; }
      v := new Volume(device, boot, chains, reserved);
    }

    /** FAT32::mount looks at the sector size only. */
    static method MountWide(device: BlockDevice, ghost chains: seq<seq<nat>>, ghost reserved: set<nat>) returns (v: Volume?)
      requires |device.bytes| >= 512 && BootOf(device.bytes[..512]).bytesPerSector == 512 ==>
        BootOf(device.bytes[..512]).sectorsPerCluster != 0 &&
        var g := LayoutOfWide(BootOf(device.bytes[..512]));
        Fits(g, device.bytes) && WellFormed(TableOf(g, device.bytes), g.Eoc(), chains, reserved)
      ensures v == null <==> |device.bytes| < 512 || BootOf(device.bytes[..512]).bytesPerSector != 512
      ensures v != null ==> v.Valid() && v.device == device && PlacedWideBy(v.g, BootOf(device.bytes[..512]))
      ensures v != null ==> fresh(v) && fresh(v.clusterBuffer) && v.chains == chains && v.reserved == reserved
    {
      hide BootOf, LayoutOfWide, PlacedWideBy, WellFormed, Fits;
      if |device.bytes| < 512 { return null; }
      var buf := device.ReadSectors(0, 1);
      var boot := BootOf(buf);
      if boot.bytesPerSector != 512 { return null; }
      v := new Volume.Wide(device, boot, chains, reserved);
    }

    // ----- sectors -----

    method LoadCluster(c: nat)
      requires Mounted() && 2 <= c < |data|
      modifies clusterBuffer
      ensures clusterBuffer[..] == data[c]
    {
      ClusterPlace(g, device.bytes, c);
      var buf := device.ReadSectors(g.ClusterToSector(c), g.sectorsPerCluster);
      CopyInto(clusterBuffer, 0, buf);
    }

    method StoreCluster(c: nat)
      requires Mounted() && 2 <= c < |data|
      modifies this`data, device
      ensures Mounted()
      ensures data == old(data)[c := clusterBuffer[..]]
    {
      hide TableIs, ClustersAre, RootIs;
      ClusterPlace(g, device.bytes, c);
      StoreMeaning(g, device.bytes, fat, data, root, c, clusterBuffer[..]);
      device.WriteSectors(g.ClusterToSector(c), clusterBuffer[..]);
      data := data[c := clusterBuffer[..]];
    }

    /** readFAT, for any number. FAT16 gives 0 for a sector that the device does not have;
        FAT32 does not look whether the sector was read, so there it must exist. */
    method ReadWord(c: nat) returns (value: nat)
      requires g.wide ==> c < WordCount(g, device.bytes)
      ensures value == WordAt(g, device.bytes, c) < g.Values()
    {
      hide Decode, Words;
      var fatSector := g.FatSector(0, c);
      var entryOffset := g.EntryStart(c) % 512;
      WordPlace(g, device.bytes, 0, c);
      if 512 * fatSector + 512 > |device.bytes| { return 0; }
      var buffer := device.ReadSectors(fatSector, 1);
      WordRead(g, device.bytes, c, buffer);
      if g.wide {
        value := Decode(buffer[entryOffset..entryOffset + 4]) % NIBBLE;
      } else {
        value := Decode(buffer[entryOffset..entryOffset + 2]);
      }
    }

    method ReadFat(c: nat) returns (value: nat)
      requires Mounted() && c < |fat|
      ensures value == fat[c] && value < g.Values()
    {
      hide TableIs, ClustersAre, RootIs, Fits;
      TableWords(g, device.bytes, fat, data, root);
      value := ReadWord(c);
    }

    /** The bytes of entry d in the given copy of the table. */
    ghost function Copy(copy: nat, d: nat): (b: seq<byte>)
      requires Fits(g, device.bytes) && copy < g.fatCount && d < g.totalClusters + 2
      reads this, device
      ensures |b| == g.Width()
    {
      EntryPlace(g, device.bytes, copy, d);
      EntryBytesAt(g, device.bytes, g.EntryOffset(copy, d))
    }

    /** Reads a sector, patches the two bytes of an entry, writes the sector back. */
    method PatchSector(sector: nat, offset: nat, value: nat)
      requires 512 * sector + 512 <= |device.bytes| && offset + 2 <= 512 && value < 0x10000
      modifies device
      ensures device.bytes == Splice(old(device.bytes), 512 * sector + offset, Encode(2, value))
    {
      var buffer := device.ReadSectors(sector, 1);
      buffer := buffer[offset := value % 256];
      buffer := buffer[offset + 1 := value / 256 % 256];
      SectorPatch(device.bytes, 512 * sector, offset, value, buffer);
      device.WriteSectors(sector, buffer);
    }

    /** The same for four bytes, of which the top four bits stay. */
    method PatchSectorWide(sector: nat, offset: nat, value: nat)
      requires 512 * sector + 512 <= |device.bytes| && offset + 4 <= 512
      modifies device
      ensures device.bytes == Splice(old(device.bytes), 512 * sector + offset,
                                     NewEntry(true, old(device.bytes)[512 * sector + offset..512 * sector + offset + 4], value))
    {
      hide NewEntry, Splice;
      var buffer := device.ReadSectors(sector, 1);
      var t := NewEntry(true, buffer[offset..offset + 4], value);
      buffer := Splice(buffer, offset, t);
      WidePatch(device.bytes, 512 * sector, offset, value, buffer);
      device.WriteSectors(sector, buffer);
    }

    static lemma WidePatch(bytes: seq<byte>, lo: nat, offset: nat, value: nat, buffer: seq<byte>)
      requires lo + 512 <= |bytes| && offset + 4 <= 512
      requires buffer == Splice(bytes[lo..lo + 512], offset, NewEntry(true, bytes[lo..lo + 512][offset..offset + 4], value))
      ensures Splice(bytes, lo, buffer) == Splice(bytes, lo + offset, NewEntry(true, bytes[lo + offset..lo + offset + 4], value))
    {
      hide NewEntry, Splice;
      SliceOfSlice(bytes, lo, 512, offset, 4);
      SpliceWithin(bytes, lo, lo + 512, lo + offset, NewEntry(true, bytes[lo + offset..lo + offset + 4], value));
    }

    /** writeFAT, for any number: the entry is stored in every copy of the table on FAT16 and
        in the first on FAT32, as far as the device reaches. */
    method WriteWord(c: nat, value: nat)
      requires value < g.Values()
      modifies device
      ensures device.bytes == PutEntry(g, old(device.bytes), c, value, Copies(g))
    {
      hide NewEntry, Splice, Encode;
      var copy := 0;
      while copy < Copies(g)
        invariant 0 <= copy <= Copies(g)
        invariant device.bytes == PutEntry(g, old(device.bytes), c, value, copy)
      {
        WordPlace(g, device.bytes, copy, c);
        var sector, offset := g.FatSector(copy, c), g.EntryStart(c) % 512;
        if 512 * sector + 512 <= |device.bytes| {
          if g.wide {
            PatchSectorWide(sector, offset, value);
          } else {
            NarrowEntry(EntryBytesAt(g, device.bytes, g.EntryOffset(copy, c)), value);
            PatchSector(sector, offset, value);
          }
        }
        copy := copy + 1;
      }
    }

    static lemma NarrowEntry(was: seq<byte>, value: nat)
      ensures NewEntry(false, was, value) == Encode(2, value)
    {}

    /** FAT16 sets the entry in every copy of the table, FAT32 in the first; no other entry
        changes in any copy. FAT32 keeps the top four bits. */
    method WriteFat(c: nat, value: nat)
      requires Mounted() && c < |fat| && value < g.Values()
      modifies this`fat, device
      ensures Mounted()
      ensures fat == old(fat)[c := value]
      ensures forall k, d :: 0 <= k < g.fatCount && 0 <= d < g.totalClusters + 2 ==>
        Copy(k, d) == if d == c && (k == 0 || !g.wide) then NewEntry(g.wide, old(Copy(k, d)), value) else old(Copy(k, d))
      ensures g.wide ==> TopBits(Copy(0, c)) == old(TopBits(Copy(0, c)))
    {
      hide TableIs, ClustersAre, RootIs, NewEntry, TopBits, PutEntry;
      NewEntryIs(g.wide, Copy(0, c), value);
      PutRepresents(g, device.bytes, fat, data, root, c, value, Copies(g));
      forall k, d | 0 <= k < g.fatCount && 0 <= d < g.totalClusters + 2 {
        PutCopyFrame(g, device.bytes, c, value, Copies(g), k, d);
      }
      WriteWord(c, value);
      fat := fat[c := value];
    }

    static lemma SectorPatch(bytes: seq<byte>, lo: nat, offset: nat, value: nat, buffer: seq<byte>)
      requires lo + 512 <= |bytes| && offset + 2 <= 512 && value < 0x10000
      requires buffer == bytes[lo..lo + 512][offset := value % 256][offset + 1 := value / 256 % 256]
      ensures Splice(bytes, lo, buffer) == Splice(bytes, lo + offset, Encode(2, value))
    {
      assert Encode(2, value) == [value % 256, value / 256 % 256] by {
        assert Encode(1, value / 256) == [value / 256 % 256];
      }
      assert buffer == Splice(bytes[lo..lo + 512], offset, Encode(2, value));
      SpliceWithin(bytes, lo, lo + 512, lo + offset, Encode(2, value));
    }

    // ----- chains -----

    /** Takes the lowest free cluster, if there is one, and zeroes it. */
    method AllocateCluster() returns (c: nat)
      requires Mounted()
      modifies this`fat, this`data, device, clusterBuffer
      ensures Mounted()
      ensures c == 0 ==> NoneFree(old(fat)) && fat == old(fat) && data == old(data)
      ensures c != 0 ==>
        && 2 <= c < |old(fat)| && old(fat)[c] == 0
        && (forall d :: 2 <= d < c ==> old(fat)[d] != 0)
        && fat == old(fat)[c := g.Mark()]
        && data == old(data)[c := seq(clusterSize, _ => 0)]
    {
      hide TableIs, ClustersAre, RootIs;
      if g.totalClusters == 0 { return 0; }
      var cluster := 2;
      while cluster < g.totalClusters + 2
        invariant 2 <= cluster <= g.totalClusters + 2
        invariant Mounted() && fat == old(fat) && data == old(data)
        invariant forall d :: 2 <= d < cluster ==> fat[d] != 0
      {
        var value := ReadFat(cluster);
        if value == 0x0000 {
          WriteFat(cluster, g.Mark());
          CopyInto(clusterBuffer, 0, seq(clusterSize, _ => 0));
          assert clusterBuffer[..] == seq(clusterSize, _ => 0);
          StoreCluster(cluster);
          return cluster;
        }
        cluster := cluster + 1;
      }
      return 0;
    }

    /** Walks from `start`, zeroing entries, until a marker. It ends on any contents of any
        device, even where links lead outside the table; FAT32 only must not be led behind the
        end of the device. Inside the table of a mounted volume it frees the walk. */
    method FreeClusterChain(start: nat)
      requires g.wide ==> StaysInside(Words(g, device.bytes), g.Eoc(), start)
      requires Copies(g) > 0
      modifies this`fat, device
      ensures Words(g, device.bytes) == FreeRun(Words(g, old(device.bytes)), g.Eoc(), Copies(g), Stride(g), start)
      ensures old(Mounted() && StaysInside(fat, g.Eoc(), start)) ==>
        Mounted() && fat == ZeroAll(old(fat), FreeWalk(old(fat), g.Eoc(), start))
    {
      hide TableIs, ClustersAre, RootIs, Fits, Words, PutEntry, FreeRun, Stride;
      var cluster: nat := start;
      ghost var eoc, w0, fat0 := g.Eoc(), Words(g, device.bytes), fat;
      ghost var mounted := Mounted() && StaysInside(fat, eoc, start);
      while cluster >= 2 && cluster < g.Bad()
        invariant FreeRun(Words(g, device.bytes), eoc, Copies(g), Stride(g), cluster)
               == FreeRun(w0, eoc, Copies(g), Stride(g), start)
        invariant g.wide ==> StaysInside(Words(g, device.bytes), eoc, cluster)
        invariant mounted ==> Mounted() && StaysInside(fat, eoc, cluster)
        invariant mounted ==> ZeroAll(fat, FreeWalk(fat, eoc, cluster)) == ZeroAll(fat0, FreeWalk(fat0, eoc, start))
        decreases NonZero(Words(g, device.bytes)), cluster >= 2
      {
        ghost var w, before := Words(g, device.bytes), fat;
        RunStep(w, eoc, Copies(g), Stride(g), cluster);
        if mounted {
          TableWords(g, device.bytes, fat, data, root);
          PutRepresents(g, device.bytes, fat, data, root, cluster, 0, Copies(g));
          FreeStep(fat, eoc, cluster);
        }
        PutWords(g, device.bytes, cluster, 0, Copies(g));
        var next := ReadWord(cluster);
        WriteWord(cluster, 0x0000);
        if mounted { fat := fat[cluster := 0]; }
        if Stops(g.Eoc(), next) {  // FAT32 finds this out at the loop condition
          return;
        }
        cluster := next;
      }
      RunStep(Words(g, device.bytes), eoc, Copies(g), Stride(g), cluster);
      if mounted { FreeStep(fat, eoc, cluster); }
    }

    /** The cluster `index` links behind `start`. Past the end of the chain FAT16 stops at
        the last cluster, and FAT32 gives the marker found there. */
    method TraverseToCluster(start: nat, index: nat, ghost chain: seq<nat>) returns (c: nat)
      requires Mounted() && IsChain(fat, g.Eoc(), chain) && chain != [] && start == chain[0]
      ensures c == if index < |chain| then chain[index]
                   else if g.wide then fat[chain[|chain| - 1]] else chain[|chain| - 1]
      ensures index >= |chain| && g.wide ==> c >= g.Eoc()
    {
      hide TableIs, ClustersAre, RootIs, Fits, WellFormed, Span;
      c := start;
      var i := 0;
      while i < index
        invariant 0 <= i <= index && i < |chain|
        invariant c == chain[i]
      {
        var next := ReadFat(c);
        assert i < |chain| - 1 ==> fat[chain[i]] == chain[i + 1];
        if g.wide {
          c := next;
          if c >= g.Eoc() { return; }
        } else {
          if next >= g.Eoc() { return; }
          if next < 2 || next == g.Bad() { return; }
          c := next;
        }
        i := i + 1;
      }
    }

    // ----- files -----

    /** All the bytes on the chain of a slot. */
    ghost function Bytes(slot: nat): seq<byte>
      requires slot < |chains| && Within(chains[slot], |data|)
      reads this
    {
      Content(data, chains[slot])
    }

    /** A handle agrees with the chain of its slot, which is long enough for its size. */
    ghost predicate Handles(h: FileHandle)
      reads this, device, h
    {
      && Mounted()
      && h.file < |chains|
      && IsChain(fat, g.Eoc(), chains[h.file]) && Within(chains[h.file], |data|)
      && h.startCluster == Start(chains[h.file])
      && h.size <= |Bytes(h.file)|
    }

    /** The file of a handle, as a byte sequence. */
    ghost function FileBytes(h: FileHandle): (b: seq<byte>)
      requires Handles(h)
      reads this, device, h
      ensures |b| == h.size
    {
      Bytes(h.file)[..h.size]
    }

    /** One turn of the loop in FAT16::read: the part of one cluster that is wanted. */
    method ReadChunk(h: FileHandle, at: nat, left: nat) returns (piece: seq<byte>)
      requires Handles(h) && left > 0 && at + left <= h.size
      modifies clusterBuffer
      ensures 0 < |piece| <= left && at + |piece| <= |Bytes(h.file)|
      ensures piece == Bytes(h.file)[at..at + |piece|]
    {
      hide TableIs, ClustersAre, RootIs, Fits, Span, Content;
      ghost var chain := chains[h.file];
      var clusterIndex, offset := Locate(at, clusterSize);
      IndexWithin(data, clusterSize, chain, clusterIndex, offset, at);
      var cluster := TraverseToCluster(h.startCluster, clusterIndex, chain);
      LoadCluster(cluster);
      var chunk := clusterSize - offset;
      if chunk > left { chunk := left; }
      ChunkIn(data, clusterSize, chain, clusterIndex, offset, at, chunk);
      piece := clusterBuffer[..][offset..offset + chunk];
    }

    lemma EmptyFile(h: FileHandle)
      requires Handles(h)
      ensures h.startCluster < 2 ==> h.size == 0
    {
      if chains[h.file] != [] { assert chains[h.file][0] >= 2; }
    }

    /** FAT16::read at `position`: the bytes that the file has there. */
    method Read(h: FileHandle, position: nat, size: nat) returns (buffer: seq<byte>)
      requires Handles(h)
      modifies clusterBuffer
      ensures buffer == if position >= h.size then []
                        else FileBytes(h)[position..if position + size < h.size then position + size else h.size]
    {
      hide TableIs, ClustersAre, RootIs, Fits, Content;
      EmptyFile(h);
      buffer := [];
      if size == 0 { return; }
      if position >= h.size { return; }
      var left: nat := size;
      if left > h.size - position { left := h.size - position; }
      if h.startCluster < 2 { return; }
      ghost var content := Bytes(h.file);
      var at: nat := position;
      ghost var end := position + left;
      while left > 0
        invariant at + left == end <= h.size
        invariant position <= at
        invariant buffer == content[position..at]
      {
        var piece := ReadChunk(h, at, left);
        SlicesJoin(content, position, at, |piece|);
        buffer := buffer + piece;
        left := left - |piece|;
        at := at + |piece|;
      }
    }

    /** The volume and the chains on it are consistent. */
    ghost predicate Consistent()
      reads this
    {
      WellFormed(fat, g.Eoc(), chains, reserved) && (!g.wide ==> |chains| == |root|)
    }

    /** What a method that may add clusters to a file keeps. */
    twostate predicate Extended(h: FileHandle)
      reads this, device, h
    {
      && Handles(h) && Consistent()
      && h.file < |old(chains)| && h.size == old(h.size)
      && Distinct(chains[h.file])
      && Within(old(chains)[h.file], |old(data)|)
      && old(Bytes(h.file)) <= Bytes(h.file)
      && OthersKept(old(chains), old(data), chains, data, h.file)
      && Tracked(h)
    }

    /** A handle is dirty if it was, or if it no longer starts where it did. */
    twostate predicate Tracked(h: FileHandle)
      reads h
    {
      (old(h.dirty) ==> h.dirty) && (!h.dirty ==> h.startCluster == old(h.startCluster) && h.size == old(h.size))
    }

    /** Allocates the next cluster of a file and links it behind `last`, if there is one. */
    method AppendCluster(h: FileHandle, last: nat) returns (c: nat)
      requires Handles(h) && Consistent()
      requires var chain := chains[h.file];
        if chain == [] then last == 0 else last == chain[|chain| - 1]
      modifies this`fat, this`data, this`chains, device, clusterBuffer, h`startCluster, h`dirty
      ensures Extended(h) && OnlyTakes(old(fat), fat)
      ensures c == 0 ==> NoneFree(fat) && fat == old(fat) && data == old(data) && chains == old(chains)
      ensures c != 0 ==> c >= 2 && chains[h.file] == old(chains[h.file]) + [c]
    {
      hide TableIs, ClustersAre, RootIs, Fits, Content, WellFormed, IsChain, OthersKept;
      ghost var slot := h.file;
      SlotFacts(fat, g.Eoc(), chains, reserved, slot);
      KeptRefl(slot);
      c := AllocateCluster();
      if c == 0 { return; }
      if last != 0 {
        WriteFat(last, c);
      }
      GrowSlot(old(fat), g.Eoc(), chains, reserved, old(data), slot, c, g.Mark(), seq(clusterSize, _ => 0 as byte));
      chains := chains[slot := chains[slot] + [c]];
      if last == 0 {
        h.startCluster := c;
      }
      h.dirty := true;
    }

    /** The cluster at `clusterIndex` of a file, or the next one behind it, allocated
        and linked if the chain is that short. */
    method GetOrAllocateClusterAt(h: FileHandle, clusterIndex: nat) returns (cluster: nat)
      requires Handles(h) && Consistent() && clusterIndex <= |chains[h.file]|
      modifies this`fat, this`data, this`chains, device, clusterBuffer, h`startCluster, h`dirty
      ensures Extended(h) && OnlyTakes(old(fat), fat)
      ensures cluster == 0 ==> NoneFree(fat) && fat == old(fat) && data == old(data) && chains == old(chains)
      ensures cluster != 0 ==> clusterIndex < |chains[h.file]|
      ensures cluster != 0 ==> cluster == chains[h.file][clusterIndex] >= 2
    {
      hide TableIs, ClustersAre, RootIs, Fits, Content, WellFormed, OthersKept, OnlyTakes;
      ghost var slot := h.file;
      OnlyTakesRefl(fat);
      SlotFacts(fat, g.Eoc(), chains, reserved, slot);
      KeptRefl(slot);
      if h.startCluster < 2 {
        cluster := AppendCluster(h, 0);
        return;
      }
      cluster := h.startCluster;
      var i := 0;
      while i < clusterIndex
        invariant fat == old(fat) && data == old(data) && chains == old(chains)
        invariant 0 <= i <= clusterIndex && i < |chains[slot]|
        invariant Extended(h)
        invariant cluster == chains[slot][i]
      {
        var next := ReadFat(cluster);
        LinkAt(fat, g.Eoc(), chains[slot], i);
        if next >= g.Eoc() {
          cluster := AppendCluster(h, cluster);
          return;
        }
        assert !(next < 2 || next == g.Bad());  // so the exit for broken links is never taken
        cluster := next;
        i := i + 1;
      }
    }

    /** Overwrites part of one cluster. */
    method StorePiece(cluster: nat, offset: nat, piece: seq<byte>)
      requires Mounted() && 2 <= cluster < |data| && offset + |piece| <= clusterSize
      modifies this`data, device, clusterBuffer
      ensures Mounted()
      ensures |old(data)[cluster]| == clusterSize
      ensures data == old(data)[cluster := Splice(old(data)[cluster], offset, piece)]
    {
      hide TableIs, ClustersAre, RootIs, Fits;
      LoadCluster(cluster);
      CopyInto(clusterBuffer, offset, piece);
      StoreCluster(cluster);
    }

    /** One turn of the loop in FAT16::write: after k bytes of `src`, as many more as
        fit in one cluster. */
    method WriteChunk(h: FileHandle, position: nat, src: seq<byte>, k: nat, ghost file: seq<byte>) returns (n: nat)
      requires Handles(h) && Consistent() && k < |src|
      requires Written(Bytes(h.file), file, position, src, k) && h.size <= |file|
      modifies this`fat, this`data, this`chains, device, clusterBuffer, h`startCluster, h`dirty
      ensures Handles(h) && Consistent() && Tracked(h) && k + n <= |src|
      ensures OthersKept(old(chains), old(data), chains, data, h.file) && OnlyTakes(old(fat), fat)
      ensures n == 0 ==> NoneFree(fat)
      ensures Written(Bytes(h.file), file, position, src, k + n)
    {
      hide TableIs, ClustersAre, RootIs, Fits, Content, WellFormed, OthersKept, Span, Splice, Written, OnlyTakes;
      ghost var slot := h.file;
      WrittenBound(Bytes(slot), file, position, src, k);
      var clusterIndex, offset := Locate(position + k, clusterSize);
      IndexWithin(data, clusterSize, chains[slot], clusterIndex, offset, position + k);
      var cluster := GetOrAllocateClusterAt(h, clusterIndex);
      WrittenMore(old(Bytes(slot)), Bytes(slot), file, position, src, k);
      if cluster < 2 { return 0; }
      n := clusterSize - offset;
      if n > |src| - k { n := |src| - k; }
      label Grown:
      WrittenNext(data, clusterSize, chains[slot], clusterIndex, offset, file, position, src, k, n);
      StorePiece(cluster, offset, src[k..][..n]);
      OthersKeptStep(fat, g.Eoc(), reserved, old(chains), old(data), chains, old@Grown(data), slot, cluster, data[cluster]);
      WrittenBound(Bytes(slot), file, position, src, k + n);
    }

    /** The loop of FAT16::write. */
    method WriteLoop(h: FileHandle, position: nat, src: seq<byte>) returns (written: nat)
      requires Handles(h) && Consistent() && position <= h.size
      modifies this`fat, this`data, this`chains, device, clusterBuffer, h`startCluster, h`dirty
      ensures Handles(h) && Consistent() && Tracked(h)
      ensures OthersKept(old(chains), old(data), chains, data, h.file) && OnlyTakes(old(fat), fat)
      ensures written <= |src| && (written < |src| ==> NoneFree(fat))
      ensures Written(Bytes(h.file), old(FileBytes(h)), position, src, written)
    {
      hide TableIs, ClustersAre, RootIs, Fits, Content, WellFormed, OthersKept, IsChain, Within, Blocks, Written, OnlyTakes;
      OnlyTakesRefl(fat);
      ghost var slot, file := h.file, FileBytes(h);
      WrittenStart(Bytes(slot), h.size, position, src);
      KeptRefl(slot);
      written := 0;
      while written < |src|
        invariant written <= |src|
        invariant Handles(h) && Consistent() && Tracked(h)
        invariant Written(Bytes(slot), file, position, src, written)
        invariant OthersKept(old(chains), old(data), chains, data, slot) && OnlyTakes(old(fat), fat)
      {
        label Turn:
        var n := WriteChunk(h, position, src, written, file);
        OnlyTakesTrans(old(fat), old@Turn(fat), fat);
        OthersKeptTrans(old(chains), old(data), old@Turn(chains), old@Turn(data), chains, data, slot);
        if n == 0 { break; }
        written := written + n;
      }
    }

    /** FAT16::write at `position`. Splices a prefix of `src` into the file, all of it unless
        the volume is full, and touches no other file; -1 for a write beyond the end. */
    method Write(h: FileHandle, position: nat, src: seq<byte>) returns (written: int)
      requires Handles(h) && Consistent()
      modifies this`fat, this`data, this`chains, device, clusterBuffer, h`startCluster, h`size, h`dirty
      ensures Handles(h) && Consistent() && Tracked(h) && OnlyTakes(old(fat), fat)
      ensures forall t :: 0 <= t < |old(chains)| && t != h.file ==> Untouched(t)
      ensures src != [] && position > old(h.size) ==> written == -1
      ensures written <= 0 ==> FileBytes(h) == old(FileBytes(h))
      ensures src == [] || position <= old(h.size) ==>
        && 0 <= written <= |src|
        && FileBytes(h) == Splice(old(FileBytes(h)), Min(position, old(h.size)), src[..written])
        && (written < |src| ==> NoneFree(fat))
    {
      hide TableIs, ClustersAre, RootIs, Fits, Content, WellFormed, OthersKept, Within, Blocks, Splice, Written, IsChain, OnlyTakes;
      OnlyTakesRefl(fat);
      ghost var bytes0 := FileBytes(h);
      SpliceNothing(bytes0, Min(position, h.size));
      KeptRefl(h.file);
      if src == [] || position > h.size {
        written := if src == [] then 0 else -1;
        Settle(h.file);
        return;
      }
      written := WriteLoop(h, position, src);
      WrittenBound(Bytes(h.file), bytes0, position, src, written);
      if written > 0 {
        if position + written > h.size {
          h.size := position + written;
          h.dirty := true;
        }
      }
      assert FileBytes(h) == Splice(bytes0, position, src[..written]);
      Settle(h.file);
    }

    /** Any number of writes through one handle: each in turn rewrites the file as far as it
        gets, which is to its end unless no cluster is free, and no other file changes. */
    method WriteAll(h: FileHandle, writes: seq<(nat, seq<byte>)>) returns (counts: seq<int>)
      requires Handles(h) && Consistent()
      modifies this`fat, this`data, this`chains, device, clusterBuffer, h`startCluster, h`size, h`dirty
      ensures Handles(h) && Consistent() && Tracked(h) && OnlyTakes(old(fat), fat)
      ensures forall t :: 0 <= t < |old(chains)| && t != h.file ==> Untouched(t)
      ensures Accepted(old(FileBytes(h)), writes, counts)
      ensures Short(writes, counts) ==> NoneFree(fat)
      ensures FileBytes(h) == Rewritten(old(FileBytes(h)), writes, counts)
    {
      hide TableIs, ClustersAre, RootIs, Fits, Content, WellFormed, Within, Splice, IsChain, Accepted, Rewritten, NoneFree, OnlyTakes, Short;
      ghost var file := FileBytes(h);
      counts := [];
      OnlyTakesRefl(fat);
      Still(h.file);
      forall t | 0 <= t < |old(chains)| && t != h.file ensures SameFile(old(chains), old(data), chains, data, t) {
        assert Untouched(t);
      }
      NothingRewritten(file, writes);
      var k := 0;
      while k < |writes|
        invariant 0 <= k <= |writes|
        invariant Handles(h) && Consistent() && Tracked(h)
        invariant forall t :: 0 <= t < |old(chains)| && t != h.file ==> SameFile(old(chains), old(data), chains, data, t)
        invariant |counts| == k && Accepted(file, writes[..k], counts) && OnlyTakes(old(fat), fat)
        invariant Short(writes[..k], counts) ==> NoneFree(fat)
        invariant FileBytes(h) == Rewritten(file, writes[..k], counts)
      {
        label Turn:
        var n := Write(h, writes[k].0, writes[k].1);
        forall t | 0 <= t < |old(chains)| && t != h.file ensures SameFile(old(chains), old(data), chains, data, t) {
          assert SameFile(old(chains), old(data), old@Turn(chains), old@Turn(data), t);
          assert Untouched@Turn(t);
        }
        OnlyTakesTrans(old(fat), old@Turn(fat), fat);
        if Short(writes[..k], counts) { StaysFull(old@Turn(fat), fat); }
        RewrittenOnce(file, writes, k, counts, n);
        counts := counts + [n];
        k := k + 1;
      }
      assert writes[..k] == writes;
    }

    /** The chain of slot t and the bytes on it are as they were. */
    twostate predicate Untouched(t: nat)
      reads this
    {
      SameFile(old(chains), old(data), chains, data, t)
    }

    twostate lemma Still(slot: nat)
      requires Consistent() && Mounted() && slot < |chains|
      requires fat == old(fat) && data == old(data) && chains == old(chains)
      ensures forall t :: 0 <= t < |old(chains)| && t != slot ==> Untouched(t)
    {
      forall t | 0 <= t < |chains| ensures Within(chains[t], |data|) { SlotFacts(fat, g.Eoc(), chains, reserved, t); }
    }

    twostate lemma Settle(slot: nat)
      requires OthersKept(old(chains), old(data), chains, data, slot)
      ensures forall t :: 0 <= t < |old(chains)| && t != slot ==> Untouched(t)
    {
      forall t | 0 <= t < |old(chains)| && t != slot ensures Untouched(t) {
        OthersKeptContent(old(chains), old(data), chains, data, slot, t);
      }
    }

    lemma KeptRefl(slot: nat)
      requires Consistent() && |data| == |fat|
      ensures OthersKept(chains, data, chains, data, slot)
    {
      forall t | 0 <= t < |chains| ensures Within(chains[t], |data|) { SlotFacts(fat, g.Eoc(), chains, reserved, t); }
    }

    // ----- the root directory -----

    /** Rewrites one slot, in its sector. */
    method UpdateRootDirectoryEntry(i: nat, e: Entry) returns (ok: bool)
      requires Mounted() && WellTyped(e)
      modifies this`root, device
      ensures Mounted() && ok == (i < |old(root)|)
      ensures root == if ok then old(root)[i := e] else old(root)
    {
      hide TableIs, ClustersAre, RootIs, Fits, EncodeEntry, WellTyped;
      var sectorIndex, within := i / 16, i % 16;
      if sectorIndex >= g.rootDirSectors { return false; }
      SlotPlace(g, device.bytes, i);
      SlotMeaning(g, device.bytes, fat, data, root, i, e);
      PatchSlot(g.rootDirStart + sectorIndex, within, e);
      root := root[i := e];
      ok := true;
    }

    method PatchSlot(sector: nat, within: nat, e: Entry)
      requires 512 * sector + 512 <= |device.bytes| && within < 16 && WellTyped(e)
      modifies device
      ensures device.bytes == Splice(old(device.bytes), 512 * sector + 32 * within, EncodeEntry(e))
    {
      hide EncodeEntry, WellTyped;
      var buffer := device.ReadSectors(sector, 1);
      ghost var lo := 512 * sector;
      SpliceWithin(device.bytes, lo, lo + 512, lo + 32 * within, EncodeEntry(e));
      buffer := Splice(buffer, 32 * within, EncodeEntry(e));
      device.WriteSectors(sector, buffer);
    }

    method ReadRootDirectoryEntry(i: nat) returns (e: Entry)
      requires Mounted() && i < |root|
      ensures e == root[i] && WellTyped(e)
    {
      hide TableIs, ClustersAre, RootIs, Fits, DecodeEntry, WellTyped;
      SlotPlace(g, device.bytes, i);
      var buffer := device.ReadSectors(g.rootDirStart + i / 16, 1);
      SlotRead(g, device.bytes, root, i, buffer);
      e := DecodeEntry(buffer[32 * (i % 16)..32 * (i % 16) + 32]);
    }

    /** The root directory entry of a slot says where its chain starts and has no more
        bytes than the chain. */
    ghost predicate OnDisk(slot: nat)
      reads this
    {
      && slot < |root| && slot < |chains|
      && root[slot].clusterLow == Start(chains[slot])
      && Within(chains[slot], |data|) && root[slot].size <= |Bytes(slot)|
    }

    /** The file that the directory entry of a slot describes. */
    ghost function FileOnDisk(slot: nat): seq<byte>
      requires OnDisk(slot)
      reads this
    {
      Bytes(slot)[..root[slot].size]
    }

    /** A clean handle says what the directory entry says. */
    ghost predicate CleanIsRecorded(h: FileHandle)
      reads this, h
    {
      !h.dirty && h.dirEntryIndex < |root| ==>
        root[h.dirEntryIndex].clusterLow == h.startCluster && root[h.dirEntryIndex].size == h.size
    }

    /** FAT16::close: what is on the disk afterwards is what the handle had, if and only if
        its size fits the 32-bit field. */
    method Close(h: FileHandle)
      requires !g.wide && Handles(h) && Consistent() && CleanIsRecorded(h) && h.dirEntryIndex == h.file
      modifies this`root, device
      ensures Mounted() && Consistent() && OnDisk(h.dirEntryIndex)
      ensures FileOnDisk(h.dirEntryIndex) == FileBytes(h) <==> h.size < 0x1_0000_0000
      ensures root[h.dirEntryIndex].attributes == old(root)[h.dirEntryIndex].attributes
      ensures forall t :: 0 <= t < |root| && t != h.dirEntryIndex ==> root[t] == old(root)[t]
    {
      hide TableIs, ClustersAre, RootIs, Fits, Content, WellFormed;
      SlotFacts(fat, g.Eoc(), chains, reserved, h.dirEntryIndex);
      if h.dirty {
        var e := ReadRootDirectoryEntry(h.dirEntryIndex);
        e := e.(size := h.size % 0x1_0000_0000, clusterHigh := 0, clusterLow := h.startCluster % 0x10000);
        var _ := UpdateRootDirectoryEntry(h.dirEntryIndex, e);
      } else {
        var e := ReadRootDirectoryEntry(h.dirEntryIndex);
      }
    }

    /** Frees the chain of a slot whose first cluster is `start`. */
    method FreeSlot(ghost slot: nat, start: nat)
      requires Mounted() && Consistent() && slot < |chains| && start == Start(chains[slot])
      modifies this`fat, this`chains, device
      ensures Mounted() && Consistent() && chains == old(chains)[slot := []]
    {
      hide TableIs, ClustersAre, RootIs, Fits, WellFormed;
      SlotFacts(fat, g.Eoc(), chains, reserved, slot);
      WalkIsChain(fat, g.Eoc(), chains[slot]);
      NoLinks(slot);
      ShrinkKeeps(fat, g.Eoc(), chains, reserved, slot);
      if start >= 2 {
        TableWords(g, device.bytes, fat, data, root);
        StaysInsideMore(fat, Words(g, device.bytes), g.Eoc(), start);
        FreeClusterChain(start);
      }
      chains := chains[slot := []];
    }

    lemma NoLinks(slot: nat)
      requires slot < |chains| && IsChain(fat, g.Eoc(), chains[slot])
      ensures Start(chains[slot]) < 2 ==> chains[slot] == [] && ZeroAll(fat, chains[slot]) == fat
    {
      if chains[slot] != [] { assert chains[slot][0] >= 2; }
      assert ZeroAll(fat, []) == fat;
    }

    /** FAT16::open, once the lookup has found the slot of the name: null for a directory. */
    method Open(slot: nat, mode: OpenMode) returns (h: FileHandle?)
      requires !g.wide && Mounted() && Consistent() && OnDisk(slot)
      modifies this`fat, this`chains, this`root, device
      ensures h == null <==> old(root)[slot].attributes / DIRECTORY % 2 == 1
      ensures Mounted() && Consistent() && data == old(data) && |root| == |old(root)|
      ensures h != null ==> fresh(h) && Handles(h) && CleanIsRecorded(h) && h.dirEntryIndex == h.file == slot
      ensures h != null ==>
        FileBytes(h) == if mode.truncate && mode.write then [] else old(FileOnDisk(slot))
      ensures h == null || !(mode.truncate && mode.write) ==> fat == old(fat) && chains == old(chains) && root == old(root)
      ensures h != null && mode.truncate && mode.write ==>
        root == old(root)[slot := old(root)[slot].(clusterLow := 0, clusterHigh := 0, size := 0)]
      ensures h != null ==> h.dirCluster == 0 && h.dirty == (mode.truncate && mode.write)
      ensures h != null && !(mode.truncate && mode.write) ==> h.startCluster == root[slot].clusterLow && h.size == root[slot].size
      ensures forall t :: 0 <= t < |old(chains)| && t != slot ==> chains[t] == old(chains)[t]
    {
      hide TableIs, ClustersAre, RootIs, Fits, Content, WellFormed, WellTyped;
      SlotFacts(fat, g.Eoc(), chains, reserved, slot);
      var e := ReadRootDirectoryEntry(slot);
      if e.attributes / DIRECTORY % 2 == 1 { return null; }
      h := new FileHandle(e.clusterLow, e.size, 0, slot, slot);
      if mode.truncate && mode.write {
        FreeSlot(slot, h.startCluster);
        h.startCluster := 0;
        h.size := 0;
        h.dirty := true;
        NoStart(e);
        var _ := UpdateRootDirectoryEntry(slot, e.(clusterLow := 0, clusterHigh := 0, size := 0));
      }
    }

    static lemma NoStart(e: Entry)
      requires WellTyped(e)
      ensures WellTyped(e.(clusterLow := 0, clusterHigh := 0, size := 0))
    {}

    // ----- FAT32 directories, which are chains themselves -----

    /** Entry i of the directory on chain d. */
    ghost function EntryIn(d: nat, i: nat): Entry
      requires d < |chains| && Within(chains[d], |data|) && 32 * i + 32 <= |Bytes(d)|
      reads this
    {
      DecodeEntry(Bytes(d)[32 * i..32 * i + 32])
    }

    /** Where entry i of a directory is: the cluster and the place in it. */
    method LocateEntry(dirStart: nat, i: nat, ghost d: nat) returns (cluster: nat, offset: nat)
      requires Mounted() && g.wide && Consistent() && d < |chains| && dirStart == Start(chains[d])
      ensures Within(chains[d], |data|)
      ensures cluster != 0 <==> 32 * i + 32 <= |Bytes(d)|
      ensures cluster != 0 ==> 2 <= cluster < |data| && EntryPlaced(clusterSize, chains[d], i, cluster, offset)
    {
      hide TableIs, ClustersAre, RootIs, Fits, WellFormed, Content, Span, EntryCluster, EntryPosition, IsChain, Within;
      hide Distinct, Blocks, EntryPlaced, Geometry.ClusterSize;
      EntryFacts(d, i);
      offset := 0;
      if dirStart < 2 { return 0, 0; }
      cluster := TraverseToCluster(dirStart, EntryCluster(i, clusterSize), chains[d]);
      if cluster < 2 || cluster >= g.Bad() { return 0, 0; }
      offset := EntryPosition(i, clusterSize);
    }

    lemma EntryFacts(d: nat, i: nat)
      requires Mounted() && g.wide && Consistent() && d < |chains|
      ensures clusterSize >= 32 && IsChain(fat, g.Eoc(), chains[d]) && Within(chains[d], |data|)
      ensures Start(chains[d]) < 2 <==> chains[d] == []
      ensures var k := EntryCluster(i, clusterSize);
        && (k < |chains[d]| <==> 32 * i + 32 <= |Bytes(d)|)
        && (k < |chains[d]| ==> 2 <= chains[d][k] < |data| && chains[d][k] < g.Bad()
                                && EntryPlaced(clusterSize, chains[d], i, chains[d][k], EntryPosition(i, clusterSize)))
    {
      hide TableIs, ClustersAre, RootIs, Fits, WellFormed, Content, Span, EntryCluster, EntryPosition, IsChain, EntryPlaced;
      hide Geometry.ClusterSize, Distinct, Blocks;
      SizeFacts(g);
      SlotFacts(fat, g.Eoc(), chains, reserved, d);
      EntryIndex(data, clusterSize, chains[d], i);
      ChainNumbers(fat, g.Eoc(), chains[d], g.Bad());
    }

    static lemma SizeFacts(g: Geometry)
      requires g.ClusterSize() > 0
      ensures g.ClusterSize() >= 32 && g.ClusterSize() % 32 == 0
    {
      var n := 16 * g.sectorsPerCluster;
      assert g.ClusterSize() == 32 * n;
      Even(n);
    }

    static lemma Even(n: nat)
      ensures 32 * n % 32 == 0
    {}

    /** The read half of FAT32::close, and what open finds at a slot. */
    method ReadDirectoryEntry(dirStart: nat, i: nat, ghost d: nat) returns (ok: bool, e: Entry)
      requires Mounted() && g.wide && Consistent() && d < |chains| && dirStart == Start(chains[d])
      modifies clusterBuffer
      ensures Within(chains[d], |data|) && WellTyped(e)
      ensures ok <==> 32 * i + 32 <= |Bytes(d)|
      ensures ok ==> e == EntryIn(d, i)
    {
      hide TableIs, ClustersAre, RootIs, Fits, WellFormed, Content, Span, DecodeEntry, WellTyped, EntryCluster;
      var cluster, offset := LocateEntry(dirStart, i, d);
      e := NoEntry();
      if cluster == 0 { return false, e; }
      LoadCluster(cluster);
      ChunkIn(data, clusterSize, chains[d], EntryCluster(i, clusterSize), offset, 32 * i, 32);
      e := DecodeEntry(clusterBuffer[..][offset..offset + 32]);
      EntryBytes(clusterBuffer[..][offset..offset + 32]);
      ok := true;
    }

    static function NoEntry(): (e: Entry)
      ensures WellTyped(e)
    {
      Entry(seq(11, _ => 0), 0, 0, 0, 0, 0, 0, 0, 0, 0, 0, 0)
    }

    /** FAT32::updateDirectoryEntry: the 32 bytes of one entry change, no other byte of the
        directory and nothing of any other chain. */
    method UpdateDirectoryEntry(dirStart: nat, i: nat, e: Entry, ghost d: nat) returns (ok: bool)
      requires Mounted() && g.wide && Consistent() && d < |chains| && dirStart == Start(chains[d]) && WellTyped(e)
      modifies this`data, device, clusterBuffer
      ensures Mounted() && Consistent() && Within(chains[d], |data|) && Within(chains[d], |old(data)|)
      ensures ok <==> 32 * i + 32 <= |old(Bytes(d))|
      ensures Bytes(d) == if ok then Splice(old(Bytes(d)), 32 * i, EncodeEntry(e)) else old(Bytes(d))
      ensures OthersKept(chains, old(data), chains, data, d)
    {
      hide TableIs, ClustersAre, RootIs, Fits, WellFormed, Content, Span, EncodeEntry, WellTyped, OthersKept, Splice;
      hide EntryCluster;
      KeptRefl(d);
      SlotFacts(fat, g.Eoc(), chains, reserved, d);
      var cluster, offset := LocateEntry(dirStart, i, d);
      if cluster == 0 { return false; }
      ghost var k := EntryCluster(i, clusterSize);
      EntryStep(data, clusterSize, chains[d], k, offset, 32 * i, EncodeEntry(e));
      StorePiece(cluster, offset, EncodeEntry(e));
      ghost var block := data[cluster];
      OthersKeptStep(fat, g.Eoc(), reserved, chains, old(data), chains, old(data), d, cluster, block);
      ok := true;
    }

    /** The scan of one cluster of a directory. */
    method ScanCluster(cluster: nat, ghost d: nat, ghost k: nat) returns (i: nat)
      requires Mounted() && g.wide && Consistent() && d < |chains| && k < |chains[d]| && cluster == chains[d][k]
      requires IsChain(fat, g.Eoc(), chains[d]) && Within(chains[d], |data|)
      modifies clusterBuffer
      ensures i <= clusterSize / 32 && Span(k, clusterSize) + clusterSize <= |Bytes(d)|
      ensures forall j :: 0 <= j < i ==> !Vacancy(Bytes(d)[Span(k, clusterSize) + 32 * j])
      ensures i < clusterSize / 32 ==> Vacancy(Bytes(d)[Span(k, clusterSize) + 32 * i])
    {
      hide TableIs, ClustersAre, RootIs, Fits, WellFormed, Content, Span;
      LoadCluster(cluster);
      ghost var at := Span(k, clusterSize);
      ChunkIn(data, clusterSize, chains[d], k, 0, at, clusterSize);
      ghost var bytes := Bytes(d);
      assert clusterBuffer[..] == bytes[at..at + clusterSize];
      i := 0;
      while i < clusterSize / 32
        invariant i <= clusterSize / 32
        invariant forall j :: 0 <= j < i ==> !Vacancy(bytes[at + 32 * j])
      {
        assert clusterBuffer[..][32 * i] == bytes[at + 32 * i];
        if clusterBuffer[32 * i] == 0x00 || clusterBuffer[32 * i] == 0xE5 { return; }
        i := i + 1;
      }
    }

    /** Links a fresh cluster behind the last cluster of a directory. */
    method GrowDirectory(ghost d: nat, last: nat) returns (c: nat)
      requires Mounted() && g.wide && Consistent() && d < |chains| && chains[d] != [] && last == chains[d][|chains[d]| - 1]
      requires Within(chains[d], |data|) && 2 <= last < |fat|
      modifies this`fat, this`data, this`chains, device, clusterBuffer
      ensures Mounted() && Consistent() && d < |chains| && Within(chains[d], |data|) && OthersKept(old(chains), old(data), chains, data, d)
      ensures c == 0 <==> NoneFree(old(fat))
      ensures c == 0 ==> fat == old(fat) && data == old(data) && chains == old(chains)
      ensures c != 0 ==> chains[d] == old(chains[d]) + [c] && old(Bytes(d)) <= Bytes(d)
    {
      hide TableIs, ClustersAre, RootIs, Fits, Content, WellFormed, IsChain, OthersKept, Within;
      SlotFacts(fat, g.Eoc(), chains, reserved, d);
      KeptRefl(d);
      c := AllocateCluster();
      if c == 0 { return; }
      WriteFat(last, c);
      GrowSlot(old(fat), g.Eoc(), chains, reserved, old(data), d, c, g.Mark(), seq(clusterSize, _ => 0 as byte));
      chains := chains[d := chains[d] + [c]];
    }

    /** FAT32::findFreeDirectoryEntry: the first entry that can be used. A full directory
        gets another cluster, but the number returned is that of the first entry of the
        last full cluster, which is in use. */
    method FindFreeDirectoryEntry(dirStart: nat, ghost d: nat) returns (ok: bool, index: nat)
      requires Mounted() && g.wide && Consistent() && d < |chains| && dirStart == Start(chains[d])
      requires Within(chains[d], |data|)
      modifies this`fat, this`data, this`chains, device, clusterBuffer
      ensures Mounted() && Consistent() && d < |chains| && Within(chains[d], |data|)
      ensures OthersKept(old(chains), old(data), chains, data, d) && old(Bytes(d)) <= Bytes(d)
      ensures !ok <==> dirStart < 2 || (old(AllInUse(Bytes(d))) && NoneFree(old(fat)))
      ensures ok ==> 32 * index + 32 <= |old(Bytes(d))|
      ensures ok ==> (Vacancy(Bytes(d)[32 * index]) <==> !old(AllInUse(Bytes(d))))
      ensures ok && !old(AllInUse(Bytes(d))) ==> chains == old(chains) && data == old(data) && InUse(Bytes(d), index)
      ensures ok && old(AllInUse(Bytes(d))) ==>
        |chains[d]| == |old(chains[d])| + 1 && index == Span(|old(chains[d])| - 1, clusterSize / 32)
    {
      hide TableIs, ClustersAre, RootIs, Fits, WellFormed, Content, Span, IsChain, OthersKept, Vacancy, InUse, AllInUse;
      ghost var bytes := Bytes(d);
      EntryFacts(d, 0);
      ChainEnds(d);
      KeptRefl(d);
      NothingInUse(bytes, clusterSize);
      index := 0;
      if dirStart < 2 { return false, 0; }
      var cluster := dirStart;
      ghost var k: nat := 0;
      while true
        invariant Mounted() && Consistent() && fat == old(fat) && data == old(data) && chains == old(chains)
        invariant k < |chains[d]| && cluster == chains[d][k] && index == Span(k, clusterSize / 32)
        invariant InUse(bytes, index)
        decreases |chains[d]| - k
      {
        var i := ScanCluster(cluster, d, k);
        SpanSteps(k, clusterSize);
        UsedMore(bytes, index, Span(k, clusterSize), i, clusterSize);
        if i < clusterSize / 32 { return true, index + i; }
        var next := ReadFat(cluster);
        if next >= g.Eoc() { break; }
        cluster := next;
        k := k + 1;
        index := index + clusterSize / 32;
      }
      UsedToTheEnd(data, clusterSize, chains[d], k);
      var c := GrowDirectory(d, cluster);
      ok := c != 0;
    }

    /** Links of a chain are clusters; the last one is an end marker. */
    lemma ChainEnds(d: nat)
      requires Mounted() && Consistent() && d < |chains|
      ensures forall i :: 0 <= i < |chains[d]| ==>
        && 2 <= chains[d][i] < |fat|
        && (i < |chains[d]| - 1 <==> fat[chains[d][i]] < g.Eoc())
        && (i < |chains[d]| - 1 ==> fat[chains[d][i]] == chains[d][i + 1])
    {
      forall i | 0 <= i < |chains[d]|
        ensures 2 <= chains[d][i] < |fat|
        ensures i < |chains[d]| - 1 <==> fat[chains[d][i]] < g.Eoc()
        ensures i < |chains[d]| - 1 ==> fat[chains[d][i]] == chains[d][i + 1]
      {
        LinkAt(fat, g.Eoc(), chains[d], i);
      }
    }

    /** Chain f holds the file that entry i of directory d describes. */
    ghost predicate Described(d: nat, i: nat, f: nat)
      reads this
    {
      && d < |chains| && f < |chains| && d != f
      && Within(chains[d], |data|) && Within(chains[f], |data|) && 32 * i + 32 <= |Bytes(d)|
      && GetStart(EntryIn(d, i)) == Start(chains[f]) && EntryIn(d, i).size <= |Bytes(f)|
    }

    ghost function DescribedBytes(d: nat, i: nat, f: nat): seq<byte>
      requires Described(d, i, f)
      reads this
    {
      Bytes(f)[..EntryIn(d, i).size]
    }

    /** A handle knows its entry; a clean one says what the entry says. */
    ghost predicate Recorded(h: FileHandle, d: nat)
      reads this, h
    {
      && d < |chains| && d != h.file && h.dirCluster == Start(chains[d])
      && Within(chains[d], |data|) && 32 * h.dirEntryIndex + 32 <= |Bytes(d)|
      && (!h.dirty ==> GetStart(EntryIn(d, h.dirEntryIndex)) == h.startCluster && EntryIn(d, h.dirEntryIndex).size == h.size)
    }

    /** FAT32::close: afterwards the directory describes the file as the handle had it, if
        and only if its size fits the 32-bit field. All other bytes stay. */
    method CloseWide(h: FileHandle, ghost d: nat)
      requires g.wide && Handles(h) && Consistent() && Recorded(h, d)
      modifies this`data, device, clusterBuffer
      ensures Mounted() && Consistent() && Described(d, h.dirEntryIndex, h.file)
      ensures DescribedBytes(d, h.dirEntryIndex, h.file) == old(FileBytes(h)) <==> h.size < 0x1_0000_0000
      ensures EntryIn(d, h.dirEntryIndex) ==
        if h.dirty then SetStart(old(EntryIn(d, h.dirEntryIndex)).(size := h.size % 0x1_0000_0000), h.startCluster)
        else old(EntryIn(d, h.dirEntryIndex))
      ensures OthersKept(chains, old(data), chains, data, d)
      ensures |Bytes(d)| == |old(Bytes(d))|
      ensures forall j :: 0 <= j < |Bytes(d)| && !(32 * h.dirEntryIndex <= j < 32 * h.dirEntryIndex + 32) ==>
                Bytes(d)[j] == old(Bytes(d)[j])
    {
      hide TableIs, ClustersAre, RootIs, Fits, WellFormed, Content, DecodeEntry, EncodeEntry, WellTyped, OthersKept;
      ghost var i, f := h.dirEntryIndex, h.file;
      KeptRefl(d);
      SlotFacts(fat, g.Eoc(), chains, reserved, f);
      EntryBytes(Bytes(d)[32 * i..32 * i + 32]);
      SizeField(EntryIn(d, i));
      StartSmall(fat, g.Eoc(), chains[f]);
      if h.dirty {
        var ok, e := ReadDirectoryEntry(h.dirCluster, h.dirEntryIndex, d);
        e := SetStart(e.(size := h.size % 0x1_0000_0000), h.startCluster);
        StillTyped(EntryIn(d, i), h.size, h.startCluster);
        label Before:
        ok := UpdateDirectoryEntry(h.dirCluster, h.dirEntryIndex, e, d);
        OthersKeptContent(chains, old(data), chains, data, d, f);
        SpliceBytes(old(Bytes(d)), 32 * i, e);
        StartRoundTrip(e, h.startCluster);
      }
      Cropped(old(FileBytes(h)), Bytes(f), EntryIn(d, i).size, h.size);
    }

    static lemma StillTyped(e: Entry, size: nat, start: nat)
      requires WellTyped(e)
      ensures var e' := SetStart(e.(size := size % 0x1_0000_0000), start);
        WellTyped(e') && GetStart(e') == start % 0x1_0000_0000 && e'.size == size % 0x1_0000_0000
    {}

    static lemma SizeField(e: Entry)
      ensures WellTyped(e) ==> e.size < 0x1_0000_0000
    {}

    static lemma StartSmall(fat: seq<nat>, eoc: nat, chain: seq<nat>)
      requires IsChain(fat, eoc, chain) && |fat| < 0x1_0000_0000
      ensures Start(chain) % 0x1_0000_0000 == Start(chain)
    {}

    static lemma Cropped(file: seq<byte>, bytes: seq<byte>, recorded: nat, size: nat)
      requires size <= |bytes| && file == bytes[..size] && recorded == size % 0x1_0000_0000
      ensures recorded <= size && (bytes[..recorded] == file <==> size < 0x1_0000_0000)
    {}

    static lemma SpliceBytes(s: seq<byte>, at: nat, e: Entry)
      requires at + 32 <= |s| && WellTyped(e)
      ensures var r := Splice(s, at, EncodeEntry(e));
        && |r| == |s| && DecodeEntry(r[at..at + 32]) == e
        && forall j :: 0 <= j < |s| && !(at <= j < at + 32) ==> r[j] == s[j]
    {
      hide EncodeEntry, DecodeEntry, WellTyped;
      EntryRoundTrip(e);
      SpliceSlice(s, at, EncodeEntry(e), at, at + 32);
    }

    /** FAT32::open, once the lookup has found the entry. Truncating frees the chain and does
        not rewrite the entry: until the close it names a freed cluster, unless the file had
        none. */
    method OpenWide(dirStart: nat, i: nat, mode: OpenMode, ghost d: nat, ghost f: nat) returns (h: FileHandle?)
      requires g.wide && Mounted() && Consistent() && Described(d, i, f) && dirStart == Start(chains[d])
      modifies this`fat, this`chains, clusterBuffer, device
      ensures h == null <==> old(EntryIn(d, i).attributes) / DIRECTORY % 2 == 1
      ensures Mounted() && Consistent() && data == old(data)
      ensures h != null ==> fresh(h) && Handles(h) && h.file == f && h.dirEntryIndex == i && Recorded(h, d)
      ensures h != null && !(mode.truncate && mode.write) ==>
        h.startCluster == old(GetStart(EntryIn(d, i))) && h.size == old(EntryIn(d, i).size)
      ensures h != null ==> h.dirCluster == dirStart && h.dirty == (mode.truncate && mode.write)
      ensures h == null || !(mode.truncate && mode.write) ==> fat == old(fat) && chains == old(chains)
      ensures h != null && mode.truncate && mode.write ==> (Described(d, i, f) <==> old(chains)[f] == [])
      ensures h != null ==>
        FileBytes(h) == if mode.truncate && mode.write then [] else old(DescribedBytes(d, i, f))
      ensures forall t :: 0 <= t < |old(chains)| && t != f ==> t < |chains| && chains[t] == old(chains)[t]
    {
      hide TableIs, ClustersAre, RootIs, Fits, WellFormed, Content, DecodeEntry, WellTyped;
      var ok, e := ReadDirectoryEntry(dirStart, i, d);
      h := OpenEntry(e, dirStart, i, mode, d, i, f);
    }

    /** The rest of FAT32::open, for entry e, which is entry i of directory d and was found
        under number `index`. */
    method OpenEntry(e: Entry, dirStart: nat, index: nat, mode: OpenMode, ghost d: nat, ghost i: nat, ghost f: nat) returns (h: FileHandle?)
      requires g.wide && Mounted() && Consistent() && d < |chains| && dirStart == Start(chains[d])
      requires Within(chains[d], |data|) && 32 * i + 32 <= |Bytes(d)| && e == EntryIn(d, i)
      requires e.attributes / DIRECTORY % 2 == 0 ==> Described(d, i, f)
      modifies this`fat, this`chains, device
      ensures h == null <==> e.attributes / DIRECTORY % 2 == 1
      ensures h == null || !(mode.truncate && mode.write) ==> fat == old(fat) && chains == old(chains)
      ensures h != null && mode.truncate && mode.write ==> (Described(d, i, f) <==> old(chains)[f] == [])
      ensures |chains| == |old(chains)|
      ensures Mounted() && Consistent() && data == old(data)
      ensures h != null ==> fresh(h) && Handles(h) && h.file == f && h.dirEntryIndex == index && h.dirCluster == dirStart
      ensures h != null ==> d != f && (index == i ==> Recorded(h, d))
      ensures h != null && !(mode.truncate && mode.write) ==> h.startCluster == GetStart(e) && h.size == e.size
      ensures h != null ==> h.dirty == (mode.truncate && mode.write)
      ensures h != null ==>
        FileBytes(h) == if mode.truncate && mode.write then [] else old(DescribedBytes(d, i, f))
      ensures forall t :: 0 <= t < |old(chains)| && t != f ==> t < |chains| && chains[t] == old(chains)[t]
    {
      hide TableIs, ClustersAre, RootIs, Fits, WellFormed, Content, DecodeEntry, WellTyped;
      if e.attributes / DIRECTORY % 2 == 1 { return null; }
      SlotFacts(fat, g.Eoc(), chains, reserved, f);
      SlotFacts(fat, g.Eoc(), chains, reserved, d);
      h := new FileHandle(GetStart(e), e.size, dirStart, index, f);
      if mode.truncate && mode.write {
        ghost var chain := chains[f];
        FreeSlot(f, h.startCluster);
        h.startCluster := 0;
        h.size := 0;
        h.dirty := true;
        StartIsNone(chain, chains[f]);
      }
    }

    lemma StartIsNone(chain: seq<nat>, empty: seq<nat>)
      requires empty == [] && forall k :: 0 <= k < |chain| ==> chain[k] >= 2
      ensures Start(empty) == 0 && (Start(chain) == 0 <==> chain == [])
      ensures Within(empty, |data|) && Content(data, empty) == []
    {}

    /** Persistence: a file closed and opened again has the same bytes if and only if its size
        fits the 32-bit field. */
    method CloseThenOpen(h: FileHandle, mode: OpenMode, ghost d: nat) returns (h2: FileHandle?)
      requires g.wide && Handles(h) && Consistent() && Recorded(h, d)
      requires EntryIn(d, h.dirEntryIndex).attributes / DIRECTORY % 2 == 0 && !mode.truncate
      modifies this`data, this`fat, this`chains, device, clusterBuffer
      ensures h2 != null && Handles(h2) && h2.startCluster == h.startCluster && fat == old(fat)
      ensures FileBytes(h2) == old(FileBytes(h)) <==> h.size < 0x1_0000_0000
    {
      hide TableIs, ClustersAre, RootIs, Fits, WellFormed, Content, DecodeEntry, OthersKept, IsChain;
      CloseWide(h, d);
      h2 := OpenWide(h.dirCluster, h.dirEntryIndex, mode, d, h.file);
    }

    /** What any number of writes through a handle did is still there after FAT32::close and
        open, if and only if the size fits the 32-bit field. */
    method WriteThenReopenWide(h: FileHandle, writes: seq<(nat, seq<byte>)>, mode: OpenMode, ghost d: nat)
      returns (h2: FileHandle?, counts: seq<int>)
      requires g.wide && Handles(h) && Consistent() && Recorded(h, d)
      requires EntryIn(d, h.dirEntryIndex).attributes / DIRECTORY % 2 == 0 && !mode.truncate
      modifies this`data, this`fat, this`chains, device, clusterBuffer, h`startCluster, h`size, h`dirty
      ensures h2 != null && Handles(h2) && Accepted(old(FileBytes(h)), writes, counts)
      ensures Short(writes, counts) ==> NoneFree(fat)
      ensures var file := Rewritten(old(FileBytes(h)), writes, counts);
        FileBytes(h2) == file <==> |file| < 0x1_0000_0000
    {
      hide TableIs, ClustersAre, RootIs, Fits, Content, WellFormed, Splice, IsChain, Handles, Accepted, Rewritten;
      hide DecodeEntry;
      counts := WriteAll(h, writes);
      assert Untouched(d);
      h2 := CloseThenOpen(h, mode, d);
    }

    /** The same for FAT16. */
    method WriteThenReopen(h: FileHandle, writes: seq<(nat, seq<byte>)>, mode: OpenMode)
      returns (h2: FileHandle?, counts: seq<int>)
      requires !g.wide && Handles(h) && Consistent() && CleanIsRecorded(h) && h.dirEntryIndex == h.file
      requires root[h.file].attributes / DIRECTORY % 2 == 0 && !mode.truncate
      modifies this`data, this`fat, this`chains, this`root, device, clusterBuffer, h`startCluster, h`size, h`dirty
      ensures h2 != null && Handles(h2) && Accepted(old(FileBytes(h)), writes, counts)
      ensures Short(writes, counts) ==> NoneFree(fat)
      ensures var file := Rewritten(old(FileBytes(h)), writes, counts);
        FileBytes(h2) == file <==> |file| < 0x1_0000_0000
    {
      hide TableIs, ClustersAre, RootIs, Fits, Content, WellFormed, Splice, IsChain, Accepted, Rewritten;
      counts := WriteAll(h, writes);
      Close(h);
      h2 := Open(h.dirEntryIndex, mode);
    }
  }

  /** The number of the cluster of a directory that holds entry i, and the place in it. */
  function EntryCluster(i: nat, size: nat): nat
    requires size >= 32
  {
    i / (size / 32)
  }

  function EntryPosition(i: nat, size: nat): nat
    requires size >= 32
  {
    32 * (i % (size / 32))
  }

  ghost predicate EntryPlaced(size: nat, chain: seq<nat>, i: nat, cluster: nat, offset: nat)
    requires size >= 32
  {
    var k := EntryCluster(i, size);
    && k < |chain| && cluster == chain[k]
    && offset + 32 <= size && Span(k, size) + offset == 32 * i
  }

  lemma EntryIndex(data: seq<seq<byte>>, size: nat, chain: seq<nat>, i: nat)
    requires Blocks(data, size) && Within(chain, |data|) && size >= 32 && size % 32 == 0
    ensures var k := EntryCluster(i, size);
      && (k < |chain| <==> 32 * i + 32 <= |Content(data, chain)|)
      && (k < |chain| ==> EntryPlaced(size, chain, i, chain[k], EntryPosition(i, size)))
  {
    var n := size / 32;
    var k := i / n;
    ContentLength(data, size, chain);
    DivSplit(i, n);
    Scale(k, n);
    if k < |chain| { MulMono(k, |chain|, size); } else { MulMono(|chain|, k, size); }
  }

  lemma ChainNumbers(fat: seq<nat>, eoc: nat, chain: seq<nat>, bad: nat)
    requires IsChain(fat, eoc, chain) && |fat| < bad
    ensures forall i :: 0 <= i < |chain| ==> 2 <= chain[i] < |fat| && chain[i] < bad
    ensures Start(chain) < 2 <==> chain == []
  {
    if chain != [] { assert chain[0] >= 2; }
  }

  lemma DivSplit(i: nat, n: nat)
    requires n > 0
    ensures i == (i / n) * n + i % n && i % n < n
  {}

  lemma Scale(k: nat, n: nat)
    ensures k * (32 * n) == 32 * (k * n)
  {}

  /** First name byte of an entry that can be used. */
  predicate Vacancy(b: byte) { b == 0x00 || b == 0xE5 }

  /** The first n entries of a directory are in use. */
  ghost predicate InUse(bytes: seq<byte>, n: nat) {
    32 * n <= |bytes| && forall i :: 0 <= i < n ==> !Vacancy(bytes[32 * i])
  }

  ghost predicate AllInUse(bytes: seq<byte>) { InUse(bytes, |bytes| / 32) }

  lemma NothingInUse(bytes: seq<byte>, size: nat)
    requires size >= 32
    ensures InUse(bytes, 0) && Span(0, size / 32) == 0 && bytes <= bytes
    ensures bytes == [] ==> AllInUse(bytes)
  {}

  lemma SpanSteps(k: nat, size: nat)
    requires size >= 32 && size % 32 == 0
    ensures Span(k, size) == 32 * Span(k, size / 32)
    ensures Span(k + 1, size / 32) == Span(k, size / 32) + size / 32
  {
    Scale(k, size / 32);
    assert size == 32 * (size / 32);
  }

  /** After i more entries in use, in a cluster at `at`. */
  lemma UsedMore(bytes: seq<byte>, index: nat, at: nat, i: nat, size: nat)
    requires InUse(bytes, index) && at == 32 * index && size % 32 == 0 && i <= size / 32 && at + size <= |bytes|
    requires forall j :: 0 <= j < i ==> !Vacancy(bytes[at + 32 * j])
    ensures InUse(bytes, index + i)
    ensures i < size / 32 ==> 32 * (index + i) + 32 <= |bytes| && (Vacancy(bytes[at + 32 * i]) ==> !AllInUse(bytes))
  {
    hide Vacancy;
    forall j | 0 <= j < index + i ensures !Vacancy(bytes[32 * j]) {
      if j >= index { assert !Vacancy(bytes[at + 32 * (j - index)]); }
    }
    if i < size / 32 {
      assert 32 * (index + i) + 32 <= |bytes|;
      assert index + i < |bytes| / 32 && bytes[at + 32 * i] == bytes[32 * (index + i)];
    }
  }

  /** All clusters scanned: the whole directory is in use, and so is the first entry of the
      last cluster. */
  lemma UsedToTheEnd(data: seq<seq<byte>>, size: nat, chain: seq<nat>, k: nat)
    requires Blocks(data, size) && Within(chain, |data|) && size >= 32 && size % 32 == 0 && k + 1 == |chain|
    requires InUse(Content(data, chain), Span(k, size / 32) + size / 32)
    ensures AllInUse(Content(data, chain))
    ensures var i := Span(k, size / 32);
      32 * i + 32 <= |Content(data, chain)| && !Vacancy(Content(data, chain)[32 * i])
  {
    hide Vacancy;
    ContentLength(data, size, chain);
    SpanSteps(k, size);
    SpanSteps(k + 1, size);
    assert Span(|chain|, size) == |chain| * size;
  }

  /** Overwriting 32 bytes of one cluster splices the directory. */
  lemma EntryStep(data: seq<seq<byte>>, size: nat, chain: seq<nat>, k: nat, offset: nat, at: nat, t: seq<byte>)
    requires Blocks(data, size) && Within(chain, |data|) && Distinct(chain) && k < |chain|
    requires |t| == 32 && offset + 32 <= size && at == Span(k, size) + offset && at + 32 <= |Content(data, chain)|
    ensures Content(data[chain[k] := Splice(data[chain[k]], offset, t)], chain) == Splice(Content(data, chain), at, t)
  {
    hide Span, Splice;
    var content := Content(data, chain);
    ChunkStep(data, size, chain, k, offset, at, t, |content|);
    assert content[..|content|] == content;
    var data' := data[chain[k] := Splice(data[chain[k]], offset, t)];
    assert Content(data', chain)[..|content|] == Content(data', chain);
  }

  /** Chain t and the bytes on it are the same. */
  ghost predicate SameFile(c0: seq<seq<nat>>, d0: seq<seq<byte>>, c1: seq<seq<nat>>, d1: seq<seq<byte>>, t: nat) {
    && t < |c0| && t < |c1| && c1[t] == c0[t]
    && Within(c0[t], |d0|) && Within(c1[t], |d1|)
    && Content(d1, c1[t]) == Content(d0, c0[t])
  }

  // ----- many writes -----

  /** A file after writes of which the k-th got counts[k] bytes far, or was refused. */
  ghost function Rewritten(file: seq<byte>, writes: seq<(nat, seq<byte>)>, counts: seq<int>): seq<byte>
    requires |counts| == |writes|
  {
    if writes == [] then file
    else
      var n := |writes| - 1;
      var before := Rewritten(file, writes[..n], counts[..n]);
      if 0 < counts[n] <= |writes[n].1| then Splice(before, Min(writes[n].0, |before|), writes[n].1[..counts[n]]) else before
  }

  /** Each write was refused exactly if it began beyond the end, as that was then. */
  ghost predicate Accepted(file: seq<byte>, writes: seq<(nat, seq<byte>)>, counts: seq<int>) {
    && |counts| == |writes|
    && forall k :: 0 <= k < |writes| ==>
         Progressed(Rewritten(file, writes[..k], counts[..k]), writes[k].0, writes[k].1, counts[k])
  }

  predicate Progressed(before: seq<byte>, position: nat, src: seq<byte>, n: int) {
    -1 <= n <= |src| && (n == -1 <==> src != [] && position > |before|)
  }

  /** Some write that was not refused stopped before its end. */
  ghost predicate Short(writes: seq<(nat, seq<byte>)>, counts: seq<int>) {
    exists k :: 0 <= k < |writes| && k < |counts| && 0 <= counts[k] < |writes[k].1|
  }

  lemma NothingRewritten(file: seq<byte>, writes: seq<(nat, seq<byte>)>)
    ensures Rewritten(file, writes[..0], []) == file && Accepted(file, writes[..0], []) && !Short(writes[..0], [])
  {}

  lemma RewrittenOnce(file: seq<byte>, writes: seq<(nat, seq<byte>)>, k: nat, counts: seq<int>, n: int)
    requires k < |writes| && Accepted(file, writes[..k], counts)
    requires Progressed(Rewritten(file, writes[..k], counts), writes[k].0, writes[k].1, n)
    ensures Accepted(file, writes[..k + 1], counts + [n])
    ensures Short(writes[..k + 1], counts + [n]) <==> Short(writes[..k], counts) || 0 <= n < |writes[k].1|
    ensures var before := Rewritten(file, writes[..k], counts);
      Rewritten(file, writes[..k + 1], counts + [n])
      == if n > 0 then Splice(before, Min(writes[k].0, |before|), writes[k].1[..n]) else before
  {
    hide Rewritten, Splice, Short;
    var ws, cs := writes[..k + 1], counts + [n];
    RewrittenSnoc(file, writes, k, counts, n);
    ShortSnoc(writes, k, counts, n);
    forall j | 0 <= j < |ws| ensures Progressed(Rewritten(file, ws[..j], cs[..j]), ws[j].0, ws[j].1, cs[j]) {
      assert ws[j] == writes[j] && ws[..j] == writes[..j];
      if j < k {
        assert writes[..k][..j] == writes[..j] && writes[..k][j] == writes[j];
        assert cs[..j] == counts[..j] && cs[j] == counts[j];
      } else {
        assert cs[..j] == counts && cs[j] == n;
      }
    }
  }

  lemma ShortSnoc(writes: seq<(nat, seq<byte>)>, k: nat, counts: seq<int>, n: int)
    requires k < |writes| && |counts| == k
    ensures Short(writes[..k + 1], counts + [n]) <==> Short(writes[..k], counts) || 0 <= n < |writes[k].1|
  {
    var ws, cs := writes[..k + 1], counts + [n];
    if Short(writes[..k], counts) {
      var j :| 0 <= j < k && 0 <= counts[j] < |writes[..k][j].1|;
      assert cs[j] == counts[j] && ws[j] == writes[j];
    }
    if 0 <= n < |writes[k].1| { assert cs[k] == n && ws[k] == writes[k]; }
    if Short(ws, cs) {
      var j :| 0 <= j < |ws| && j < |cs| && 0 <= cs[j] < |ws[j].1|;
      if j < k { assert writes[..k][j] == ws[j] && counts[j] == cs[j]; }
    }
  }

  lemma RewrittenSnoc(file: seq<byte>, writes: seq<(nat, seq<byte>)>, k: nat, counts: seq<int>, n: int)
    requires k < |writes| && |counts| == k && n <= |writes[k].1|
    ensures var before := Rewritten(file, writes[..k], counts);
      Rewritten(file, writes[..k + 1], counts + [n])
      == if n > 0 then Splice(before, Min(writes[k].0, |before|), writes[k].1[..n]) else before
  {
    hide Splice;
    assert writes[..k + 1][..k] == writes[..k] && (counts + [n])[..k] == counts;
  }

  /** An open file: position and size over a handle of a volume. Closing keeps the
      object but every later operation fails. */
  class File {
    const fs: Volume
    const handle: FileHandle
    const mode: OpenMode
    var isOpen: bool
    var position: nat
    var size: nat

    constructor (fs: Volume, handle: FileHandle, mode: OpenMode)
      ensures isOpen && this.fs == fs && this.handle == handle && this.mode == mode
      ensures size == handle.size && position == if mode.append then size else 0
    {
      this.fs, this.handle, this.mode := fs, handle, mode;
      isOpen, size := true, handle.size;
      position := if mode.append then handle.size else 0;
    }

    ghost predicate Live()
      reads this, handle, fs, fs.device
    {
      isOpen && fs.Handles(handle) && fs.Consistent() && size == handle.size
    }

    ghost function Contents(): (b: seq<byte>)
      requires Live()
      reads this, handle, fs, fs.device
      ensures |b| == size
    {
      fs.FileBytes(handle)
    }

    /** File::read: a piece of the file at the position, which moves behind it; -1 for a file
        that is closed or not open for reading. */
    method Read(count: nat) returns (n: int, buffer: seq<byte>)
      requires isOpen ==> Live()
      modifies fs.clusterBuffer, `position
      ensures isOpen ==> Live() && Contents() == old(Contents())
      ensures !isOpen || !mode.read ==> n == -1 && buffer == [] && position == old(position)
      ensures isOpen && mode.read ==>
        && n == |buffer| && position == old(position) + n
        && n == (if old(position) >= size then 0 else Min(count, size - old(position)))
        && (n > 0 ==> buffer == Contents()[old(position)..position])
    {
      hide TableIs, ClustersAre, RootIs, Fits, Content, WellFormed;
      buffer := [];
      if !isOpen || !mode.read { return -1, []; }
      buffer := fs.Read(handle, position, count);
      n := |buffer|;
      position := position + |buffer|;
    }

    /** File::write: refused beyond the end; otherwise a prefix of `src` replaces what was
        at the position, and all of `src` unless the volume is full. */
    method Write(src: seq<byte>) returns (n: int)
      requires isOpen ==> Live()
      modifies fs`fat, fs`data, fs`chains, fs.device, fs.clusterBuffer,
        handle`startCluster, handle`size, handle`dirty, `position, `size
      ensures isOpen ==> Live() && fs.Tracked(handle)
      ensures !isOpen ==> fs.fat == old(fs.fat) && fs.data == old(fs.data) && fs.chains == old(fs.chains) && size == old(size)
      ensures isOpen ==> forall t :: 0 <= t < |old(fs.chains)| && t != handle.file ==> fs.Untouched(t)
      ensures -1 <= n && (n == -1 <==> !isOpen || !mode.write || (src != [] && old(position) > old(size)))
      ensures n <= 0 ==> position == old(position) && (isOpen ==> Contents() == old(Contents()))
      ensures n > 0 ==>
        && n <= |src| && position == old(position) + n && old(position) <= old(size)
        && Contents() == Splice(old(Contents()), old(position), src[..n])
      ensures 0 <= n < |src| ==> NoneFree(fs.fat)
    {
      hide TableIs, ClustersAre, RootIs, Fits, Content, WellFormed, Within;
      if !isOpen || !mode.write {
        if isOpen { fs.Still(handle.file); }
        return -1;
      }
      n := fs.Write(handle, position, src);
      if n > 0 {
        position := position + n;
        if position > size { size := position; }
      }
    }

    /** File::seek: any position that is not negative, even beyond the end. */
    method Seek(offset: int, origin: SeekOrigin) returns (r: int)
      modifies `position
      ensures var target := match origin { case Begin => offset case Current => old(position) + offset case End => size + offset };
        if target < 0 then r == -1 && position == old(position) else r == position == target
    {
      var newPos := match origin case Begin => offset case Current => position + offset case End => size + offset;
      if newPos < 0 { return -1; }
      position := newPos;
      r := position;
    }
  }

  /** What was written can be read back, by seeking to where the write began. */
  method ReadBack(f: File, src: seq<byte>) returns (n: int, back: seq<byte>)
    requires f.Live() && f.mode.read && f.mode.write && f.position <= f.size
    modifies f.fs`fat, f.fs`data, f.fs`chains, f.fs.device, f.fs.clusterBuffer,
      f.handle`startCluster, f.handle`size, f.handle`dirty, f`position, f`size
    ensures f.Live() && 0 <= n <= |src| && back == src[..n]
    ensures n < |src| ==> NoneFree(f.fs.fat)
  {
    hide TableIs, ClustersAre, RootIs, Fits, Content, WellFormed, Within, Volume.Handles, Volume.Consistent;
    var at := f.position;
    ghost var before := f.Contents();
    n := f.Write(src);
    if n <= 0 { return n, []; }
    var _ := f.Seek(at, Begin);
    var m, buffer := f.Read(n);
    SpliceHit(before, at, src[..n]);
    back := buffer;
  }

  lemma SpliceHit(s: seq<byte>, at: nat, t: seq<byte>)
    requires at <= |s|
    ensures Splice(s, at, t)[at..at + |t|] == t
  {}
}
