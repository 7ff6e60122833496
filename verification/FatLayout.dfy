/** Where a FAT volume keeps its tables, root directory and clusters, and what those bytes
    mean. Offsets follow sections 3 to 6 of the Microsoft FAT specification; sectors are 512
    bytes, the only size the drivers mount. FAT16 and FAT32 differ in the width of a table
    entry, and FAT32 has no fixed root directory. */
module FatLayout {
  import opened Bytes
  import opened FatChain
  import opened DirEntry

  const NIBBLE := 0x1000_0000

  /** The layout fields that mount() derives from the boot sector; `wide` for FAT32. */
  datatype Geometry = Geometry(
    wide: bool, fatStart: nat, fatCount: nat, sectorsPerFat: nat, rootEntryCount: nat,
    rootDirStart: nat, rootDirSectors: nat, dataStart: nat,
    sectorsPerCluster: nat, totalClusters: nat)
  {
    predicate Sound() {
      && fatCount > 0 && sectorsPerCluster > 0
      && rootDirStart == fatStart + fatCount * sectorsPerFat
      && rootEntryCount <= 16 * rootDirSectors
      && dataStart == rootDirStart + rootDirSectors
      && totalClusters + 2 < Bad()
      && EntryStart(totalClusters + 2) <= 512 * sectorsPerFat
    }

    /** The smallest end-of-chain marker, the one for a bad cluster, and the one the
        drivers write. */
    function Eoc(): nat { if wide then 0x0FFF_FFF8 else 0xFFF8 }
    function Bad(): nat { if wide then 0x0FFF_FFF7 else 0xFFF7 }
    function Mark(): nat { if wide then 0x0FFF_FFFF else 0xFFFF }
    function Values(): nat { if wide then NIBBLE else 0x1_0000 }

    /** Bytes of a table entry. */
    function Width(): nat { if wide then 4 else 2 }

    function EntryStart(c: nat): nat { if wide then 4 * c else 2 * c }

    function ClusterSize(): nat { 512 * sectorsPerCluster }

    function ClusterToSector(c: nat): nat
      requires c >= 2
    {
      dataStart + (c - 2) * sectorsPerCluster
    }

    function FatSector(copy: nat, c: nat): nat {
      fatStart + copy * sectorsPerFat + EntryStart(c) / 512
    }

    function EntryOffset(copy: nat, c: nat): nat {
      512 * (fatStart + copy * sectorsPerFat) + EntryStart(c)
    }

    function ClusterOffset(c: nat): nat
      requires c >= 2
    {
      512 * ClusterToSector(c)
    }

    function SlotOffset(i: nat): nat { 512 * rootDirStart + 32 * i }

    function Slots(): nat { 16 * rootDirSectors }
  }

  /** The boot sector fields that mount() looks at. */
  datatype BootSector = BootSector(
    bytesPerSector: nat, sectorsPerCluster: nat, reservedSectors: nat, fatCount: nat,
    rootEntryCount: nat, totalSectors16: nat, sectorsPerFat16: nat, totalSectors32: nat, sectorsPerFat32: nat)

  /** The fields in the first sector of a volume. */
  function BootOf(b: seq<byte>): BootSector
    requires |b| == 512
  {
    BootSector(Decode(b[11..13]), b[13], Decode(b[14..16]), b[16], Decode(b[17..19]), Decode(b[19..21]),
               Decode(b[22..24]), Decode(b[32..36]), Decode(b[36..40]))
  }

  /** Section 3 of the Microsoft FAT specification, byte by byte. */
  lemma BootPlaces(b: seq<byte>)
    requires |b| == 512
    ensures var f := BootOf(b);
      && f.bytesPerSector == b[11] + 0x100 * b[12] as nat && f.sectorsPerCluster == b[13]
      && f.reservedSectors == b[14] + 0x100 * b[15] as nat && f.fatCount == b[16]
      && f.rootEntryCount == b[17] + 0x100 * b[18] as nat && f.totalSectors16 == b[19] + 0x100 * b[20] as nat
      && f.sectorsPerFat16 == b[22] + 0x100 * b[23] as nat
      && f.totalSectors32 == b[32] + 0x100 * b[33] as nat + 0x1_0000 * b[34] as nat + 0x100_0000 * b[35] as nat
      && f.sectorsPerFat32 == b[36] + 0x100 * b[37] as nat + 0x1_0000 * b[38] as nat + 0x100_0000 * b[39] as nat
  {
    hide Decode;
    LowByteFirst(b[11..13]);
    LowByteFirst(b[14..16]);
    LowByteFirst(b[17..19]);
    LowByteFirst(b[19..21]);
    LowByteFirst(b[22..24]);
    LowByteFirst(b[32..36]);
    LowByteFirst(b[36..40]);
  }

  /** The checks of FAT16::mount: anything else is not supported. */
  predicate Supported(b: BootSector) {
    && b.bytesPerSector == 512 && b.sectorsPerCluster != 0 && b.reservedSectors != 0
    && b.fatCount != 0 && b.sectorsPerFat16 != 0 && b.rootEntryCount != 0
  }

  function LayoutOf(b: BootSector): Geometry
    requires Supported(b)
  {
    var totalSectors := if b.totalSectors32 != 0 then b.totalSectors32 else b.totalSectors16;
    var rootDirStart := b.reservedSectors + b.fatCount * b.sectorsPerFat16;
    var rootDirSectors := (b.rootEntryCount * 32 + (b.bytesPerSector - 1)) / b.bytesPerSector;
    var dataStart := rootDirStart + rootDirSectors;
    Geometry(false, b.reservedSectors, b.fatCount, b.sectorsPerFat16, b.rootEntryCount, rootDirStart, rootDirSectors,
             dataStart, b.sectorsPerCluster,
             if totalSectors > dataStart then (totalSectors - dataStart) / b.sectorsPerCluster else 0)
  }

  /** FAT32::mount checks the sector size only; the division needs the other. */
  predicate SupportedWide(b: BootSector) { b.bytesPerSector == 512 && b.sectorsPerCluster != 0 }

  function LayoutOfWide(b: BootSector): Geometry
    requires SupportedWide(b)
  {
    var totalSectors := if b.totalSectors32 != 0 then b.totalSectors32 else b.totalSectors16;
    var dataStart := b.reservedSectors + b.fatCount * b.sectorsPerFat32;
    Geometry(true, b.reservedSectors, b.fatCount, b.sectorsPerFat32, 0, dataStart, 0, dataStart, b.sectorsPerCluster,
             if totalSectors > dataStart then (totalSectors - dataStart) / b.sectorsPerCluster else 0)
  }

  /** What mounting must get out of the boot sector, told by its fields: the root directory
      lies directly behind the table copies and takes no more sectors than it needs, cluster
      2 lies directly behind it, and there are as many clusters as fit whole. */
  ghost predicate PlacedBy(g: Geometry, b: BootSector) {
    && !g.wide && g.fatStart == b.reservedSectors && g.fatCount == b.fatCount
    && g.sectorsPerFat == b.sectorsPerFat16 && g.rootEntryCount == b.rootEntryCount
    && g.rootDirStart == b.reservedSectors + b.fatCount * b.sectorsPerFat16
    && 512 * g.rootDirSectors - 512 < 32 * b.rootEntryCount <= 512 * g.rootDirSectors
    && g.ClusterToSector(2) == g.dataStart == g.rootDirStart + g.rootDirSectors
    && g.ClusterSize() == 512 * b.sectorsPerCluster
    && MarkersTop(g)
    && FillsDisk(g, if b.totalSectors32 != 0 then b.totalSectors32 else b.totalSectors16)
  }

  /** On FAT32 cluster 2 lies directly behind the table copies. */
  ghost predicate PlacedWideBy(g: Geometry, b: BootSector) {
    && g.wide && g.fatStart == b.reservedSectors && g.fatCount == b.fatCount
    && g.sectorsPerFat == b.sectorsPerFat32 && g.Slots() == 0
    && g.ClusterToSector(2) == g.dataStart == b.reservedSectors + b.fatCount * b.sectorsPerFat32
    && g.ClusterSize() == 512 * b.sectorsPerCluster
    && MarkersTop(g)
    && FillsDisk(g, if b.totalSectors32 != 0 then b.totalSectors32 else b.totalSectors16)
  }

  /** The last cluster ends on the disk and one more would not. */
  ghost predicate FillsDisk(g: Geometry, total: nat) {
    if total > g.dataStart
      then g.dataStart + g.totalClusters * g.sectorsPerCluster <= total < g.dataStart + (g.totalClusters + 1) * g.sectorsPerCluster
      else g.totalClusters == 0
  }

  /** The last number of the format ends a chain, the eight last ones are taken for an end,
      and the one before them marks a bad cluster. */
  ghost predicate MarkersTop(g: Geometry) {
    && g.Mark() == (if g.wide then 0x1000_0000 else 0x1_0000) - 1
    && g.Eoc() == g.Mark() - 7 && g.Bad() == g.Eoc() - 1
  }

  lemma LayoutIs(b: BootSector)
    requires Supported(b)
    ensures PlacedBy(LayoutOf(b), b)
  {
    var total := if b.totalSectors32 != 0 then b.totalSectors32 else b.totalSectors16;
    if total > LayoutOf(b).dataStart { WholeClusters(total, LayoutOf(b).dataStart, b.sectorsPerCluster); }
  }

  lemma LayoutWideIs(b: BootSector)
    requires SupportedWide(b)
    ensures PlacedWideBy(LayoutOfWide(b), b)
  {
    var total := if b.totalSectors32 != 0 then b.totalSectors32 else b.totalSectors16;
    if total > LayoutOfWide(b).dataStart { WholeClusters(total, LayoutOfWide(b).dataStart, b.sectorsPerCluster); }
  }

  lemma WholeClusters(total: nat, dataStart: nat, per: nat)
    requires total > dataStart && per > 0
    ensures var n := (total - dataStart) / per; dataStart + n * per <= total < dataStart + (n + 1) * per
  {}

  /** The meaning of the bytes of a disk as values; Represents says the same as a relation. */
  ghost function TableOf(g: Geometry, bytes: seq<byte>): (fat: seq<nat>)
    requires Fits(g, bytes)
    ensures |fat| == g.totalClusters + 2
  {
    seq(g.totalClusters + 2, c requires 0 <= c < g.totalClusters + 2 =>
      EntryPlace(g, bytes, 0, c); EntryAt(g, bytes, g.EntryOffset(0, c)))
  }

  ghost function ClustersOf(g: Geometry, bytes: seq<byte>): (data: seq<seq<byte>>)
    requires Fits(g, bytes)
    ensures |data| == g.totalClusters + 2
  {
    seq(g.totalClusters + 2, c requires 0 <= c < g.totalClusters + 2 =>
      if c < 2 then seq(g.ClusterSize(), _ => 0) else
      ClusterPlace(g, bytes, c); bytes[g.ClusterOffset(c)..g.ClusterOffset(c) + g.ClusterSize()])
  }

  ghost function RootOf(g: Geometry, bytes: seq<byte>): (root: seq<Entry>)
    requires Fits(g, bytes)
    ensures |root| == g.Slots()
  {
    seq(g.Slots(), i requires 0 <= i < g.Slots() =>
      SlotPlace(g, bytes, i); DecodeEntry(bytes[g.SlotOffset(i)..g.SlotOffset(i) + 32]))
  }

  lemma EveryDiskMeansSomething(g: Geometry, bytes: seq<byte>)
    requires Fits(g, bytes)
    ensures Represents(g, bytes, TableOf(g, bytes), ClustersOf(g, bytes), RootOf(g, bytes))
  {
    hide Decode, DecodeEntry;
    forall c | 0 <= c < g.totalClusters + 2 { EntryPlace(g, bytes, 0, c); }
    forall c | 2 <= c < g.totalClusters + 2 { ClusterPlace(g, bytes, c); }
    forall i | 0 <= i < g.Slots() { SlotPlace(g, bytes, i); }
  }

  /** Table copies, root directory and clusters lie one behind the other on the disk. */
  ghost predicate Fits(g: Geometry, bytes: seq<byte>) {
    && g.Sound()
    && 512 * g.ClusterToSector(g.totalClusters + 2) <= |bytes|
  }

  /** The value in the bytes of an entry: 16 bits, or the lower 28 of 32. */
  function EntryValue(wide: bool, b: seq<byte>): nat { if wide then Decode(b) % NIBBLE else Decode(b) }

  /** The four bits of a FAT32 entry that the drivers must not change. */
  function TopBits(b: seq<byte>): nat { Decode(b) / NIBBLE }

  function EntryBytesAt(g: Geometry, bytes: seq<byte>, at: nat): (b: seq<byte>)
    requires at + g.Width() <= |bytes|
    ensures |b| == g.Width()
  {
    bytes[at..at + g.Width()]
  }

  function EntryAt(g: Geometry, bytes: seq<byte>, at: nat): nat
    requires at + g.Width() <= |bytes|
  {
    EntryValue(g.wide, EntryBytesAt(g, bytes, at))
  }

  /** The value of a table entry byte by byte: FAT32 keeps four bits of the last one apart. */
  lemma EntryValueIs(b: seq<byte>)
    ensures |b| == 2 ==> EntryValue(false, b) == b[0] + 0x100 * b[1] as nat
    ensures |b| == 4 ==>
              && EntryValue(true, b) == b[0] + 0x100 * b[1] as nat + 0x1_0000 * b[2] as nat + 0x100_0000 * (b[3] as nat % 16)
              && TopBits(b) == b[3] / 16
  {
    hide Decode;
    LowByteFirst(b);
  }

  /** The bytes writeFAT puts there, given those that were there. */
  function NewEntry(wide: bool, was: seq<byte>, value: nat): (b: seq<byte>)
    ensures |b| == if wide then 4 else 2
  {
    if wide then Encode(4, TopBits(was) * NIBBLE + value % NIBBLE) else Encode(2, value)
  }

  lemma NewEntryIs(wide: bool, was: seq<byte>, value: nat)
    requires |was| == (if wide then 4 else 2) && value < if wide then NIBBLE else 0x1_0000
    ensures EntryValue(wide, NewEntry(wide, was, value)) == value
    ensures wide ==> TopBits(NewEntry(wide, was, value)) == TopBits(was)
  {
    hide Decode, Encode, Pow256;
    Widths();
    EncodeDecode(was);
    DecodeEncode(if wide then 4 else 2, if wide then TopBits(was) * NIBBLE + value % NIBBLE else value);
  }

  ghost predicate TableIs(g: Geometry, bytes: seq<byte>, fat: seq<nat>) {
    (forall c :: 0 <= c < |fat| ==>
          0 <= g.EntryOffset(0, c) <= |bytes| - g.Width() && fat[c] == EntryAt(g, bytes, g.EntryOffset(0, c)))
  }

  ghost predicate ClustersAre(g: Geometry, bytes: seq<byte>, data: seq<seq<byte>>) {
    (forall c :: 2 <= c < |data| ==>
          0 <= g.ClusterOffset(c) <= |bytes| - g.ClusterSize()
          && data[c] == bytes[g.ClusterOffset(c)..g.ClusterOffset(c) + g.ClusterSize()])
  }

  ghost predicate RootIs(g: Geometry, bytes: seq<byte>, root: seq<Entry>) {
    (forall i :: 0 <= i < |root| ==>
          0 <= g.SlotOffset(i) <= |bytes| - 32
          && root[i] == DecodeEntry(bytes[g.SlotOffset(i)..g.SlotOffset(i) + 32]))
  }

  /** The table, cluster contents and root directory that the bytes of a disk stand for. */
  ghost predicate Represents(g: Geometry, bytes: seq<byte>,
                             fat: seq<nat>, data: seq<seq<byte>>, root: seq<Entry>)
  {
    && Fits(g, bytes)
    && g.fatCount > 0
    && |fat| == g.totalClusters + 2 == |data| && |fat| < g.Bad() && |root| == g.Slots()
    && Blocks(data, g.ClusterSize())
    && TableIs(g, bytes, fat) && ClustersAre(g, bytes, data) && RootIs(g, bytes, root)
  }

  // ----- the regions do not overlap -----

  lemma ClusterPlace(g: Geometry, bytes: seq<byte>, c: nat)
    requires Fits(g, bytes) && 2 <= c < g.totalClusters + 2
    ensures g.SlotOffset(g.Slots()) <= g.ClusterOffset(c)
    ensures g.ClusterOffset(c) + g.ClusterSize() <= |bytes|
  {
    SectorPlace(g, c);
  }

  /** A cluster lies before the end of the last one. */
  lemma SectorPlace(g: Geometry, c: nat)
    requires 2 <= c < g.totalClusters + 2
    ensures g.dataStart <= g.ClusterToSector(c)
    ensures g.ClusterToSector(c) + g.sectorsPerCluster <= g.ClusterToSector(g.totalClusters + 2)
  {
    MulMono(c - 2, g.totalClusters, g.sectorsPerCluster);
  }

  lemma ClustersApart(g: Geometry, c: nat, d: nat)
    requires 2 <= c < d
    ensures g.ClusterOffset(c) + g.ClusterSize() <= g.ClusterOffset(d)
  {
    MulMono(c - 2, d - 2, g.sectorsPerCluster);
  }

  lemma SectorSplit(g: Geometry, c: nat)
    ensures 512 * (g.EntryStart(c) / 512) + g.EntryStart(c) % 512 == g.EntryStart(c)
    ensures g.EntryStart(c) % 512 + g.Width() <= 512
  {
    if g.wide { Fours(c); } else { Twos(c); }
  }

  lemma Fours(c: nat)
    ensures 512 * (4 * c / 512) + 4 * c % 512 == 4 * c && 4 * c % 512 + 4 <= 512
  {
    Division(4 * c, c / 128, 4 * (c % 128));
  }

  lemma Twos(c: nat)
    ensures 512 * (2 * c / 512) + 2 * c % 512 == 2 * c && 2 * c % 512 + 2 <= 512
  {
    Division(2 * c, c / 256, 2 * (c % 256));
  }

  lemma Division(x: nat, q: nat, r: nat)
    requires x == 512 * q + r && r < 512
    ensures x / 512 == q && x % 512 == r
  {}

  lemma EntryPlace(g: Geometry, bytes: seq<byte>, copy: nat, c: nat)
    requires Fits(g, bytes) && copy < g.fatCount && c < g.totalClusters + 2
    ensures g.EntryOffset(copy, c) + g.Width() <= g.SlotOffset(0) <= |bytes|
    ensures 512 * g.FatSector(copy, c) + g.EntryStart(c) % 512 == g.EntryOffset(copy, c)
    ensures 512 * g.FatSector(copy, c) + 512 <= |bytes|
    ensures g.EntryStart(c) % 512 + g.Width() <= 512
  {
    var before := copy * g.sectorsPerFat;
    MulMono(copy, g.fatCount, g.sectorsPerFat);
    MulMono(0, g.totalClusters, g.sectorsPerCluster);
    SectorSplit(g, c);
    assert g.EntryStart(c) + g.Width() <= g.EntryStart(g.totalClusters + 2);
    assert g.EntryStart(c) / 512 < g.sectorsPerFat;
  }

  lemma EntriesApart(g: Geometry, bytes: seq<byte>, k: nat, c: nat, l: nat, d: nat)
    requires Fits(g, bytes) && k < g.fatCount && l < g.fatCount
    requires c < g.totalClusters + 2 && d < g.totalClusters + 2 && (k != l || c != d)
    ensures g.EntryOffset(k, c) + g.Width() <= g.EntryOffset(l, d) || g.EntryOffset(l, d) + g.Width() <= g.EntryOffset(k, c)
  {
    if k < l { MulMono(k, l, g.sectorsPerFat); }
    if l < k { MulMono(l, k, g.sectorsPerFat); }
  }

  lemma SlotsPlace(g: Geometry, bytes: seq<byte>)
    requires Fits(g, bytes)
    ensures g.SlotOffset(0) <= g.SlotOffset(g.Slots()) <= |bytes|
  {
    MulMono(0, g.totalClusters, g.sectorsPerCluster);
  }

  lemma SlotPlace(g: Geometry, bytes: seq<byte>, i: nat)
    requires Fits(g, bytes) && i < g.Slots()
    ensures g.SlotOffset(i) + 32 <= g.SlotOffset(g.Slots()) <= |bytes|
    ensures 512 * (g.rootDirStart + i / 16) + 32 * (i % 16) == g.SlotOffset(i)
  {
    MulMono(0, g.totalClusters, g.sectorsPerCluster);
  }

  /** The directory entry found in the sector that close and open load. */
  lemma SlotRead(g: Geometry, bytes: seq<byte>, root: seq<Entry>, i: nat, buffer: seq<byte>)
    requires Fits(g, bytes) && RootIs(g, bytes, root) && i < |root| == g.Slots()
    requires 512 * (g.rootDirStart + i / 16) + 512 <= |bytes|
    requires buffer == bytes[512 * (g.rootDirStart + i / 16)..512 * (g.rootDirStart + i / 16) + 512]
    ensures DecodeEntry(buffer[32 * (i % 16)..32 * (i % 16) + 32]) == root[i] && WellTyped(root[i])
  {
    hide DecodeEntry, WellTyped;
    var lo, offset := 512 * (g.rootDirStart + i / 16), 32 * (i % 16);
    SlotPlace(g, bytes, i);
    SliceOfSlice(bytes, lo, 512, offset, 32);
    EntryBytes(buffer[offset..offset + 32]);
  }

  // ----- what each write does to the meaning of the disk -----

  lemma TableSame(g: Geometry, bytes: seq<byte>, fat: seq<nat>, at: nat, t: seq<byte>)
    requires Fits(g, bytes) && TableIs(g, bytes, fat) && |fat| == g.totalClusters + 2
    requires g.SlotOffset(0) <= at && at + |t| <= |bytes|
    ensures TableIs(g, Splice(bytes, at, t), fat)
  {
    hide EntryValue;
    forall d | 0 <= d < |fat|
      ensures EntryAt(g, Splice(bytes, at, t), g.EntryOffset(0, d)) == EntryAt(g, bytes, g.EntryOffset(0, d))
    {
      EntryPlace(g, bytes, 0, d);
      SpliceSlice(bytes, at, t, g.EntryOffset(0, d), g.EntryOffset(0, d) + g.Width());
    }
  }

  lemma ClustersSame(g: Geometry, bytes: seq<byte>, data: seq<seq<byte>>, at: nat, t: seq<byte>)
    requires Fits(g, bytes) && ClustersAre(g, bytes, data) && |data| == g.totalClusters + 2
    requires at + |t| <= g.SlotOffset(g.Slots()) && at + |t| <= |bytes|
    ensures ClustersAre(g, Splice(bytes, at, t), data)
  {
    forall d | 2 <= d < |data|
      ensures Splice(bytes, at, t)[g.ClusterOffset(d)..g.ClusterOffset(d) + g.ClusterSize()] == data[d]
    {
      ClusterPlace(g, bytes, d);
      SpliceSlice(bytes, at, t, g.ClusterOffset(d), g.ClusterOffset(d) + g.ClusterSize());
    }
  }

  lemma RootSame(g: Geometry, bytes: seq<byte>, root: seq<Entry>, at: nat, t: seq<byte>)
    requires Fits(g, bytes) && RootIs(g, bytes, root) && |root| == g.Slots() && at + |t| <= |bytes|
    requires at + |t| <= g.SlotOffset(0) || g.SlotOffset(g.Slots()) <= at
    ensures RootIs(g, Splice(bytes, at, t), root)
  {
    hide DecodeEntry;
    var bytes' := Splice(bytes, at, t);
    forall i | 0 <= i < |root|
      ensures bytes'[g.SlotOffset(i)..g.SlotOffset(i) + 32] == bytes[g.SlotOffset(i)..g.SlotOffset(i) + 32]
    {
      SlotPlace(g, bytes, i);
      SpliceSlice(bytes, at, t, g.SlotOffset(i), g.SlotOffset(i) + 32);
    }
  }

  /** Overwriting a cluster changes that cluster and nothing else. */
  lemma StoreMeaning(g: Geometry, bytes: seq<byte>, fat: seq<nat>, data: seq<seq<byte>>,
                     root: seq<Entry>, c: nat, block: seq<byte>)
    requires Represents(g, bytes, fat, data, root)
    requires 2 <= c < |data| && |block| == g.ClusterSize()
    ensures g.ClusterOffset(c) + g.ClusterSize() <= |bytes|
    ensures Represents(g, Splice(bytes, g.ClusterOffset(c), block), fat, data[c := block], root)
  {
    ClusterPlace(g, bytes, c);
    SlotsPlace(g, bytes);
    TableSame(g, bytes, fat, g.ClusterOffset(c), block);
    RootSame(g, bytes, root, g.ClusterOffset(c), block);
    ClusterChange(g, bytes, data, c, block);
  }

  lemma ClusterChange(g: Geometry, bytes: seq<byte>, data: seq<seq<byte>>, c: nat, block: seq<byte>)
    requires Fits(g, bytes) && ClustersAre(g, bytes, data) && |data| == g.totalClusters + 2
    requires 2 <= c < |data| && |block| == g.ClusterSize() && g.ClusterOffset(c) + |block| <= |bytes|
    ensures ClustersAre(g, Splice(bytes, g.ClusterOffset(c), block), data[c := block])
  {
    forall d | 2 <= d < |data|
      ensures Splice(bytes, g.ClusterOffset(c), block)[g.ClusterOffset(d)..g.ClusterOffset(d) + g.ClusterSize()]
           == data[c := block][d]
    {
      ClusterPlace(g, bytes, d);
      if d < c { ClustersApart(g, d, c); }
      if c < d { ClustersApart(g, c, d); }
      SpliceSlice(bytes, g.ClusterOffset(c), block, g.ClusterOffset(d), g.ClusterOffset(d) + g.ClusterSize());
    }
  }

  /** Writing an entry into one copy of the table changes the table only if it is
      the first copy, and that entry only. */
  lemma EntryMeaning(g: Geometry, bytes: seq<byte>, fat: seq<nat>, data: seq<seq<byte>>,
                     root: seq<Entry>, copy: nat, c: nat, t: seq<byte>)
    requires Represents(g, bytes, fat, data, root)
    requires copy < g.fatCount && c < |fat| && |t| == g.Width()
    ensures g.EntryOffset(copy, c) + g.Width() <= |bytes|
    ensures Represents(g, Splice(bytes, g.EntryOffset(copy, c), t),
                       if copy == 0 then fat[c := EntryValue(g.wide, t)] else fat, data, root)
  {
    hide EntryValue;
    EntryPlace(g, bytes, copy, c);
    SlotsPlace(g, bytes);
    ClustersSame(g, bytes, data, g.EntryOffset(copy, c), t);
    RootSame(g, bytes, root, g.EntryOffset(copy, c), t);
    var fat' := if copy == 0 then fat[c := EntryValue(g.wide, t)] else fat;
    forall d | 0 <= d < |fat|
      ensures g.EntryOffset(0, d) + g.Width() <= |bytes|
      ensures EntryAt(g, Splice(bytes, g.EntryOffset(copy, c), t), g.EntryOffset(0, d)) == fat'[d]
    {
      CopyFrame(g, bytes, copy, c, t, 0, d);
    }
  }

  /** The other entries keep their bytes, in every copy. */
  lemma CopyFrame(g: Geometry, bytes: seq<byte>, copy: nat, c: nat, t: seq<byte>, l: nat, d: nat)
    requires Fits(g, bytes) && copy < g.fatCount && c < g.totalClusters + 2 && |t| == g.Width()
    requires l < g.fatCount && d < g.totalClusters + 2
    ensures g.EntryOffset(copy, c) + g.Width() <= |bytes| && g.EntryOffset(l, d) + g.Width() <= |bytes|
    ensures EntryBytesAt(g, Splice(bytes, g.EntryOffset(copy, c), t), g.EntryOffset(l, d))
         == if l == copy && d == c then t else EntryBytesAt(g, bytes, g.EntryOffset(l, d))
  {
    EntryPlace(g, bytes, copy, c);
    EntryPlace(g, bytes, l, d);
    if copy != l || c != d { EntriesApart(g, bytes, copy, c, l, d); }
    SpliceSlice(bytes, g.EntryOffset(copy, c), t, g.EntryOffset(l, d), g.EntryOffset(l, d) + g.Width());
  }

  /** Writing a directory slot changes that slot and nothing else. */
  lemma SlotMeaning(g: Geometry, bytes: seq<byte>, fat: seq<nat>, data: seq<seq<byte>>,
                    root: seq<Entry>, i: nat, e: Entry)
    requires Represents(g, bytes, fat, data, root)
    requires i < |root| && WellTyped(e)
    ensures g.SlotOffset(i) + 32 <= |bytes|
    ensures Represents(g, Splice(bytes, g.SlotOffset(i), EncodeEntry(e)), fat, data, root[i := e])
  {
    SlotPlace(g, bytes, i);
    SlotsPlace(g, bytes);
    TableSame(g, bytes, fat, g.SlotOffset(i), EncodeEntry(e));
    ClustersSame(g, bytes, data, g.SlotOffset(i), EncodeEntry(e));
    SlotChange(g, bytes, root, i, e);
  }

  lemma SlotChange(g: Geometry, bytes: seq<byte>, root: seq<Entry>, i: nat, e: Entry)
    requires Fits(g, bytes) && RootIs(g, bytes, root) && |root| == g.Slots()
    requires i < |root| && WellTyped(e) && g.SlotOffset(i) + 32 <= |bytes|
    ensures RootIs(g, Splice(bytes, g.SlotOffset(i), EncodeEntry(e)), root[i := e])
  {
    hide EncodeEntry, DecodeEntry, WellTyped;
    var at, t := g.SlotOffset(i), EncodeEntry(e);
    EntryRoundTrip(e);
    forall j | 0 <= j < |root|
      ensures g.SlotOffset(j) + 32 <= |bytes|
      ensures DecodeEntry(Splice(bytes, at, t)[g.SlotOffset(j)..g.SlotOffset(j) + 32]) == root[i := e][j]
    {
      var lo := g.SlotOffset(j);
      SlotPlace(g, bytes, j);
      assert i != j ==> lo + 32 <= at || at + 32 <= lo;
      SpliceSlice(bytes, at, t, lo, lo + 32);
    }
  }
}
