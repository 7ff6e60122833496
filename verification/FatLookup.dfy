/** Looking a name up in a FAT32 directory on a device, and opening what was found. */
module FatLookup {
  import opened Bytes
  import opened DirEntry
  import opened FatChain
  import opened FatLayout
  import opened FatVolume
  import opened LongNames
  import opened DirectoryScan

  // ----- the 32 bytes of a slot -----

  /** `n` 16-bit units. */
  function UnitsAt(b: seq<byte>, at: nat, n: nat): (u: seq<nat>)
    requires at + 2 * n <= |b|
    ensures |u| == n
  {
    seq(n, i requires 0 <= i < n => Decode(b[at + 2 * i..at + 2 * i + 2]))
  }

  function FragmentOf(b: seq<byte>): Fragment
    requires |b| == 32
  {
    Fragment(b[0] as bv8, b[13], UnitsAt(b, 1, 5), UnitsAt(b, 14, 6), UnitsAt(b, 28, 2))
  }

  /** Where the parts of a long-name entry lie: the order in front, five units behind it, the
      checksum behind attribute, type and two bytes more, then six units and two. */
  lemma FragmentPlaces(b: seq<byte>, i: nat)
    requires |b| == 32
    ensures var f := FragmentOf(b); f.order == b[0] as bv8 && f.checksum == b[13]
    ensures i < 5 ==> FragmentOf(b).name1[i] == b[1 + 2 * i] + 0x100 * b[1 + 2 * i + 1] as nat
    ensures i < 6 ==> FragmentOf(b).name2[i] == b[14 + 2 * i] + 0x100 * b[14 + 2 * i + 1] as nat
    ensures i < 2 ==> FragmentOf(b).name3[i] == b[28 + 2 * i] + 0x100 * b[28 + 2 * i + 1] as nat
  {
    hide UnitsAt;
    if i < 5 { UnitIs(b, 1, 5, i); }
    if i < 6 { UnitIs(b, 14, 6, i); }
    if i < 2 { UnitIs(b, 28, 2, i); }
  }

  lemma UnitIs(b: seq<byte>, at: nat, n: nat, i: nat)
    requires at + 2 * n <= |b| && i < n
    ensures UnitsAt(b, at, n)[i] == b[at + 2 * i] + 0x100 * b[at + 2 * i + 1] as nat
  {
    hide Decode;
    LowByteFirst(b[at + 2 * i..at + 2 * i + 2]);
  }

  function Chars(b: seq<byte>): (s: string)
    ensures |s| == |b|
  {
    seq(|b|, i requires 0 <= i < |b| => b[i] as char)
  }

  /** How findEntry tells slots apart: by the first name byte and the attributes. */
  function SlotOf(b: seq<byte>): (s: Slot)
    requires |b| == 32
    ensures ValidSlot(s)
  {
    if b[0] == 0x00 then EndMark
    else if b[0] == 0xE5 then Deleted
    else if b[11] % 16 == LONG_NAME then LongPart(FragmentOf(b), b[11] == LONG_NAME && b[12] == 0)
    else if b[11] / VOLUME_ID % 2 == 1 then Volume
    else Short(Chars(b[..11]), b[12] as bv8)
  }

  /** The kinds of slots one by one, on the bytes. */
  lemma SlotKinds(b: seq<byte>)
    requires |b| == 32
    ensures SlotOf(b) == EndMark <==> b[0] == 0
    ensures SlotOf(b) == Deleted <==> b[0] == 0xE5
    ensures SlotOf(b).LongPart? <==> b[0] !in {0, 0xE5} && b[11] % 16 == 15
    ensures SlotOf(b).LongPart? ==> (SlotOf(b).proper <==> b[11] == 15 && b[12] == 0)
    ensures SlotOf(b) == LongNames.Volume <==> b[0] !in {0, 0xE5} && b[11] % 16 != 15 && b[11] % 16 >= 8
    ensures Vacancy(b[0]) <==> SlotOf(b) in {EndMark, Deleted}
  {
    hide FragmentOf, Chars;
  }

  function SlotsOf(bytes: seq<byte>): (s: seq<Slot>)
    ensures |s| == |bytes| / 32 && ValidSlots(s)
  {
    seq(|bytes| / 32, i requires 0 <= i < |bytes| / 32 => SlotOf(bytes[32 * i..32 * i + 32]))
  }

  /** A named entry that is neither deleted nor a volume label is a short slot of that name. */
  lemma EntrySlot(e: Entry)
    requires WellTyped(e)
    ensures SlotOf(EncodeEntry(e)) == Short(Chars(e.name), e.reserved as bv8) <==>
      !Vacancy(e.name[0]) && e.attributes / VOLUME_ID % 2 == 0
  {
    hide Encode, Decode;
    EntryFront(e);
  }

  lemma EntryFront(e: Entry)
    requires WellTyped(e)
    ensures var b := EncodeEntry(e);
      b[..11] == e.name && b[0] == e.name[0] && b[11] == e.attributes && b[12] == e.reserved
  {
    hide Encode, Decode;
    EntryRoundTrip(e);
    var b := EncodeEntry(e);
    assert DecodeEntry(b).name == e.name && DecodeEntry(b).attributes == e.attributes && DecodeEntry(b).reserved == e.reserved;
    assert b[0] == b[..11][0];
  }

  // ----- a directory -----

  /** The slots of a directory, cluster by cluster. */
  function DirSlots(data: seq<seq<byte>>, chain: seq<nat>): (clusters: seq<seq<Slot>>)
    requires Within(chain, |data|)
    ensures |clusters| == |chain|
    ensures forall k :: 0 <= k < |chain| ==> clusters[k] == SlotsOf(data[chain[k]])
  {
    seq(|chain|, k requires 0 <= k < |chain| => SlotsOf(data[chain[k]]))
  }

  lemma {:induction false} SlotsBefore(data: seq<seq<byte>>, size: nat, chain: seq<nat>, c: nat)
    requires Within(chain, |data|) && Blocks(data, size) && c <= |chain|
    ensures |AllSlots(DirSlots(data, chain)[..c])| == Span(c, size / 32)
  {
    hide SlotOf;
    var clusters := DirSlots(data, chain);
    if c > 0 {
      SlotsBefore(data, size, chain, c - 1);
      assert clusters[..c][..c - 1] == clusters[..c - 1];
      assert |clusters[c - 1]| == |data[chain[c - 1]]| / 32 == size / 32;
      OneSpan(c - 1, size / 32);
    }
  }

  lemma OneSpan(k: nat, n: nat)
    ensures Span(k + 1, n) == Span(k, n) + n && Span(0, n) == 0
  {}

  /** Slot i of cluster c is the entry at its place in the directory. */
  lemma PlaceEntry(data: seq<seq<byte>>, size: nat, chain: seq<nat>, c: nat, i: nat)
    requires Within(chain, |data|) && Blocks(data, size) && size >= 32 && size % 32 == 0
    requires c < |chain| && i < size / 32
    ensures var at := 32 * Place(DirSlots(data, chain), c, i);
      && at + 32 <= |Content(data, chain)|
      && Content(data, chain)[at..at + 32] == data[chain[c]][32 * i..32 * i + 32]
  {
    hide SlotOf, Span, Content;
    SlotsBefore(data, size, chain, c);
    SpanSteps(c, size);
    ChunkIn(data, size, chain, c, 32 * i, Span(c, size) + 32 * i, 32);
  }

  /** Slot i of cluster c of directory d is entry e, the one at that place. */
  ghost predicate AtPlace(v: FatVolume.Volume, d: nat, c: nat, i: nat, e: Entry)
    reads v
  {
    && d < |v.chains| && Within(v.chains[d], |v.data|) && c < |v.chains[d]|
    && var place := Place(DirSlots(v.data, v.chains[d]), c, i);
       32 * place + 32 <= |v.Bytes(d)| && e == v.EntryIn(d, place)
  }

  /** The turn for one cluster, the c-th of directory d. */
  method FindInCluster(v: FatVolume.Volume, scanner: Scanner, cluster: nat, element: string, ghost d: nat, ghost c: nat,
                       ghost before: seq<Slot>, from: nat)
    returns (found: bool, index: nat, e: Entry, ghost i: nat)
    requires v.Mounted() && d < |v.chains| && Within(v.chains[d], |v.data|)
    requires v.clusterSize >= 32 && v.clusterSize % 32 == 0
    requires c < |v.chains[d]| && cluster == v.chains[d][c] && 2 <= cluster
    requires scanner.Ready() && from == |before| && scanner.Value() == AfterAll(NOTHING, before) && NoHit(before, element)
    modifies v.clusterBuffer, scanner, scanner.pending
    ensures WellTyped(e) && scanner.Ready()
    ensures var slots := before + Visited(DirSlots(v.data, v.chains[d])[c]);
      if found then FirstHit(slots, index, element) && index == from + i
      else NoHit(slots, element) && index == |slots| && scanner.Value() == AfterAll(NOTHING, slots)
    ensures found ==>
      var clusters := DirSlots(v.data, v.chains[d]);
      i < |clusters[c]| && clusters[c][i] == (before + Visited(clusters[c]))[index]
    ensures found ==> AtPlace(v, d, c, i, e)
  {
    hide TableIs, ClustersAre, RootIs, Fits, Content, Span, DecodeEntry, WellTyped, SlotOf, Hit, Visited, NoHit;
    v.LoadCluster(cluster);
    e := FatVolume.Volume.NoEntry();
    var s, at;
    found, index, s, at := scanner.FindInCluster(SlotsOf(v.clusterBuffer[..]), element, before, from);
    i := at;
    if found {
      PlaceEntry(v.data, v.clusterSize, v.chains[d], c, at);
      EntryBytes(v.clusterBuffer[..][32 * at..32 * at + 32]);
      e := DecodeEntry(v.clusterBuffer[..][32 * at..32 * at + 32]);
    }
  }

  lemma Clusters(v: FatVolume.Volume, d: nat)
    requires v.Mounted() && v.g.wide && v.Consistent() && d < |v.chains|
    ensures forall k :: 0 <= k < |v.chains[d]| ==> 2 <= v.chains[d][k] < v.g.Bad()
    ensures v.chains[d] == [] ==> Start(v.chains[d]) < 2
    ensures v.clusterSize >= 32 && v.clusterSize % 32 == 0
  {
    hide TableIs, ClustersAre, RootIs, Fits, WellFormed;
    v.EntryFacts(d, 0);
    FatVolume.Volume.SizeFacts(v.g);
    ChainNumbers(v.fat, v.g.Eoc(), v.chains[d], v.g.Bad());
  }

  /** What the table says behind cluster c of a chain: the next cluster, or an end marker. */
  method NextCluster(v: FatVolume.Volume, cluster: nat, ghost d: nat, ghost c: nat) returns (next: nat)
    requires v.Mounted() && v.Consistent() && d < |v.chains| && c < |v.chains[d]| && cluster == v.chains[d][c]
    ensures if c + 1 < |v.chains[d]| then next == v.chains[d][c + 1] < v.g.Eoc() else next >= v.g.Eoc()
  {
    hide TableIs, ClustersAre, RootIs, Fits, WellFormed;
    v.ChainEnds(d);
    next := v.ReadFat(cluster);
  }

  /** The scan loop of findEntry over one directory. It finds the first visited slot that
      matches: slot i of cluster c, whose entry is the one at that place of the directory.
      The number given is that place if and only if no cluster before holds an end mark. */
  method FindElement(v: FatVolume.Volume, dirStart: nat, element: string, ghost d: nat)
    returns (found: bool, index: nat, e: Entry, ghost c: nat, ghost i: nat)
    requires v.Mounted() && v.g.wide && v.Consistent() && d < |v.chains| && dirStart == Start(v.chains[d])
    modifies v.clusterBuffer
    ensures Within(v.chains[d], |v.data|) && WellTyped(e)
    ensures !found ==> NoHit(AllVisited(DirSlots(v.data, v.chains[d])), element)
    ensures found ==> FoundIn(DirSlots(v.data, v.chains[d]), element, index, c, i)
    ensures found ==>
      (index == Place(DirSlots(v.data, v.chains[d]), c, i)
       <==> forall k :: 0 <= k < c ==> EndMark !in DirSlots(v.data, v.chains[d])[k])
    ensures found ==> AtPlace(v, d, c, i, e)
  {
    hide TableIs, ClustersAre, RootIs, Fits, WellFormed, Content, Span, DecodeEntry, WellTyped, SlotOf, IsChain, Hit, Visited;
    hide FoundIn, NoHit, FirstHit, AfterAll, AllSlots, Distinct, AtPlace, SlotsOf;
    hide Scanner.Ready, Scanner.Value, FatVolume.Volume.Mounted, FatVolume.Volume.Consistent, DirSlots;
    v.EntryFacts(d, 0);
    Clusters(v, d);
    ghost var chain := v.chains[d];
    ghost var clusters := DirSlots(v.data, chain);
    ghost var slots: seq<Slot> := [];
    found, index, e, c, i := false, 0, FatVolume.Volume.NoEntry(), 0, 0;
    var scanner := new Scanner();
    NothingYet(clusters, element);
    var cluster := dirStart;
    while cluster >= 2 && cluster < v.g.Bad()
      invariant 0 <= c <= |chain| && !found && index == |slots| && WellTyped(e)
      invariant if c < |chain| then cluster == chain[c] else cluster < 2
      invariant fresh(scanner) && fresh(scanner.pending) && scanner.Ready() && scanner.Value() == AfterAll(NOTHING, slots)
      invariant slots == AllVisited(clusters[..c]) && NoHit(slots, element)
      decreases |chain| - c
    {
      found, index, e, i := FindInCluster(v, scanner, cluster, element, d, c, slots, index);
      if found {
        FoundHere(clusters, c, i, index, element);
        NumberIsPlace(clusters, element, index, c, i);
        return;
      }
      VisitedMore(clusters, c);
      slots := slots + Visited(clusters[c]);
      c := c + 1;
      cluster := NextCluster(v, cluster, d, c - 1);
      if cluster >= v.g.Eoc() { break; }
    }
    assert clusters[..c] == clusters;
  }

  lemma NothingYet(clusters: seq<seq<Slot>>, element: string)
    ensures AllVisited(clusters[..0]) == [] && NoHit([], element) && AfterAll(NOTHING, []) == NOTHING
  {}

  /** The entry of an ordinary file. */
  predicate IsFile(e: Entry)
    requires WellTyped(e)
  {
    SlotOf(EncodeEntry(e)).Short? && e.attributes / DIRECTORY % 2 == 0
  }

  /** Every entry of directory d for an ordinary file describes one: files[i] is its chain. */
  ghost predicate Listed(v: FatVolume.Volume, d: nat, files: map<nat, nat>)
    reads v
  {
    && d < |v.chains| && Within(v.chains[d], |v.data|)
    && forall i: nat :: 32 * i + 32 <= |v.Bytes(d)| && WellTyped(v.EntryIn(d, i)) && IsFile(v.EntryIn(d, i)) ==>
         i in files && v.Described(d, i, files[i])
  }

  /** What is found is a short slot. */
  lemma FoundFile(v: FatVolume.Volume, d: nat, element: string, index: nat, c: nat, i: nat, e: Entry)
    requires v.Mounted() && v.g.wide && v.Consistent() && AtPlace(v, d, c, i, e) && WellTyped(e)
    requires FoundIn(DirSlots(v.data, v.chains[d]), element, index, c, i)
    ensures IsFile(e) <==> e.attributes / DIRECTORY % 2 == 0
  {
    hide TableIs, ClustersAre, RootIs, Fits, WellFormed, Content, Span, DecodeEntry, SlotOf, EncodeEntry;
    hide FirstHit, Visited, AllVisited, WellTyped;
    Clusters(v, d);
    PlaceEntry(v.data, v.clusterSize, v.chains[d], c, i);
    EntryBytes(v.data[v.chains[d][c]][32 * i..32 * i + 32]);
    FoundShort(DirSlots(v.data, v.chains[d]), element, index, c, i);
  }

  lemma FoundShort(clusters: seq<seq<Slot>>, element: string, index: nat, c: nat, i: nat)
    requires forall k :: 0 <= k < |clusters| ==> ValidSlots(clusters[k])
    requires FoundIn(clusters, element, index, c, i)
    ensures clusters[c][i].Short?
  {
    hide Visited, AllVisited;
    NumberIsPlace(clusters, element, index, c, i);
  }

  /** A handle of the file that entry `place` described, or of the same file made empty. */
  twostate predicate Opens(v: FatVolume.Volume, d: nat, place: nat, f: nat, mode: OpenMode, new h: FileHandle)
    reads v, v.device, h
  {
    && old(v.Described(d, place, f)) && v.Handles(h) && h.file == f
    && v.FileBytes(h) == if mode.truncate && mode.write then [] else old(v.DescribedBytes(d, place, f))
  }

  /** FAT32::open of a name in directory d, without the mode flag to create it. The handle
      reads the file of the first slot that matches. It knows the entry of that file, so that
      closing it writes there, if and only if no cluster before holds an end mark. */
  method OpenByName(v: FatVolume.Volume, dirStart: nat, element: string, mode: OpenMode, ghost d: nat, ghost files: map<nat, nat>)
    returns (h: FileHandle?, found: bool, index: nat, ghost c: nat, ghost i: nat, ghost place: nat)
    requires v.Mounted() && v.g.wide && v.Consistent()
    requires Listed(v, d, files) && dirStart == Start(v.chains[d])
    modifies v`fat, v`chains, v.clusterBuffer, v.device
    ensures v.Mounted() && v.Consistent() && v.data == old(v.data)
    ensures !found ==> h == null && NoHit(AllVisited(old(DirSlots(v.data, v.chains[d]))), element)
    ensures found ==> FoundIn(old(DirSlots(v.data, v.chains[d])), element, index, c, i)
    ensures found ==> place == Place(old(DirSlots(v.data, v.chains[d])), c, i)
    ensures found ==> (index == place <==> forall k :: 0 <= k < c ==> EndMark !in old(DirSlots(v.data, v.chains[d]))[k])
    ensures found ==> 32 * place + 32 <= |old(v.Bytes(d))|
    ensures found ==> (h == null <==> old(v.EntryIn(d, place)).attributes / DIRECTORY % 2 == 1)
    ensures h != null ==> found && place in files && fresh(h) && Opens(v, d, place, files[place], mode, h)
    ensures h != null ==> h.dirEntryIndex == index && (h.dirEntryIndex == place ==> v.Recorded(h, d))
  {
    hide TableIs, ClustersAre, RootIs, Fits, WellFormed, Content, Span, DecodeEntry, WellTyped, SlotOf;
    hide Visited, Hit, AllVisited, AllSlots, Place, DirSlots, IsFile, EncodeEntry;
    h := null;
    var e;
    found, index, e, c, i := FindElement(v, dirStart, element, d);
    place := 0;
    if found {
      place := Place(DirSlots(v.data, v.chains[d]), c, i);
      FoundFile(v, d, element, index, c, i, e);
      NumberIsPlace(DirSlots(v.data, v.chains[d]), element, index, c, i);
      h := v.OpenEntry(e, dirStart, index, mode, d, place, if place in files then files[place] else 0);
    }
  }
}
