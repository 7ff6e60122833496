# Verified model of the kernel's storage, memory, event and text components

The project models seven components of an operating system kernel and proves what each
promises over all inputs and all runs. Code that changes memory step by step is a class whose
methods are proved against functions on values; the laws are lemmas about those functions.

| files | component |
|---|---|
| `Bytes`, `DirEntry`, `FatChain`, `FatLayout`, `FatWords`, `FatVolume` | the FAT16 and FAT32 drivers from sectors up to open files |
| `CStrings`, `Names`, `LongNames`, `DirectoryScan`, `FatLookup` | short and long directory names, and looking a name up on the device |
| `HeapBlocks`, `Heap` | the kernel heap, on the bytes of its arena |
| `Machine`, `Pmm`, `PageTable`, `Vmm` | the physical page bitmap and the four-level page tables |
| `Events`, `EventQueue`, `EventRuns`, `EventManager` | the event queues, their processing and delivery |
| `Envelopes`, `MsgBus`, `BusEvents` | the message bus and its reference-counted envelopes |
| `Json`, `JsonOverlay`, `JsonText`, `JsonParser`, `JsonRoundTrip`, `JsonAccepts`, `JsonSerialise` | JSON layering, templates and the parser |
| `PathNorm` | path normalisation of the command shell |

## How the parts fit together

*Files.* `FatLayout.Represents` ties the bytes of a device to a table, clusters and a root
directory. `FatChain.WellFormed` says that chains are in range, disjoint and ended and that
every used cluster is owned. `FatVolume.Volume` keeps both through every operation; a file is
the bytes on its chain up to its size. FAT16 and FAT32 have the same loops in the source, so
they are one class here, and `g.wide` marks where the two differ: the width of an entry,
the copies written, and directories that are chains themselves. A link can lead behind the table:
`FatWords` reads the whole device from the table on as words, so that freeing a chain is described,
and proved to end, on any contents.

*Heap.* Headers are read from and written to the arena byte by byte. `Arena.Valid` says that the
headers describe a list of blocks that covers the arena, without free neighbours, and that the
used size counted is one header more than the blocks in use occupy.

*Virtual memory.* `PageTable.Tree` says that the table pages form a tree; lookups in it are
compared by 48-bit page number. `Missing` counts the tables that the walk for an address lacks,
and `TablesNeeded` those that a range of pages needs, however it wraps around: they say exactly
when `map`, `mapRange` and `allocate` run out of early pages.

*Events.* `EventRuns` describes one call of `processEvents` as a function of both queues and of
what handlers post meanwhile; the manager refines it. `Manager.Valid` holds the account: posts
equal deliveries, waiting events, drops and cleared events.

*Message bus.* `Envelopes` is a step system over make, edit, retain, release, publish, delivery
and loss; runs are sequences of enabled steps. The methods of `MsgBus.Bus` are proved to be steps
or runs of it, and `BusEvents` proves a whole call of `processEvents` to be one, together with what
the call does to the queues: a message that a listener handles before the bus is a lost reference.
There the run is computed: `TraceOf` gives every step, every post and the state after each dispatch.

*JSON.* The parser class refines functions of the text still to be read. `JsonRoundTrip.Doc` has
every choice a serialiser of RFC 8259, sections 2 to 7, may make, white space and escapes
included, and the two liberties the parser takes besides: raw control characters in strings, and a
backslash before any character. `JsonAccepts.ParseExact` proves that it takes no others.

## Where the code departs from its intent

- `FAT32::findFreeDirectoryEntry` returns an entry in use when it grows a directory
  (`FatVolume.Volume.FindFreeDirectoryEntry` says exactly when).
- `FAT32::writeFAT` updates the first copy of the table only (`FatVolume.Volume.WriteFat`).
- A scan in `findEntry` that meets an end mark goes on in the next cluster. The number it gives is
  the place of the entry if and only if no cluster before holds an end mark
  (`FatLookup.FindElement`, `DirectoryScan.VisitedInPlace`, `DirectoryScan.NumbersShift`); only then
  does a file opened by name know its own entry (`FatLookup.OpenByName`).
- `freeClusterChain` follows a link beyond the last cluster and zeroes the words it finds there. It
  still ends (`FatVolume.Volume.FreeClusterChain`); it leaves what lies behind the tables alone if and
  only if the words that links lead to there are zero (`FatWords.FreeRunHarm`, `FatWords.StrayLink`).
- `FAT32::open` frees the chain of a file it truncates without rewriting its entry, which names a freed
  cluster until the file is closed, unless the file was empty (`FatVolume.Volume.OpenWide`).
- A file of 2^32 bytes or more is recorded with a truncated size (`FatVolume.Volume.Close`,
  `FatVolume.Volume.CloseWide`).
- `VMM::allocate` ignores the status of `map`: exactly when fewer early pages are left than the
  range needs tables, an unmapped page is handed out or the rollback frees page 0
  (`Vmm.VirtualMemory.Allocate`). `translate` leaks the no-execute bit
  (`PageTable.TargetOfEntry`), so that the frames of no-execute pages are never given back
  (`Vmm.VirtualMemory.AllocateThenFree`).
- `PMM::markRegion` and `PMM::freePage` count pages that were free already
  (`Pmm.PageAllocator.MarkRegion`, `Pmm.PageAllocator.FreePage`); `Pmm.PageAllocator.Initialize` says
  for which memory maps the count comes out wrong.
- `Heap::allocate` rounds sizes above 2^64-16 to 0 (`Heap.Align16Covers`), and `freeSize`
  underflows in a full heap (`HeapBlocks.FreeSizeWraps`).
- `clearType` and `clearCategory` break the ring when all 256 events survive
  (`EventQueue.Queue.ClearType`), and `pendingEventCount` counts all immediate events as one
  (`EventManager.Manager.PendingEventCount`). `removeListener` takes listener ids from 2^31 on for
  receivers (`EventManager.Manager.AddThenRemove`).
- A bus event that is cleared, or handled by a listener before it gets to the bus, keeps its
  reference for good (`MsgBus.Bus.ClearEvents`, `BusEvents.ProcessEvents`, `Envelopes.RefCountExact`;
  `EventManager.CalledIff` says when it gets there).
- The errors for a missing key or colon are never reported (`JsonSerialise.NeverReported`), and
  escapes above 0x7F become question marks (`JsonParser.Parser.ReadUnicodeEscape`).
- A size within 4095 bytes of 2^64 takes no pages at all (`PageTable.PageCountIs`).
- The path normaliser forgets a name beyond 32 segments, so that going up again leaves the parent
  (`PathNorm.CapForgets`). An absolute argument is cut off without notice if and only if it has
  256 characters or more (`PathNorm.AbsoluteWhole`, `PathNorm.NormalKept`, `PathNorm.LongNameCut`).

## Model

| member | source | states |
|---|---|---|
| Bytes.DecodeEncode | QFileSystem/src/QFSFAT16.cpp:300-311 | A number read back from the little-endian bytes it was stored as is the same number |
| Bytes.EncodeDecode | QFileSystem/src/QFSFAT16.cpp:300-311 | Every byte sequence is the encoding of the number it decodes to |
| Bytes.LowByteFirst | QFileSystem/src/QFSFAT16.cpp:300-311 | Numbers of two and four bytes have the low byte first |
| DirEntry.EntryRoundTrip | QFileSystem/src/QFSFAT32.cpp:487-495 | A directory entry written to its 32 bytes is read back field by field |
| DirEntry.EntryBytes | QFileSystem/src/QFSFAT32.cpp:1112-1113 | Any 32 bytes are an entry, and writing that entry back changes none of them |
| DirEntry.FieldPlaces | QFileSystem/include/QFSFAT32.h:47-61 | Which of the 32 bytes each field of an entry lies in |
| DirEntry.StartRoundTrip | QFileSystem/src/QFSFAT32.cpp:325-328 | Splitting a start cluster into clusterHigh and clusterLow and recombining it gives the cluster, modulo 2^32 |
| FatLayout.EveryDiskMeansSomething | QFileSystem/src/QFSFAT16.cpp:206-255 | The bytes of any disk of the right layout stand for one table, one set of clusters and one root directory |
| FatLayout.BootPlaces | QFileSystem/include/QFSFAT32.h:14-34 | Which bytes of the first sector each field that mounting looks at lies in |
| FatLayout.LayoutIs | QFileSystem/src/QFSFAT16.cpp:230-248 | FAT16 layout on boot fields alone: the root directory lies directly behind the table copies in as few sectors as it needs, cluster 2 directly behind it, and as many clusters as fit whole in the 32-bit sector count, or the 16-bit one if that is 0 |
| FatLayout.LayoutWideIs | QFileSystem/src/QFSFAT32.cpp:223-233 | FAT32 layout likewise: cluster 2 directly behind the table copies, and as many clusters as fit whole |
| FatLayout.NewEntryIs | QFileSystem/src/QFSFAT32.cpp:307-308 | The bytes writeFAT stores have the new value in the lower 28 bits and the old top four bits |
| FatLayout.EntryValueIs | QFileSystem/src/QFSFAT32.cpp:286-296 | A table entry byte by byte: two bytes, or four without the upper half of the last |
| FatWords.WordRead | QFileSystem/src/QFSFAT32.cpp:286-296 | The word found in the sector that readFAT loads is that word of the device, whether in the table or behind it |
| FatWords.PutWords | QFileSystem/src/QFSFAT32.cpp:298-311 | What writeFAT does to the words of the device, for any number |
| FatWords.PutRepresents | QFileSystem/src/QFSFAT16.cpp:313-330 | For an entry of the table of a mounted volume it sets that entry and nothing else |
| FatLayout.EntryMeaning | QFileSystem/src/QFSFAT32.cpp:298-311 | Storing the bytes of an entry changes that entry of the table and no cluster, directory slot or other entry |
| FatLayout.CopyFrame | QFileSystem/src/QFSFAT16.cpp:319-329 | Storing an entry in one copy of the table leaves the bytes of all other entries in all copies |
| FatLayout.StoreMeaning | QFileSystem/src/QFSFAT16.cpp:290-298 | Storing a cluster changes that cluster and no other cluster, table entry or slot |
| FatLayout.SlotMeaning | QFileSystem/src/QFSFAT16.cpp:1417-1444 | Storing a root directory slot changes that slot and nothing else |
| FatChain.ChainAcyclic | QFileSystem/src/QFSFAT16.cpp:363-376 | A chain that follows table links to an end marker never visits a cluster twice |
| FatChain.ChainUnique | QFileSystem/src/QFSFAT16.cpp:363-376 | The start cluster determines the chain |
| FatChain.ClusterConservation | QFileSystem/src/QFSFAT32.cpp:1247-1277 | On a well-formed volume free clusters, chained clusters and reserved ones add up to all clusters |
| FatChain.GrowKeeps | QFileSystem/src/QFSFAT16.cpp:996-1026 | Linking a free cluster behind a chain keeps every chain acyclic, in range, disjoint from the others and ended, and every used cluster owned |
| FatChain.ShrinkKeeps | QFileSystem/src/QFSFAT16.cpp:350-361 | Zeroing the entries of one chain keeps the volume well formed without that chain |
| FatChain.WalkIsChain | QFileSystem/src/QFSFAT32.cpp:1268-1277 | From the start of a chain, freeing visits exactly the chain |
| FatChain.LinksStayInside | QFileSystem/src/QFSFAT32.cpp:1268-1277 | On any table whose links stay inside it, cyclic or not, the freeing walk is defined and so ends |
| FatChain.AnyLinksEnd | QFileSystem/src/QFSFAT32.cpp:1268-1277 | With an entry for every number below the bad marker the walk never leaves them and ends, whatever the entries say |
| FatWords.FreeRunOne | QFileSystem/src/QFSFAT32.cpp:1268-1277 | FAT32: freeing zeroes exactly the words of the walk |
| FatWords.FreeRunHarm | QFileSystem/src/QFSFAT16.cpp:350-361 | FAT16 and FAT32: no word from a given place on changes if and only if every word met has only zero copies there |
| FatWords.HarmlessOne | QFileSystem/src/QFSFAT32.cpp:1268-1277 | FAT32: that is, if and only if the first link that leads there leads to a zero word, or none does |
| FatWords.StrayLink | QFileSystem/src/QFSFAT32.cpp:1268-1277 | A table of three entries with a link behind it, and the word that freeing destroys |
| FatChain.WrittenNext | QFileSystem/src/QFSFAT16.cpp:1028-1052 | Storing the next piece in one cluster of a chain continues the replacement of bytes of the file by one more piece |
| FatVolume.Volume.constructor | QFileSystem/src/QFSFAT16.cpp:206-262 | A FAT16 disk whose chains are well formed becomes a volume that means what the bytes mean, laid out as the boot fields say |
| FatVolume.Volume.Wide | QFileSystem/src/QFSFAT32.cpp:201-248 | A FAT32 disk likewise |
| FatVolume.Volume.Mount | QFileSystem/src/QFSFAT16.cpp:206-262 | Mounting from the first sector of the disk is refused exactly if it cannot be read, its sector size is not 512 or one of five fields is 0; otherwise it gives such a volume |
| FatVolume.Volume.MountWide | QFileSystem/src/QFSFAT32.cpp:201-248 | FAT32 mounting is refused exactly if the sector cannot be read or its size is not 512 |
| FatVolume.Volume.ReadWord | QFileSystem/src/QFSFAT32.cpp:286-296 | Reads any word, of 16 bits or the lower 28 of 32; FAT16 takes what it cannot read for 0 |
| FatVolume.Volume.ReadFat | QFileSystem/src/QFSFAT32.cpp:286-296 | Of a mounted volume, that is the entry of the table |
| FatVolume.Volume.WriteWord | QFileSystem/src/QFSFAT16.cpp:313-330 | Stores any word in all copies on FAT16 and in the first on FAT32, as far as the device reaches |
| FatVolume.Volume.WriteFat | QFileSystem/src/QFSFAT32.cpp:298-311 | Sets one entry, on FAT16 in all copies and on FAT32 in the first; no other entry of any copy changes and FAT32 keeps the top four bits |
| FatVolume.Volume.AllocateCluster | QFileSystem/src/QFSFAT32.cpp:1247-1266 | Takes the lowest free cluster, marks it as an end and zeroes it; 0 exactly when none is free |
| FatVolume.Volume.FreeClusterChain | QFileSystem/src/QFSFAT32.cpp:1268-1277 | Ends on any contents of any device, wherever links lead, with the words that the walk leaves; inside the table of a mounted volume it zeroes exactly the entries of the walk |
| FatVolume.Volume.TraverseToCluster | QFileSystem/src/QFSFAT32.cpp:313-323 | Gives the cluster `index` links behind the start; past the end FAT16 gives the last cluster and FAT32 the end marker |
| FatVolume.Volume.Read | QFileSystem/src/QFSFAT16.cpp:923-973 | Gives exactly the bytes of the file at the position, cut off at its size |
| FatVolume.Volume.AppendCluster | QFileSystem/src/QFSFAT16.cpp:996-1020 | Grows one chain by a free cluster; the bytes of the file stay a prefix and no other chain or byte changes; fails only if no cluster is free |
| FatVolume.Volume.GetOrAllocateClusterAt | QFileSystem/src/QFSFAT32.cpp:572-600 | Gives the cluster of the wanted index, growing the chain by at most one cluster |
| FatVolume.Volume.WriteChunk | QFileSystem/src/QFSFAT32.cpp:602-626 | One turn of the write loop continues the replacement, and stops only when no cluster is free |
| FatVolume.Volume.Write | QFileSystem/src/QFSFAT32.cpp:553-638 | The file becomes the old one with a prefix of the data at the position; all other files keep their chains and bytes; the prefix is shorter than the data only when no cluster is free; a write beyond the end is refused |
| FatVolume.Volume.WriteAll | QFileSystem/src/QFSFAT32.cpp:553-638 | Any number of writes through one handle: the file is rewritten by each in turn as far as it got, if any write stopped early the volume has no free cluster afterwards, and no other file changes |
| FatVolume.Volume.UpdateRootDirectoryEntry | QFileSystem/src/QFSFAT16.cpp:1417-1444 | Replaces one slot; refused exactly beyond the directory |
| FatVolume.Volume.Close | QFileSystem/src/QFSFAT16.cpp:883-921 | The directory describes the file as the handle had it if and only if its size is below 2^32; other slots stay |
| FatVolume.Volume.Open | QFileSystem/src/QFSFAT16.cpp:695-881 | The handle of an existing entry has its file, or an empty one when truncating: then the chain is freed, the entry has neither start nor size and the handle is dirty; nothing else changes |
| FatVolume.Volume.ReadDirectoryEntry | QFileSystem/src/QFSFAT32.cpp:480-491 | Finds an entry of a directory that is itself a chain, exactly if the directory is that long |
| FatVolume.Volume.UpdateDirectoryEntry | QFileSystem/src/QFSFAT32.cpp:1097-1114 | Replaces the 32 bytes of one entry of a directory; no other byte of the directory and no other chain changes |
| FatVolume.Volume.FindFreeDirectoryEntry | QFileSystem/src/QFSFAT32.cpp:1116-1162 | Gives the first usable entry if there is one; a full directory is grown by a cluster, but the number returned is that of an entry in use |
| FatVolume.Volume.CloseWide | QFileSystem/src/QFSFAT32.cpp:474-504 | Afterwards the directory entry describes the file as the handle had it if and only if its size is below 2^32 |
| FatVolume.Volume.OpenWide | QFileSystem/src/QFSFAT32.cpp:436-472 | The handle of a found entry has the file it describes, or an empty one when truncating; then, until the close, the entry describes the file if and only if it had no cluster |
| FatVolume.Volume.CloseThenOpen | QFileSystem/src/QFSFAT32.cpp:435-504 | A file closed and opened again has the same start cluster, and the same bytes if and only if its size is below 2^32 |
| FatVolume.Volume.WriteThenReopenWide | QFileSystem/src/QFSFAT32.cpp:435-638 | After any sequence of writes through one handle, FAT32 close and open give exactly the rewritten file if and only if its size is below 2^32; a write stops early only on a full volume |
| FatVolume.Volume.WriteThenReopen | QFileSystem/src/QFSFAT16.cpp:695-1064 | The same for FAT16 |
| FatVolume.Volume.OpenEntry | QFileSystem/src/QFSFAT32.cpp:436-472 | The handle of an entry found under some number has the file the entry describes; it knows its own entry when the number is the place of the entry |
| FatVolume.File.Read | QFileSystem/src/QFSFile.cpp:23-36 | Reads a piece of the file at the position and moves behind it; -1 when closed or not open for reading |
| FatVolume.File.Write | QFileSystem/src/QFSFile.cpp:38-55 | Replaces bytes at the position and moves behind them, growing the size; other files are untouched; -1 when closed, not open for writing, or beyond the end |
| FatVolume.File.Seek | QFileSystem/src/QFSFile.cpp:57-83 | Moves to any position that is not negative |
| FatVolume.ReadBack | QFileSystem/src/QFSFile.cpp:23-83 | Reading where a write began gives exactly what was written |
| Names.FormatCollides | QFileSystem/src/QFSFAT32.cpp:1219-1245 | Two names get the same eleven bytes exactly when the first eight characters of their bases and three of their extensions differ in case and trailing blanks only |
| Names.FormatName | QFileSystem/src/QFSFAT32.cpp:1219-1245 | The loops compute the padded upper-case base and extension |
| Names.ParseName | QFileSystem/src/QFSFAT32.cpp:1187-1217 | The loops compute the name, up to a zero byte, with its padding removed and lower case where a flag says so |
| Names.FlagsOf | QFileSystem/src/QFSFAT32.cpp:28-72 | The flags say which part has lower-case letters and no upper-case ones |
| Names.EqualsIgnoreCase | QFileSystem/src/QFSFAT32.cpp:110-122 | True exactly when the lower-case forms are equal |
| Names.LettersAre | QFileSystem/src/QFSFAT32.cpp:103-108 | Case differs by 32 for the 26 ASCII letters and for no other character |
| Names.ParseFormat | QFileSystem/src/QFSFAT32.cpp:1187-1245 | A valid 8.3 name formatted and parsed is its upper-case form, lower where a flag says so |
| Names.NameRoundTrip | QFileSystem/src/QFSFAT32.cpp:28-72 | A valid 8.3 name is read back as written if and only if its base is of one case and so is its extension |
| Names.NameMatches | QFileSystem/src/QFSFAT32.cpp:1037-1042 | A lookup matches a short entry if and only if the names differ in case only |
| LongNames.Rebuild | QFileSystem/src/QFSFAT32.cpp:153-187 | The fragments of an ASCII name of at most 255 characters, in on-disk order, rebuild exactly that name, whatever was pending before |
| LongNames.AfterIs | QFileSystem/src/QFSFAT32.cpp:1001-1035 | A first part starts the long name, a further one with its checksum goes in front, any other proper part and any other slot loses the name, and a part with wrong marks is passed over |
| LongNames.EmittedNext | QFileSystem/src/QFSFAT32.cpp:160-174 | Units up to the terminator become characters, padding is skipped, and what is not ASCII becomes a question mark |
| LongNames.ChecksumNext | QFileSystem/src/QFSFAT32.cpp:93-101 | The checksum of one character more is the sum turned right by one bit as a byte, plus the character, modulo 256 |
| LongNames.FoundByLongName | QFileSystem/src/QFSFAT32.cpp:1011-1042 | An entry stored with a long name matches that name in any case, and otherwise only its short name; a listing shows the long name |
| LongNames.ShownMatches | QFileSystem/src/QFSFAT32.cpp:755-767 | The name a listing shows for an entry matches the entry in a lookup |
| DirectoryScan.PrependFragment | QFileSystem/src/QFSFAT32.cpp:132-151 | Puts a fragment in front of the pending name, cut off at 255 characters |
| DirectoryScan.ConsumeFragment | QFileSystem/src/QFSFAT32.cpp:153-187 | Emits the thirteen units up to the terminator, without padding, and puts them in front |
| DirectoryScan.Scanner.Look | QFileSystem/src/QFSFAT32.cpp:999-1053 | One slot is recognised exactly when its long or short name matches, and the pending name is kept up |
| DirectoryScan.Scanner.FindInCluster | QFileSystem/src/QFSFAT32.cpp:999-1054 | Finds the first slot of one cluster whose long or short name matches, and none exactly when there is none |
| DirectoryScan.FoundUnique | QFileSystem/src/QFSFAT32.cpp:982-1065 | The slot that a lookup finds is determined: its cluster, its place there and its number |
| DirectoryScan.NumberIsPlace | QFileSystem/src/QFSFAT32.cpp:982-1065 | The number of the slot found is its place if and only if no cluster before its own holds an end mark |
| DirectoryScan.VisitedInPlace | QFileSystem/src/QFSFAT32.cpp:999-1004 | The slots visited are the front of the directory, each under the number of its place, if and only if no slot is visited in a cluster behind an end mark |
| DirectoryScan.NumbersShift | QFileSystem/src/QFSFAT32.cpp:999-1004 | A directory of two clusters for which they are not |
| FatLookup.EntrySlot | QFileSystem/src/QFSFAT32.cpp:1001-1035 | An entry is seen under its short name exactly if it is neither deleted, nor an end mark, nor a volume label or long-name part |
| FatLookup.SlotKinds | QFileSystem/src/QFSFAT32.cpp:1001-1035 | On the bytes: which slots end the directory, are deleted, are long-name parts and proper ones, are volume labels |
| FatLookup.FragmentPlaces | QFileSystem/src/QFSFAT32.cpp:81-91 | Which bytes of a long-name entry its order, checksum and thirteen units lie in |
| FatLookup.FindElement | QFileSystem/src/QFSFAT32.cpp:983-1065 | On the device: finds the one slot that is visited first among those that match, with its entry, or none exactly when none matches; its number is its place if and only if no cluster before holds an end mark |
| FatLookup.OpenByName | QFileSystem/src/QFSFAT32.cpp:375-472 | Opening a name in a directory yields the file of exactly the entry that the lookup finds, null for a directory; the handle has the number of that entry if and only if no cluster before its own holds an end mark |
| PageTable.PageOfIndices | QKMemory/include/QKMemPaging.h:49-53 | The four table indices make up the 48-bit page number |
| PageTable.SamePage | QKMemory/include/QKMemPaging.h:49-53 | Two addresses are in the same page exactly when all four indices agree |
| PageTable.TargetOfEntry | QKMemory/src/QKMemVMM.cpp:124-217 | An entry has all its flags, and the frame is recovered from it exactly if no-execute is not set |
| PageTable.DescendInjective | QKMemory/src/QKMemVMM.cpp:192-217 | Walks that end in the same table took the same way |
| PageTable.PutLeaf | QKMemory/src/QKMemVMM.cpp:97-130 | Setting the last-level entry of an address changes the lookup of its page and of no other, and keeps the tree of tables |
| PageTable.GrowTree | QKMemory/src/QKMemVMM.cpp:271-307 | Entering a fresh table page keeps the tables a tree |
| PageTable.GrowLookup | QKMemory/src/QKMemVMM.cpp:271-307 | Entering a fresh, empty table changes no lookup |
| PageTable.NewTable | QKMemory/src/QKMemVMM.cpp:271-307 | Entering a fresh, empty table changes no lookup, and afterwards no walk that shares it with the address lacks it; every other walk lacks what it lacked |
| PageTable.NearNext | QKMemory/src/QKMemVMM.cpp:236-251 | What a page behind a range shares with the pages of the range it shares with the first or the last of them, even when the range wraps around |
| PageTable.RangeIndexIs | QKMemory/src/QKMemVMM.cpp:132-151 | Of fewer than 2^36 pages of a range, an address lies in exactly the one its index says |
| PageTable.PageCountIs | QKMemory/src/QKMemVMM.cpp:132-134 | A size takes as few pages as hold it if and only if rounding it up stays below 2^64, and none otherwise |
| Vmm.VirtualMemory.constructor | QKMemory/src/QKMemVMM.cpp:39-54 | An empty root maps nothing |
| Vmm.VirtualMemory.GetOrCreateTable | QKMemory/src/QKMemVMM.cpp:271-307 | Gives the next table; one that was missing is made empty and entered as present and writable, and no other word changes; none exactly when it was missing and no early page is left; no lookup changes |
| Vmm.VirtualMemory.Map | QKMemory/src/QKMemVMM.cpp:97-130 | Succeeds exactly when as many early pages are left as tables are missing, and takes exactly those; success maps exactly the page of the address; out of memory changes no lookup |
| Vmm.VirtualMemory.MapThenTranslate | QKMemory/src/QKMemVMM.cpp:97-217 | After a successful map translate gives frame plus offset in that page, off by bit 63 with no-execute, and elsewhere what it gave before |
| Vmm.VirtualMemory.Unmap | QKMemory/src/QKMemVMM.cpp:153-178 | The page of the address is unmapped and no other lookup changes; not found exactly when a table on the walk is missing, and then nothing changes |
| Vmm.VirtualMemory.Translate | QKMemory/src/QKMemVMM.cpp:192-217 | Gives the frame and the offset in the page, or 0 |
| Vmm.VirtualMemory.MapRange | QKMemory/src/QKMemVMM.cpp:132-151 | Succeeds exactly when the early pages left suffice for the tables the range needs; all pages are mapped, or exactly those for which the early pages lasted are unmapped again; over an unmapped range it is all or nothing |
| Vmm.VirtualMemory.Rollback | QKMemory/src/QKMemVMM.cpp:241-247 | Unmaps the pages and frees their frames; if one was not mapped, page 0 ends up free |
| Vmm.VirtualMemory.Allocate | QKMemory/src/QKMemVMM.cpp:230-254 | Distinct free frames mapped one behind the other, or everything as before if there are too few, except that no-execute frames then stay in use; exactly when the early pages left suffice for the tables that the pages which get a frame need, and these are mapped as present; otherwise an unmapped page is handed out or page 0 freed |
| Vmm.VirtualMemory.Free | QKMemory/src/QKMemVMM.cpp:256-269 | Unmaps the range, frees exactly the frames of the pages that were mapped and skips the others; with no-execute it frees none |
| Vmm.VirtualMemory.AllocateThenFree | QKMemory/src/QKMemVMM.cpp:230-269 | Restores every lookup whenever the early pages suffice for the tables needed, and the page bitmap if and only if the pages are not no-execute or none was got |
| Pmm.MarkSet | QKMemory/src/QKMemPMM.cpp:72-96 | Changing one bit of one byte changes the mark of one page |
| Pmm.MaskDoubles | QKMemory/src/QKMemPMM.cpp:121-128 | The bits of a byte stand for its eight pages from the lowest bit on |
| Pmm.CountRange | QKMemory/src/QKMemPMM.cpp:72-96 | What setting a range of marks does to the number of free pages |
| Pmm.SetAllBack | QKMemory/src/QKMemPMM.cpp:121-133 | Marking free pages and unmarking them restores the bitmap |
| Pmm.OvercountIs | QKMemory/src/QKMemPMM.cpp:54-58 | From an all-ones bitmap the counter is right after all regions if and only if no region shares a page with an available one before it |
| Pmm.PageAllocator.Initialize | QKMemory/src/QKMemPMM.cpp:26-64 | From an all-ones bitmap the allocator is in order if and only if no available region covers page 0 and no region shares a page with an available one before it; with such a region the counter is too large |
| Pmm.PageAllocator.constructor | QKMemory/src/QKMemPMM.cpp:26-64 | An all-ones bitmap has no free page |
| Pmm.PageAllocator.MarkRegion | QKMemory/src/QKMemPMM.cpp:72-96 | Sets exactly the pages of the region; the counter drifts by the number of pages that were free before |
| Pmm.PageAllocator.AllocatePage | QKMemory/src/QKMemPMM.cpp:98-119 | Takes the lowest free page; 0 exactly when there is none; the counter stays the number of clear bits |
| Pmm.PageAllocator.FreePage | QKMemory/src/QKMemPMM.cpp:121-133 | Clears one bit; freeing a free page makes the counter too large by one |
| Pmm.PageAllocator.AllocatePages | QKMemory/src/QKMemPMM.cpp:135-179 | Takes the lowest run of free pages of the wanted length; 0 exactly when there is none; only those bits change |
| Pmm.PageAllocator.FreePages | QKMemory/src/QKMemPMM.cpp:181-187 | Clears exactly the given pages, as far as they exist; the counter drifts by the number of them that were free |
| Pmm.AllocateThenFree | QKMemory/src/QKMemPMM.cpp:135-187 | Allocating and freeing is the identity on bitmap and counter |
| Heap.Align16Covers | QKMemory/src/QKMemHeap.cpp:69-70 | Rounding up covers the request if and only if it is at most 2^64-16 |
| HeapBlocks.Canonical | QKMemory/src/QKMemHeap.cpp:185-205 | Two block lists over one arena without free neighbours and with the same live blocks are the same list |
| HeapBlocks.Coverage | QKMemory/src/QKMemHeap.cpp:167-205 | Used and free bytes, headers included, make up the arena |
| HeapBlocks.SplitTiles | QKMemory/src/QKMemHeap.cpp:167-183 | Splitting keeps the blocks covering the arena in order, and their sizes multiples of 16 |
| HeapBlocks.MergeTiles | QKMemory/src/QKMemHeap.cpp:185-205 | Merging two neighbours likewise |
| HeapBlocks.PlacesAligned | QKMemory/src/QKMemHeap.cpp:167-183 | Every block starts at a multiple of 16 from the base |
| HeapBlocks.NothingLive | QKMemory/src/QKMemHeap.cpp:130-149 | A heap without live blocks is the single free block it began as, whatever the order of frees |
| HeapBlocks.LiveApart | QKMemory/src/QKMemHeap.cpp:64-94 | Live blocks do not overlap |
| HeapBlocks.FreeSizeWraps | QKMemory/include/QKMemHeap.h:29-29 | freeSize underflows if and only if no block is free; otherwise it is the free bytes less one header |
| HeapBlocks.AllocateThenFree | QKMemory/src/QKMemHeap.cpp:64-149 | Freeing what was allocated last restores the block list |
| Heap.Arena.constructor | QKMemory/src/QKMemHeap.cpp:27-62 | One free block over the whole arena |
| Heap.Arena.FindFreeBlock | QKMemory/src/QKMemHeap.cpp:151-165 | The lowest free block that fits |
| Heap.Arena.SplitBlock | QKMemory/src/QKMemHeap.cpp:167-183 | Cuts a free block in two; live payloads keep every byte |
| Heap.Arena.MergeBlocks | QKMemory/src/QKMemHeap.cpp:185-205 | Afterwards no two neighbours are free; live payloads keep every byte |
| Heap.Arena.Allocate | QKMemory/src/QKMemHeap.cpp:64-94 | Null exactly for size 0 or when no free block fits; otherwise the lowest fitting block, cut to size, 16-aligned to the base; no live payload changes; shape and accounting are kept |
| Heap.Arena.Free | QKMemory/src/QKMemHeap.cpp:130-149 | Removes one live block and keeps the payloads of all others |
| Heap.Arena.Reallocate | QKMemory/src/QKMemHeap.cpp:102-128 | Null exactly for size 0 or when the block must grow and none fits; a block large enough is returned as it is; success keeps all old bytes in a block large enough, which is the one live block that is new; size 0 frees; failure leaves everything; other payloads never change |
| Heap.Arena.WritePayload | QKMemory/src/QKMemHeap.cpp:64-94 | An owner writing into its payload disturbs neither the heap nor another payload |
| Events.InsertKeepsOrder | QEvent/src/QKEventQueue.cpp:22-62 | Priority insertion keeps events above Normal a non-increasing prefix |
| Events.InsertIsFifo | QEvent/src/QKEventQueue.cpp:22-62 | An insertion appends to its own priority class, where Low and Normal are one class, and leaves the others |
| Events.HeadIsHighest | QEvent/src/QKEventQueue.cpp:64-76 | The event popped next is of the highest class waiting, and the oldest of it |
| Events.FilterKeepsOrder | QEvent/src/QKEventQueue.cpp:96-125 | Clearing by a filter keeps the order and exactly the events the filter keeps |
| Events.FilterOfClass | QEvent/src/QKEventQueue.cpp:96-154 | Clearing keeps the survivors of each class in order |
| EventQueue.Queue.FindInsertIndex | QEvent/src/QKEventQueue.cpp:156-169 | The place of the first event of lower priority, or the tail |
| EventQueue.Queue.ShiftBack | QEvent/src/QKEventQueue.cpp:43-54 | The wrap-around shift moves exactly the suffix one place back |
| EventQueue.Queue.Push | QEvent/src/QKEventQueue.cpp:22-62 | A stable priority insertion; refused exactly when full; tail stays (head+count) mod 256 |
| EventQueue.Queue.Pop | QEvent/src/QKEventQueue.cpp:64-76 | Takes the first event |
| EventQueue.Queue.ClearType | QEvent/src/QKEventQueue.cpp:96-125 | An order-preserving filter; the ring is intact if and only if fewer than 256 events survive |
| EventQueue.Queue.ClearCategory | QEvent/src/QKEventQueue.cpp:127-154 | The same by category |
| EventQueue.ImmediateQueue.Push | QEvent/src/QKEventQueue.cpp:181-192 | Appends; refused exactly when 16 wait |
| EventQueue.ImmediateQueue.Pop | QEvent/src/QKEventQueue.cpp:194-205 | Takes the first event |
| EventRuns.ProcessKeeps | QEvent/src/QKEventManager.cpp:244-276 | In every call, whatever the handlers post: immediate events come before main events, and each post is handled, waiting or dropped; the main queue is emptied unless the limit was reached |
| EventRuns.QuietRun | QEvent/src/QKEventManager.cpp:244-276 | With handlers that post nothing, exactly the immediate events and then a prefix of the main queue are handled |
| EventRuns.DrainMainKeeps | QEvent/src/QKEventManager.cpp:262-272 | The second loop: order, conservation and the limit, which is looked at only after an event |
| EventRuns.ImmediateMayWait | QEvent/src/QKEventManager.cpp:262-272 | An immediate event posted while a main event is handled waits for the next call |
| EventManager.DeliveredUnique | QEvent/src/QKEventManager.cpp:431-496 | The listener tables and the answers of the handlers determine who is called |
| EventManager.CalledIff | QEvent/src/QKEventManager.cpp:431-496 | Someone is called if and only if they match and whoever comes before declines |
| EventManager.ListenerPlace | QEvent/src/QKEventManager.cpp:435-469 | Listener i has its place among the targets, behind those before it, if and only if it is in use, enabled, has a handler, has the type 0 or the event type, shares a category bit and has a minimum priority not above that of the event |
| EventManager.ReceiverPlace | QEvent/src/QKEventManager.cpp:473-492 | Receiver i has its place behind all listeners and the receivers before it if and only if it is registered, enabled and shares a category bit |
| EventManager.AllPlaced | QEvent/src/QKEventManager.cpp:431-496 | There are no other targets |
| EventManager.Manager.PostEvent | QEvent/src/QKEventManager.cpp:77-103 | Not initialised: nothing. An immediate event goes behind the immediate queue unless 16 wait there, any other into its place in the main queue unless 256 wait there; the other queue stays, and exactly a refused event is counted as dropped |
| EventManager.Manager.DispatchEvent | QEvent/src/QKEventManager.cpp:431-496 | A prefix of the matching enabled listeners and then receivers, up to the first that handles the event |
| EventManager.Manager.ProcessEvents | QEvent/src/QKEventManager.cpp:244-276 | Refines the run over both queues; nothing when called from a handler; every event goes to its own targets, whatever the handlers answer at each dispatch; posts equal dispatched, pending, dropped and cleared |
| EventManager.Manager.ClearEvents | QEvent/src/QKEventManager.cpp:295-299 | Empties both queues and keeps the account |
| EventManager.Manager.ClearEventsOfType | QEvent/src/QKEventManager.cpp:301-304 | The manager stays consistent if and only if fewer than 256 events survive |
| EventManager.Manager.PendingEventCount | QEvent/src/QKEventManager.cpp:290-293 | Counts the main events, and one if any immediate event waits; right if and only if at most one does |
| EventManager.Manager.AddListener | QEvent/src/QKEventManager.cpp:308-328 | The first free slot gets an id no other has; refused exactly when no slot is free or before initialisation |
| EventManager.Manager.AddReceiver | QEvent/src/QKEventManager.cpp:342-362 | The first empty slot; refused exactly without a receiver or an empty slot or before initialisation |
| EventManager.Manager.RemoveListener | QEvent/src/QKEventManager.cpp:364-393 | Frees the listener slot of the id, or the receiver slot if the id has the top bit, and no other |
| EventManager.Manager.AddThenRemove | QEvent/src/QKEventManager.cpp:308-393 | With an id below 2^31 the listeners and who hears an event are as before; a later id is taken for a receiver, and then the listener stays |
| EventManager.Manager.AddThenRemoveReceiver | QEvent/src/QKEventManager.cpp:342-393 | Adding and removing a receiver restores the tables |
| Envelopes.StepKeeps | QEvent/include/QKMsgBus.h:54-82 | Every step of clients and queue keeps each counter equal to the references owed or lost |
| Envelopes.TouchesLive | QEvent/include/QKMsgBus.h:54-82 | No step touches a freed envelope |
| Envelopes.RefCountExact | QEvent/src/QKMsgBus.cpp:94-152 | In every run the counter is at least the references owed, and equal exactly if no queued event of the envelope was lost |
| Envelopes.PayloadLifetime | QEvent/include/QKMsgBus.h:63-82 | In every run the payload is destroyed at most once, never while held, queued or delivered, and is destroyed once nothing is owed or lost |
| Envelopes.NothingLost | QEvent/src/QKMsgBus.cpp:94-152 | Without cleared or consumed events no reference is lost |
| Envelopes.RefusedPublish | QEvent/src/QKMsgBus.cpp:94-116 | A failed publish leaves everything as it was |
| Envelopes.FreedForGood | QEvent/include/QKMsgBus.h:63-82 | A freed envelope stays freed until its address is allocated again |
| Envelopes.FirstInFirstOut | QEvent/src/QKMsgBus.cpp:94-152 | Messages are delivered in the order published, under the topic they were published with |
| Envelopes.WrappedCounter | QEvent/include/QKMsgBus.h:54-61 | At 2^32-1 references one more retain wraps the counter and the next release frees the envelope |
| MsgBus.WaitingInsert | QEvent/src/QKMsgBus.cpp:100-107 | A publish goes behind all waiting messages; no other post moves a message |
| MsgBus.Bus.Subscribe | QEvent/src/QKMsgBus.cpp:54-75 | The first unused slot gets an id no other has; refused exactly without a handler or topic or when full |
| MsgBus.Bus.Unsubscribe | QEvent/src/QKMsgBus.cpp:77-92 | Frees the slot of the id, and tells whether there was one |
| MsgBus.Bus.Publish | QEvent/src/QKMsgBus.cpp:94-116 | Is the publish step; succeeds exactly if the topic is not 0 and the manager is up and has room |
| MsgBus.Bus.ReleaseRef | QEvent/include/QKMsgBus.h:63-82 | Is the release of the step system |
| MsgBus.Bus.Handle | QEvent/src/QKMsgBus.cpp:94-116 | What a handler does, posts and steps in any order, is a function of the state, and a run of the step system |
| MsgBus.Bus.OnEvent | QEvent/src/QKMsgBus.cpp:118-152 | Calls exactly the subscribers of the published topic in slot order; the delivery is a run of the step system, determined by what the handlers do |
| MsgBus.WaitingFilter | QEvent/src/QKEventManager.cpp:301-304 | Clearing a type of event removes all waiting messages or none |
| MsgBus.Bus.ClearEvents | QEvent/src/QKEventManager.cpp:295-299 | Loses the references of exactly the waiting messages, as drop steps |
| MsgBus.Bus.ClearEventsOfType | QEvent/src/QKEventManager.cpp:301-304 | Loses the references of all waiting messages for the type of bus events and of none for another, as drop steps |
| BusEvents.Dispatch | QEvent/src/QKEventManager.cpp:431-496 | One dispatch is a run of the step system, determined by the tables, the answers and what the handlers do; a message is lost exactly if someone before the bus handles it |
| BusEvents.ProcessEvents | QEvent/src/QKEventManager.cpp:244-276 | A whole call with the bus among the receivers is a function of the state before it, the tables, the answers and what the handlers do: a run of the step system and of the two queues; the references lost are exactly those of the messages that someone before the bus handles, and nobody is called behind it for a message |
| Json.OverlayIsMerge | QCSerialization/src/QCJsonOverlay.cpp:61-122 | Along every key path the layers reached merge to what the eagerly merged tree has there, and are missing exactly where it has nothing |
| Json.ChildIsFind | QCSerialization/src/QCJsonOverlay.cpp:61-122 | One step of layered lookup is one lookup in the left fold of binary deep merges |
| Json.ChildOfObjects | QCSerialization/src/QCJsonOverlay.cpp:74-78 | Layers that are no objects play no part |
| Json.RightFoldDiffers | QCSerialization/src/QCJsonOverlay.cpp:100-119 | The right fold is a different tree when a scalar sits between two objects |
| JsonOverlay.FindValue | QCSerialization/src/QCJson.cpp:101-118 | The first entry with the key |
| JsonOverlay.ParamMap.Set | QCSerialization/src/QCJsonOverlay.cpp:12-30 | Changes the value of one key and of no other |
| JsonOverlay.ParamMap.GetValue | QCSerialization/src/QCJsonOverlay.cpp:32-45 | The value of a key, or none |
| JsonOverlay.Overlay.GetChild | QCSerialization/src/QCJsonOverlay.cpp:61-122 | The two passes compute the child layers |
| JsonOverlay.Overlay.CollectParams | QCSerialization/src/QCJsonOverlay.cpp:193-221 | Each key gets the string of the highest-priority layer that has one |
| JsonOverlay.WinnerIs | QCSerialization/src/QCJsonOverlay.cpp:197-220 | The string of a layer wins if and only if no layer before it has one for the key |
| JsonOverlay.LastStringIs | QCSerialization/src/QCJsonOverlay.cpp:210-219 | Within a layer it is the string of the last entry that has one for the key |
| JsonOverlay.LastIsFound | QCSerialization/src/QCJsonOverlay.cpp:209-219 | Within a layer without repeated keys that is the string found for the key; of repeated keys the last counts |
| JsonOverlay.ExpandTemplate | QCSerialization/src/QCJsonOverlay.cpp:231-294 | The loops compute the expansion |
| JsonOverlay.ExpandPlaceholder | QCSerialization/src/QCJsonOverlay.cpp:240-283 | A placeholder is replaced by the parameter of its name, or of the first 63 characters of it, is kept without one, and is not expanded again |
| JsonOverlay.NameCharIs | QCSerialization/src/QCJsonOverlay.cpp:7-10 | The characters of a parameter name are the ASCII letters, digits and the underscore |
| JsonOverlay.ExpandOther | QCSerialization/src/QCJsonOverlay.cpp:243-288 | A brace that no name and closing brace follow is copied |
| JsonOverlay.ExpandPlain | QCSerialization/src/QCJsonOverlay.cpp:287-289 | Text without braces is copied |
| JsonOverlay.ExpandNothing | QCSerialization/src/QCJsonOverlay.cpp:271-279 | Without a known name the text stays as it is |
| JsonParser.Parser.Parse | QCSerialization/src/QCJson.cpp:317-339 | Ends within bounds on every text, with the value or the first error and its place |
| JsonParser.Parser.ParseValue | QCSerialization/src/QCJson.cpp:341-373 | Is one value of the grammar function |
| JsonParser.Parser.ParseObject | QCSerialization/src/QCJson.cpp:375-431 | Is one object of the grammar function |
| JsonParser.Parser.ParseArray | QCSerialization/src/QCJson.cpp:433-470 | Is one array of the grammar function |
| JsonParser.Parser.ReadString | QCSerialization/src/QCJson.cpp:484-563 | Is one string of the grammar function |
| JsonParser.Parser.ReadUnicodeEscape | QCSerialization/src/QCJson.cpp:822-852 | Four digits of a 16-bit code, kept up to 0x7F and otherwise a question mark |
| JsonParser.Parser.ParseNumber | QCSerialization/src/QCJson.cpp:565-710 | The value of the literal scanned |
| JsonParser.Parser.ParseLiteral | QCSerialization/src/QCJson.cpp:712-744 | Exactly the literal, or one of two errors |
| JsonParser.Evaluate | QCSerialization/src/QCJson.cpp:630-700 | The second scan reads the whole literal and stops at the terminator, so the error behind it is unreachable; its value is that of the literal |
| JsonText.ScanIsLiteral | QCSerialization/src/QCJson.cpp:565-624 | What the first scan accepts is a literal of the grammar, and is the text up to where it stopped |
| JsonText.HexValueIs | QCSerialization/src/QCJson.cpp:811-820 | The hexadecimal digits are those of either case, with their places in the row of digits as values |
| JsonSerialise.LiteralAsNumber | QCSerialization/src/QCJson.cpp:647-706 | The value of a literal: all its digits as one whole number, the point moved back by the length of the fraction and on or back by the exponent |
| JsonRoundTrip.ValueReads | QCSerialization/src/QCJson.cpp:341-373 | Every text that RFC 8259 allows for a value is read to its meaning, and reading stops right behind it |
| JsonRoundTrip.RoundTrip | QCSerialization/src/QCJson.cpp:317-339 | So is every whole text, with any white space |
| JsonAccepts.ParseExact | QCSerialization/src/QCJson.cpp:317-339 | A text is accepted if and only if it is that of some tree with white space around it, and whatever tree it is the text of, the value returned is the meaning of that tree |
| JsonSerialise.ParseSerialise | QCSerialization/src/QCJson.cpp:317-339 | Every tree of decimal numbers and zero-free strings is parsed back from its serialised text |
| JsonSerialise.NeverReported | QCSerialization/src/QCJson.cpp:392-404 | The errors for a missing key and a missing colon are never reported |
| PathNorm.NormalizeAbsolutePath | QKernel/src/QKCommandCenter.cpp:94-156 | Succeeds exactly if the input is absolute and its normal form fits with the terminator, and writes that; never outside the buffer |
| PathNorm.Lex | QKernel/src/QKCommandCenter.cpp:101-131 | The loops compute the segment stack, with the cap of 32 |
| PathNorm.NormalCompose | QKernel/src/QKCommandCenter.cpp:94-156 | Normalising a first part beforehand makes no difference, even with the cap of 32 segments |
| PathNorm.NormalIdempotent | QKernel/src/QKCommandCenter.cpp:94-156 | Normalising again changes nothing |
| PathNorm.NormalIsClean | QKernel/src/QKCommandCenter.cpp:115-130 | The result has at most 32 segments, none empty, "." or ".." |
| PathNorm.FixedPoints | QKernel/src/QKCommandCenter.cpp:94-156 | The unchanged paths are exactly the rendered stacks |
| PathNorm.NormalNext | QKernel/src/QKCommandCenter.cpp:115-133 | On texts: "/." behind a normal path changes nothing, "/.." takes its last name off or leaves the root, and a name is put behind it unless 32 are there |
| PathNorm.DotsVanish | QKernel/src/QKCommandCenter.cpp:115-133 | In the middle of any path a segment "." changes nothing, and neither do a name and ".." behind it when fewer than 32 segments come before |
| PathNorm.CapForgets | QKernel/src/QKCommandCenter.cpp:124-130 | Entering a directory and leaving it is the identity if and only if fewer than 32 segments are there |
| PathNorm.AppendString | QKernel/src/QKCommandCenter.cpp:158-181 | Appends what fits, and tells whether that was all |
| PathNorm.NormalShrinks | QKernel/src/QKCommandCenter.cpp:94-156 | Normalising an absolute path makes it no longer |
| PathNorm.ResolvePath | QKernel/src/QKCommandCenter.cpp:183-220 | Normalises the argument, or the working directory and the argument, if they fit; an absolute argument of 256 characters or more in normal form resolves to something else |
| PathNorm.AbsoluteWhole | QKernel/src/QKCommandCenter.cpp:197-200 | An absolute argument is taken as it is if and only if it has fewer than 256 characters |
| PathNorm.NormalKept | QKernel/src/QKCommandCenter.cpp:183-220 | An absolute argument in normal form resolves to itself if and only if it has fewer than 256 characters |
| PathNorm.LongNameCut | QKernel/src/QKCommandCenter.cpp:197-200 | A single name of 255 characters or more loses its end |
| PathNorm.ResolveCompose | QKernel/src/QKCommandCenter.cpp:183-220 | Resolving against a normalised directory is normalising both parts joined, exactly if they fit 255 characters |

## Left out

- FatVolume.Volume.constructor: mounting assumes that the table has room for all clusters and that
  their number stays below the markers of the format, as the Microsoft FAT specification demands;
  the drivers do not check it.
- FatVolume.Volume.Mount: the same.
- FatVolume.Volume.Wide: the same, and a non-zero number of sectors in a cluster.
- FatVolume.Volume.MountWide: the same.
- FatVolume.Volume.Open: takes the directory slot that the lookup has found; splitting a path into
  its elements and creating a missing entry are not modelled.
- FatVolume.Volume.OpenWide: takes the number of the entry; FatLookup.OpenByName finds it by name.
- FatLookup.OpenByName: one element of a path, in a FAT32 directory or a FAT32 root; the outer loop
  of findEntry over the elements, and the sector-wise scan of the FAT16 root, are not modelled.
- FatVolume.Volume.FreeClusterChain: a FAT32 walk must not leave the device, because readFAT does not
  look whether the sector was read; FatChain.AnyLinksEnd says which devices are large enough.
- Vmm.VirtualMemory.Allocate: the number of page frames is at most 2^40, and the range allocated is not
  mapped before.
- Vmm.VirtualMemory.Free: the mapped pages of the range have distinct frames that are in use, and
  one set of flags.
- Vmm.VirtualMemory.AllocateThenFree: present pages.
- Pmm.PageAllocator.Initialize: regions end below 2^64; the total of the available memory is not kept.
- Pmm.PageAllocator.constructor: the bitmap is given and all ones, because its set-up in the source
  is a stub; page 0 is in use.
- Heap.Arena.Reallocate: requests are at most 2^64-16, where rounding does not wrap.
- Names.NameRoundTrip: valid names have no blank, dot or zero character inside base or extension.
- LongNames.Rebuild: ASCII names; others are read with question marks by design.
- EventManager.Manager.ProcessEvents: what the handlers post is a finite script, one list a
  dispatch, so endless re-posting is not covered; handlers do not change the listener tables.
- EventManager.Manager.AddListener: fewer than 2^32 listeners are ever added.
- EventManager.Manager.RemoveListener: removal by handler is not modelled.
- Envelopes.StepKeeps: clients release only references they hold and keep fewer than 2^32 of them;
  WrappedCounter shows why.
- MsgBus.Bus.OnEvent: handlers do not subscribe or unsubscribe during a delivery, and do not change
  the topic of the envelope being delivered. Registration of the bus with the manager is not modelled.
- BusEvents.ProcessEvents: what happens during the dispatches is a finite list of turns; handlers do
  not clear events or change the tables meanwhile, and post no bus events but through publish.
- MsgBus.Bus.Subscribe: fewer than 2^32 subscriptions are ever made.
- JsonParser.Parser.ParseNumber: numbers are reals and exponents unbounded; rounding, overflow of the
  32-bit exponent and recursion depth are not modelled.
- JsonSerialise.ParseSerialise: numbers with finitely many decimal places, strings without zero.
- PathNorm.ResolvePath: strings are zero-terminated, so contain no zero.
- Device errors: every transfer of a sector that the device has succeeds.
- Several handles open on one file, timestamps, creation and removal of files and directories,
  directory listing as an iteration.
- The FAT sector cache (QFileSystem/src/QFSCache.cpp): one link field serves two lists, so it does
  not agree with the device as written.
- Address spaces, large pages, page flags queries, TLB and register effects.
- Copy, move and destruction of JSON values, and the typed accessors of overlays.
- Scheduler, drivers, desktop and graphics, floating-point routines, logging and network commands.
