# A verified model of the NachOS kernel and machine simulator

This project models parts of a teaching kernel (NachOS, under `NachOSx64/code`) and of one small
thread game, and proves properties of the models. Integers are mathematical except where the
32-bit word is the point: multiplication, bitmaps, the words of file headers and page tables.

The main results, hardest first:

- **Sector file system** (`DiskImage`, `BitMap`, `FileHeader`, `OpenFile`, `Directory`, `DiskLayout`,
  `DiskSteps`, `FileSystem`, `FsTest`, `FsRuns`, `FsModel`, `StaleHandle`). Byte reads and writes
  over scattered 128-byte sectors refine a flat file. A bitmap and a directory that are themselves
  files on the disk keep agreeing with the headers: marked sectors are exactly the
  owned ones, owners are disjoint, names are unique. Any sequence of calls on a freshly formatted disk
  implements a map from the first nine bytes of names to contents (`FsModel.Execute`), and sectors are
  conserved. A write through a handle whose file was removed is harmless exactly when no byte it may
  change is in use; a concrete run shows that it can destroy another file.
  Within the size limit of a file the disk cannot fill up before the ten directory entries do, so
  the tests for free sectors in Create never decide.
- **Multiplier** (`Mult`). The shift-and-add loop leaves the exact 64-bit product for all operands.
- **Translation and loader** (`Translate`, `AddrSpace`). Any sequence of loads and stores through a page table or a
  coherent TLB yields what a flat memory yields, faults included, whatever use and dirty bits it leaves
  (`Machine.PerformAll`), and those bits are exactly the ones the accesses set; a loaded program reads back as
  code, data, zeros, with room for its stack.
- **Clock and list** (`List`, `Interrupt`). The linked list refines sorted insertion; interrupts fire in
  order, never early, none lost or twice; the drain loops end; ticks are conserved.
- **Disk timing** (`DiskTiming`). Every access is served by a real pass of its sector under the head, also
  from the track buffer, its latency is given in plain numbers, and its completion fires on time (`Disk.Serve`).
- **Synchronisation** (`Synch`, `SynchDiskProtocol`, `DiningPh`, `Scheduler`). Every operation runs with
  interrupts off, so what lies between two sleeps is one atomic step. Each protocol is a state machine
  over these steps, with an invariant proved for every run; the classes whose fields the source
  updates are proved against the same step functions, also over whole runs of calls on one object.
- **Swapping** (`Map`, `BackingStore`). Exchanging pages conserves contents exactly when the page put
  out may be written.
- **Hot potato** (`Ring`). One baton, one cycle of live threads, one winner who is the last one live.

Notes on how the source was read:

- Directory names are compared and stored on nine characters; keys are names cut there. The padding bytes of
  directory entries are modelled as zeros.
- A handler of an interrupt is any code that schedules finitely many interrupts with positive delay and may
  ask for a context switch. The context switch itself is in `Scheduler`.
- In Idle, the clock has already moved when a lone timer interrupt is put back and the machine halts.
- Releasing a lock does not clear its owner, so isHeldByCurrentThread can name a thread that no longer
  holds it; `Synch.HeldIsExact` says exactly when it is right.
- Condition starts busy; it is right for dining philosophers because each condition has at most one
  waiter. With several, its one flag keeps only one of several signals (`Synch.SignalsLetOnePass`).
- In `Ring`, the loser that leaves one member behind does not unlink itself; the winner never follows its pointers.
- Pages are array indices where the source uses pointers to table entries, and players are indices into the
  vectors that main allocates.

`dafny verify dfyconfig.toml` checks the whole project.

## Model

| member | source | states |
|---|---|---|
| Bytes.WordRoundTrip | NachOSx64/code/filesys/filehdr.cc:78-95 | a 32-bit word survives being written to a sector and read back |
| Bytes.LittleEndian | NachOSx64/code/filesys/filehdr.cc:78-95 | a word is stored lowest byte first, a negative number as its two's complement |
| Bytes.WordsRoundTrip | NachOSx64/code/userprog/bitmap.cc:146-162 | an array of words survives being written as bytes and read back |
| DiskImage.HeaderRoundTrip | NachOSx64/code/filesys/filehdr.cc:78-95 | a file header written back to its sector and fetched again is the same header, for every header |
| DiskImage.HeaderLayout | NachOSx64/code/filesys/filehdr.cc:78-95 | the size at bytes 0 to 3 of the sector, the number of sectors at 4 to 7, pointer i at 8 + 4 i |
| DiskImage.FlatByte | NachOSx64/code/filesys/filehdr.cc:106-110 | byte k of a file lies in the sector that pointer k / 128 names, at place k % 128 |
| DiskImage.FlatFrame | NachOSx64/code/filesys/openfile.cc:113-139 | the flat bytes of a file depend on its own data sectors only |
| SynchDisks.SynchDisk.ReadSector | NachOSx64/code/filesys/synchdisk.cc:72-79 | delivers the 128 bytes of one sector and changes no other byte of the buffer |
| BitMaps.MasksDisjoint | NachOSx64/code/userprog/bitmap.cc:46-78 | the masks of two bits of a word overlap only when the bits are the same |
| BitMaps.MasksInOrder | NachOSx64/code/userprog/bitmap.cc:46-78 | each of the 32 masks has one bit and is greater than the one before, so mask k is the k-th power of two; a clear word has no bit set |
| BitMaps.WordUpdate | NachOSx64/code/userprog/bitmap.cc:46-67 | setting or clearing bit k of a 32-bit word changes bit k and no other bit |
| BitMaps.BitsUpdate | NachOSx64/code/userprog/bitmap.cc:46-67 | updating one word of the array updates exactly one bit of the whole map |
| BitMaps.BitOfMap | NachOSx64/code/userprog/bitmap.cc:46-82 | bit i of the map is bit i % 32 of word i / 32 |
| BitMaps.BitMap.Mark | NachOSx64/code/userprog/bitmap.cc:46-51 | exactly the named bit becomes set |
| BitMaps.BitMap.Clear | NachOSx64/code/userprog/bitmap.cc:60-65 | exactly the named bit becomes clear |
| BitMaps.BitMap.Find | NachOSx64/code/userprog/bitmap.cc:92-100 | takes the lowest clear bit and sets it; answers -1 and changes nothing exactly when every bit is set |
| BitMaps.BitMap.NumClear | NachOSx64/code/userprog/bitmap.cc:108-117 | counts the clear bits |
| BitMaps.CountClearMark | NachOSx64/code/userprog/bitmap.cc:108-117 | taking a clear bit lowers the count by one |
| BitMaps.CountClearZero | NachOSx64/code/userprog/bitmap.cc:92-117 | the count is zero exactly when Find would fail |
| DiskLayout.MapRoundTrip | NachOSx64/code/userprog/bitmap.cc:145-162 | a bitmap written to its file and fetched again is the same bitmap |
| DiskLayout.MapLayout | NachOSx64/code/userprog/bitmap.cc:145-162 | word i of the bitmap takes bytes 4 i to 4 i + 3 of its file |
| FileHeaders.FileHeader.Allocate | NachOSx64/code/filesys/filehdr.cc:41-52 | succeeds exactly when enough sectors are free; then marks exactly the pointed sectors, which were all free, are pairwise distinct and are the lowest free ones; otherwise marks nothing |
| FileHeaders.FileHeader.Deallocate | NachOSx64/code/filesys/filehdr.cc:61-68 | where every data sector is marked, clears exactly the data sectors, and the assertion holds at each of them |
| FileHeaders.ReleaseOneMore | NachOSx64/code/filesys/filehdr.cc:61-68 | the pointers are distinct, so the next data sector is still marked after those before it were cleared |
| FileHeaders.FileHeader.FetchFrom | NachOSx64/code/filesys/filehdr.cc:77-81 | the header becomes the one encoded in the sector |
| FileHeaders.FileHeader.WriteBack | NachOSx64/code/filesys/filehdr.cc:90-94 | the sector encodes the header afterwards and no other sector changes |
| FileHeaders.MarkOneMore | NachOSx64/code/filesys/filehdr.cc:41-52 | one more first-fit sector keeps the taken set exact and first-fit |
| OpenFiles.OpenFile.ReadAt | NachOSx64/code/filesys/openfile.cc:113-139 | moves exactly the clamped number of bytes and delivers exactly that slice of the flat file, for every offset and length, including past the end |
| OpenFiles.OpenFile.WriteAt | NachOSx64/code/filesys/openfile.cc:141-181 | moves exactly the clamped number of bytes, changes exactly that range of the flat file, keeps its length, and touches only the sectors that range lies in |
| OpenFiles.TransferClamps | NachOSx64/code/filesys/openfile.cc:113-156 | a request moves what it asks for, cut at the end of the file, and nothing exactly when it starts there or asks for less than a byte |
| OpenFiles.OverlayByte | NachOSx64/code/filesys/openfile.cc:141-181 | what a write leaves at each byte: the new one in its range, the old one elsewhere |
| OpenFiles.SliceByte | NachOSx64/code/filesys/openfile.cc:113-139 | what a read delivers at each byte |
| OpenFiles.OpenFile.ReadEdges | NachOSx64/code/filesys/openfile.cc:160-170 | the partly covered first and last sectors are in the buffer before it is modified, whether they are different or the same |
| OpenFiles.OpenFile.LoadSectors | NachOSx64/code/filesys/openfile.cc:125-133 | the buffer holds the file sectors asked for, in file order |
| OpenFiles.OpenFile.StoreSectors | NachOSx64/code/filesys/openfile.cc:175-178 | exactly the named sectors of the file are replaced by the buffer |
| OpenFiles.EdgesPrepared | NachOSx64/code/filesys/openfile.cc:160-173 | once the edges are read and the new bytes copied in, every byte of the buffer that belongs to the file is right |
| OpenFiles.StoredIsWritten | NachOSx64/code/filesys/openfile.cc:155-181 | storing a prepared buffer replaces exactly the requested range of the flat file |
| OpenFiles.TouchedIsData | NachOSx64/code/filesys/openfile.cc:155-181 | the sectors a write touches are data sectors of its own file |
| OpenFiles.OpenFile.Read | NachOSx64/code/filesys/openfile.cc:71-76 | reads at the seek position and advances it by the number of bytes read |
| OpenFiles.OpenFile.Write | NachOSx64/code/filesys/openfile.cc:79-84 | writes at the seek position and advances it by the number of bytes written |
| Directories.EqualMeansSameKey | NachOSx64/code/filesys/directory.cc:90-97 | strncmp over nine characters is equality of the names cut at nine characters |
| Directories.NameKeyIsNine | NachOSx64/code/filesys/directory.cc:90-97 | a file is known by its whole name up to nine bytes, or by the first nine of it |
| Directories.SameFileName | NachOSx64/code/filesys/directory.cc:90-97 | two names mean the same file exactly when they are equal or agree on their first nine bytes |
| Directories.EntryKeyIsNine | NachOSx64/code/filesys/directory.cc:90-97 | an entry is known by the bytes of its name field in front of the first NUL, nine at most |
| Directories.CopyKeepsKey | NachOSx64/code/filesys/directory.cc:129-144 | strncpy stores a name that compares equal to the original, terminated or not |
| Directories.Directory.FindIndex | NachOSx64/code/filesys/directory.cc:90-97 | finds an entry in use with the same first nine characters, or answers -1 only when there is none |
| Directories.Directory.Add | NachOSx64/code/filesys/directory.cc:129-145 | succeeds exactly when the name is new and an entry is free; then the first free entry, and no other, lists the name |
| Directories.Directory.Remove | NachOSx64/code/filesys/directory.cc:153-162 | succeeds exactly when the name is listed; then exactly that entry is given up |
| Directories.EntryRoundTrip | NachOSx64/code/filesys/directory.cc:63-80 | a directory entry survives its byte layout |
| Directories.EntryLayout | NachOSx64/code/filesys/directory.cc:63-80 | in use at byte 0, the sector at bytes 4 to 7, the name at bytes 8 to 17 of the twenty |
| Directories.TableRoundTrip | NachOSx64/code/filesys/directory.cc:63-80 | a directory written to its file and fetched again is the same directory |
| DiskLayout.DirectoryFlushed | NachOSx64/code/filesys/directory.cc:76-80 | flushing the directory file changes the stored directory and neither the stored bitmap nor any header |
| DiskLayout.MapFlushed | NachOSx64/code/userprog/bitmap.cc:158-162 | flushing the bitmap file changes the stored bitmap and neither the stored directory nor any header |
| DiskLayout.CreateSound | NachOSx64/code/filesys/filesys.cc:193-208 | adding a file on free sectors keeps: marked bits are exactly the owned sectors, owners are disjoint, names unique |
| DiskLayout.RemoveSound | NachOSx64/code/filesys/filesys.cc:278-283 | dropping a file and clearing exactly its sectors keeps the ownership invariant |
| DiskLayout.HeadersKeptSound | NachOSx64/code/filesys/openfile.cc:155-181 | updates that leave headers alone keep every owner and the invariant |
| DiskLayout.HeadersApart | NachOSx64/code/filesys/filesys.cc:80-143 | no header lies among anybody's data, and the data of two files never meet |
| DiskLayout.CatalogEntry | NachOSx64/code/filesys/filesys.cc:227-246 | each listed file is found under its name with its header, content and sectors |
| DiskSteps.CreateStep | NachOSx64/code/filesys/filesys.cc:202-208 | the writes of a successful Create lead from a consistent disk to a consistent one with exactly the new file |
| DiskSteps.RemoveStep | NachOSx64/code/filesys/filesys.cc:278-283 | the writes of Remove lead to a consistent disk without the file and with exactly its sectors freed |
| DiskSteps.WriteStep | NachOSx64/code/filesys/openfile.cc:155-181 | a write through an open file keeps the disk consistent and every other file, header and bit as it was |
| DiskSteps.WriteByName | NachOSx64/code/filesys/openfile.cc:155-181 | the same for a file known by its name |
| DiskSteps.FormatStep | NachOSx64/code/filesys/filesys.cc:107-126 | formatting leaves a consistent disk without files |
| DiskSteps.SystemSizes | NachOSx64/code/filesys/filesys.cc:57-67 | on a consistent disk sector 0 has the header of the bitmap file of 128 bytes for 1024 sectors, sector 1 that of the directory file of 200 bytes for ten entries |
| DiskSteps.OwnerReleasable | NachOSx64/code/filesys/filehdr.cc:61-68 | on a consistent disk the assertion in Deallocate cannot fail for any listed file |
| DiskSteps.OwnerReleased | NachOSx64/code/filesys/filesys.cc:278-279 | deallocating the data and clearing the header frees exactly the sectors of the file |
| FileSystems.FileSystem.constructor | NachOSx64/code/filesys/filesys.cc:80-143 | formatting yields a consistent disk with no file and all but five sectors free; without it the disk is only opened |
| FileSystems.FileSystem.FormatHeaders | NachOSx64/code/filesys/filesys.cc:84-109 | sectors 0 and 1 and three data sectors are taken, and the two system headers are in place |
| FileSystems.FileSystem.Create | NachOSx64/code/filesys/filesys.cc:174-215 | on a consistent disk succeeds exactly when the name is new, an entry is free and header and data fit; a failed call leaves the disk identical; a successful one adds exactly the file, on the lowest free sectors |
| FileSystems.FileSystem.Open | NachOSx64/code/filesys/filesys.cc:227-241 | opens exactly the listed names, at position 0, with the header and content of the catalog |
| FileSystems.FileSystem.Remove | NachOSx64/code/filesys/filesys.cc:257-288 | succeeds exactly for listed names; removes the file, frees exactly its sectors, changes nothing else; the assertion in Deallocate never fires |
| FsTest.Copy | NachOSx64/code/filesys/fstest.cc:31-70 | succeeds exactly when Create does; then the file holds the host bytes, one for one, and all other files are as they were |
| FsTest.Print | NachOSx64/code/filesys/fstest.cc:77-97 | the read loop ends and prints exactly the content of the named file |
| FsTest.CopyOneMore | NachOSx64/code/filesys/fstest.cc:61-64 | one more ten-byte chunk extends the copied prefix |
| FsRuns.SectorsConserved | NachOSx64/code/filesys/filesys.cc:80-288 | free sectors plus, for every file, one header and the sectors its size calls for always make the whole disk |
| FsRuns.UsedMeansMarked | NachOSx64/code/filesys/filesys.cc:80-288 | a sector is marked exactly when some file owns it |
| FsRuns.WritesKeepPlace | NachOSx64/code/filesys/openfile.cc:141-181 | any number of writes leave headers, sectors, the bitmap and all other files as they were |
| FsRuns.TemporaryFile | NachOSx64/code/filesys/filesys.cc:174-288 | creating a file, writing it any number of times and removing it restores the catalog and the free sectors |
| FsModel.AlwaysRoom | NachOSx64/code/filesys/filesys.cc:193-202 | with files of at most 30 sectors the disk cannot fill up before the directory does |
| FsModel.EntryFree | NachOSx64/code/filesys/directory.cc:135-142 | an entry is free exactly while there are fewer than ten files |
| FsModel.CreateSucceeds | NachOSx64/code/filesys/filesys.cc:188-202 | so Create succeeds exactly when the name is new and there are fewer than ten files |
| FsModel.StepRefines | NachOSx64/code/filesys/filesys.cc:174-288 | Create, Remove and Open with WriteAt, with any name and whether they succeed or not, keep the disk consistent and do to the map from the first nine bytes of names to contents what they mean, byte for byte |
| FsModel.RunRefines | NachOSx64/code/filesys/filesys.cc:80-288 | every run of steps from a consistent disk keeps it consistent and implements that map |
| FsModel.Perform | NachOSx64/code/filesys/filesys.cc:174-288 | each call of the file system methods, successful or not, is such a step, for every name, size, position and data |
| FsModel.Execute | NachOSx64/code/filesys/filesys.cc:80-288 | any sequence of calls on any freshly formatted disk ends consistent, with the files that the calls mean, from none on |
| FsModel.TwoNames | NachOSx64/code/filesys/filesys.cc:174-241 | after any two names are created on a fresh disk: the second call succeeds exactly when the names differ within nine bytes, and Open of the second gives the file known by its first nine |
| StaleHandles.StaleWriteExact | NachOSx64/code/filesys/openfile.cc:141-181 | through a handle with any header, stale or not: every write of n bytes leaves the bitmap, the directory, all headers and all listed files as they were, exactly when no byte it may change is in use |
| StaleHandles.TouchedExact | NachOSx64/code/filesys/openfile.cc:141-181 | every such write leaves all owned sectors identical exactly when it touches none of them |
| StaleHandles.ApartIsHarmless | NachOSx64/code/filesys/openfile.cc:141-181 | touching no owned sector is enough for harmlessness |
| StaleHandles.KeptMeansSame | NachOSx64/code/filesys/filesys.cc:80-143 | with headers and contents kept the disk stays consistent, with the same bitmap, directory and catalog |
| StaleHandles.DataBecomesHeader | NachOSx64/code/filesys/filesys.cc:188-202 | after a file of one byte is removed, first fit turns its data sector into the header of one of the next two empty files |
| StaleHandles.LoseFile | NachOSx64/code/filesys/filesys.cc:227-288 | on any disk: format, create and open a file, remove it, create two empty files; one byte written through the old handle then destroys a header |
| Multiplier.AddPairs | NachOSx64/code/machine/mipssim.cc:664-667 | adding two register pairs with the carry test is exact 64-bit addition |
| Multiplier.DoublePair | NachOSx64/code/machine/mipssim.cc:671-675 | shifting a register pair left doubles it |
| Multiplier.NegatePair | NachOSx64/code/machine/mipssim.cc:679-687 | complementing both words and adding one is 64-bit negation |
| Multiplier.NextBit | NachOSx64/code/machine/mipssim.cc:671-676 | shifting both operands moves the invariant on to the next bit, also for a signed right shift |
| Multiplier.TakeBit | NachOSx64/code/machine/mipssim.cc:663-667 | adding the shifted operand takes in one more bit of the other, with no overflow of the pair |
| Multiplier.LastBit | NachOSx64/code/machine/mipssim.cc:668-669 | at the early exit, when one bit is left, the whole operand has been taken in |
| Multiplier.AllBits | NachOSx64/code/machine/mipssim.cc:662-677 | after 32 bits the whole operand has been taken in, also when it is negative as a signed number |
| Multiplier.MultiplyUnsigned | NachOSx64/code/machine/mipssim.cc:656-677 | the loop yields the product of the two operands read as unsigned numbers |
| Multiplier.Mult | NachOSx64/code/machine/mipssim.cc:634-691 | hi:lo is the exact 64-bit product, two's complement or unsigned, for all operand pairs including the most negative |
| Translation.TlbAgrees | NachOSx64/code/machine/translate.cc:178-254 | with a coherent TLB every hit gives the address or the exception of the page table |
| Translation.TouchKeepsCoherent | NachOSx64/code/machine/translate.cc:245-248 | recording use and dirty bits keeps the TLB coherent |
| Translation.AccessInBounds | NachOSx64/code/machine/translate.cc:84-254 | an aligned access stays in its page, so the bounds assertion cannot fail |
| Translation.FindIs | NachOSx64/code/machine/translate.cc:178-254 | when each exception is raised and what address is found, for a table and a TLB, in terms of the words, pages of 128 bytes and 32 frames |
| Translation.UsedRecords | NachOSx64/code/machine/translate.cc:240-254 | a successful translation sets use, and dirty if writing, in the entry the address goes through, a failed one changes nothing |
| Translation.ValueRoundTrip | NachOSx64/code/machine/translate.cc:84-161 | what a load makes of a store of the same size: the word, the low half unsigned, the low byte signed |
| Translation.Machine.Translate | NachOSx64/code/machine/translate.cc:178-254 | address or exception as specified, physical address in bounds; on success the entry found gets its use bit, and its dirty bit if writing, and nothing else in any entry changes |
| Translation.Machine.ReadMem | NachOSx64/code/machine/translate.cc:84-116 | yields the value at the translated address, leaves memory alone, and sets the use bit of the entry found alone |
| Translation.Machine.WriteMem | NachOSx64/code/machine/translate.cc:131-161 | writes the bytes at the translated address and no other byte, and sets use and dirty bits of the entry found alone; on an exception memory and entries are unchanged |
| Translation.StoreIsFlat | NachOSx64/code/machine/translate.cc:131-161 | a store through an injective page table is a store to a flat virtual memory |
| Translation.LoadIsFlat | NachOSx64/code/machine/translate.cc:84-116 | a load through the page table is a load from that memory |
| Translation.ReadAfterWrite | NachOSx64/code/machine/translate.cc:84-161 | a read at any address after a write at any address, of any sizes, through the entries with the bits the write set, from the table or a coherent TLB, sees the flat memory after the write |
| Translation.SameFind | NachOSx64/code/machine/translate.cc:178-254 | use and dirty bits make no difference to any address or exception, in a table or a TLB |
| Translation.SameVirtual | NachOSx64/code/machine/translate.cc:178-254 | nor to the memory seen through a table |
| Translation.FoundIsMapped | NachOSx64/code/machine/translate.cc:178-254 | what a coherent TLB or the table finds is the physical address of the page table |
| Translation.Machine.Perform | NachOSx64/code/machine/translate.cc:84-161 | one load or store yields what the flat memory yields, faults included, does the same to it, and records its use in the entry it went through |
| Translation.Machine.PerformAll | NachOSx64/code/machine/translate.cc:84-161 | any sequence of loads and stores, through the page table or a coherent TLB, yields and leaves what a flat memory yields and leaves; an entry ends used, or dirty, exactly when it was so at first or a successful access, or store, went through it |
| Translation.ReadBack | NachOSx64/code/machine/translate.cc:84-161 | reading what was just written gives it back |
| Translation.StoreIsPrivate | NachOSx64/code/machine/translate.cc:131-161 | spaces that share no frame do not see each other's stores |
| AddrSpaces.AddrSpace.constructor | NachOSx64/code/userprog/addrspace.cc:59-146 | the space holds code, initialised data and zeros, on frames that were free and are distinct; it has room for all three segments and 1024 bytes of stack with less than a page to spare; its entries are valid, writable and untouched; no other frame is touched |
| AddrSpaces.NoffHeader.RoomForStack | NachOSx64/code/userprog/addrspace.cc:71-74 | the pages hold all three segments and 1024 bytes of stack, with less than a page to spare |
| AddrSpaces.AddrSpace.AllocateFrames | NachOSx64/code/userprog/addrspace.cc:86-96 | every page gets a zeroed frame of its own |
| AddrSpaces.AddrSpace.LoadCode | NachOSx64/code/userprog/addrspace.cc:97-116 | the code lies at the start of the space, whether or not it ends in mid-page |
| AddrSpaces.AddrSpace.MergeData | NachOSx64/code/userprog/addrspace.cc:122-130 | the data that shares the last code page follows the code directly, also when all of it fits there |
| AddrSpaces.AddrSpace.LoadData | NachOSx64/code/userprog/addrspace.cc:117-145 | all initialised data follows the code |
| AddrSpaces.NoffHeader.PagesLeft | NachOSx64/code/userprog/addrspace.cc:117-121 | the pages counted for the rest of the data are exactly those it needs |
| AddrSpaces.NoffHeader.NextDataPage | NachOSx64/code/userprog/addrspace.cc:131-145 | each further data page starts where the one before ended and lies in the space |
| AddrSpaces.WriteInPage | NachOSx64/code/userprog/addrspace.cc:104-144 | writing in one frame is writing in the corresponding page of the space |
| AddrSpaces.LoadedImage | NachOSx64/code/userprog/addrspace.cc:59-146 | through its page table a loaded program sees its bytes and then zeros |
| AddrSpaces.SegmentsInPlace | NachOSx64/code/userprog/addrspace.cc:59-146 | with contiguous segments from address 0 code and initialised data are at their virtual addresses, for every pair of sizes |
| AddrSpaces.ZerosInPlace | NachOSx64/code/userprog/addrspace.cc:59-146 | the uninitialised segment behind them and all up to the end of the space, which includes the 1024 bytes of stack, are mapped and zero |
| Lists.InsertAt | NachOSx64/code/threads/list.h:230-254 | the insertion point is behind every key that is not greater |
| Lists.InsertAddsOne | NachOSx64/code/threads/list.h:230-254 | sorted insertion adds exactly one entry and loses none |
| Lists.InsertKeepsSorted | NachOSx64/code/threads/list.h:230-254 | sorted insertion keeps the list sorted |
| Lists.List.SortedInsert | NachOSx64/code/threads/list.h:230-254 | the linked list becomes the sorted insertion into its contents |
| Lists.List.SortedRemove | NachOSx64/code/threads/list.h:270-289 | takes off exactly the first entry, with its key, or nothing from an empty list |
| Lists.List.Walk | NachOSx64/code/threads/list.h:242-251 | the walk stops at the last element of the run of keys that are not greater |
| Lists.List.LinkAfter | NachOSx64/code/threads/list.h:244-249 | relinking in the middle keeps one chain from first to last |
| Interrupts.ScheduleSound | NachOSx64/code/machine/interrupt.cc:264-275 | scheduling keeps the queue sorted and every account of fired and waiting interrupts |
| Interrupts.FireSound | NachOSx64/code/machine/interrupt.cc:290-336 | firing the earliest entry keeps firing order, never fires early, keeps the account, and lowers the number of entries due |
| Interrupts.PutBackSound | NachOSx64/code/machine/interrupt.cc:307-319 | taking an entry off and putting it back loses nothing |
| Interrupts.PutBackGoesBehindEquals | NachOSx64/code/machine/interrupt.cc:307-319 | an entry put back comes to stand behind all its equals |
| Interrupts.PutBackKeepsOrder | NachOSx64/code/machine/interrupt.cc:307-319 | putting back keeps the order of the queue exactly when the second entry is due later |
| Interrupts.DueInsert | NachOSx64/code/machine/interrupt.cc:264-275 | a new entry counts as due only if its time has come |
| Interrupts.DueHasFired | NachOSx64/code/machine/interrupt.cc:290-336 | once nothing is due, each interrupt whose time has come has fired exactly as often as it was scheduled |
| Interrupts.ScheduledHasFired | NachOSx64/code/machine/interrupt.cc:290-336 | once nothing is due, a scheduled interrupt whose time has come is in the record of firings |
| Interrupts.Interrupt.Schedule | NachOSx64/code/machine/interrupt.cc:264-275 | the interrupt joins the queue at now plus delay, behind those due no later |
| Interrupts.Interrupt.CallHandler | NachOSx64/code/machine/interrupt.cc:328-333 | a handler that schedules any finite number of interrupts with positive delay adds nothing that is due |
| Interrupts.Interrupt.CheckIfDue | NachOSx64/code/machine/interrupt.cc:290-336 | fires the earliest interrupt or leaves everything, exactly when each happens, and how the clock moves |
| Interrupts.Interrupt.Drain | NachOSx64/code/machine/interrupt.cc:168-170 | the loop of OneTick and Idle ends, with nothing due unless only the idle timer is left |
| Interrupts.Interrupt.OneTick | NachOSx64/code/machine/interrupt.cc:150-179 | the clock advances by one system or user tick, total ticks stay the sum of the three kinds, and everything due has fired |
| Interrupts.Interrupt.SetLevel | NachOSx64/code/machine/interrupt.cc:114-127 | only turning interrupts on from off takes a tick and fires what is due |
| Interrupts.Interrupt.Idle | NachOSx64/code/machine/interrupt.cc:210-234 | halts exactly when nothing or only a timer interrupt waits; otherwise moves the clock to the earliest interrupt and fires it and all that are due |
| DiskTiming.ModuloDiffIsFirst | NachOSx64/code/machine/disk.cc:202-209 | ModuloDiff counts the slots until the sector next passes the head |
| DiskTiming.SeekIs | NachOSx64/code/machine/disk.cc:179-187 | the seek takes 500 ticks for each track between the two sectors |
| DiskTiming.BufferHolds | NachOSx64/code/machine/disk.cc:239-246 | the test on the track buffer is true exactly when some slot of the sector lies between the start of the buffer and now |
| DiskTiming.DirectIs | NachOSx64/code/machine/disk.cc:248-252 | without the buffer the transfer is the one slot of the sector within a rotation after the seek |
| DiskTiming.DirectServes | NachOSx64/code/machine/disk.cc:232-253 | without the buffer the transfer is the first slot after the seek that passes the sector, and latency is 500 to 31999 |
| DiskTiming.BufferServes | NachOSx64/code/machine/disk.cc:239-246 | a read served from the track buffer is for a sector that passed the head completely since it settled on the track |
| DiskTiming.SettledMeansStill | NachOSx64/code/machine/disk.cc:261-271 | every access since the head settled was to the track it is on |
| DiskTiming.StartsInOrder | NachOSx64/code/machine/disk.cc:115-154 | requests of a run start in order |
| DiskTiming.Disk.TimeToSeek | NachOSx64/code/machine/disk.cc:179-195 | 500 ticks for each track between the sectors, 32 sectors to a track, and the wait until the next slot begins |
| DiskTiming.Disk.ComputeLatency | NachOSx64/code/machine/disk.cc:232-253 | the access is served by a real pass of the sector; in plain numbers it takes 500 ticks exactly when a read finds its sector passed since the buffer was started, and otherwise ends with the first slot of the sector after the seek |
| DiskTiming.Disk.UpdateLast | NachOSx64/code/machine/disk.cc:261-271 | the buffer is taken to start at the first slot boundary after the seek, or stays on the same track; never after the request completes |
| DiskTiming.Disk.ReadRequest | NachOSx64/code/machine/disk.cc:115-133 | keeps the run sound, takes as long as the head, the rotation and the track buffer say, and schedules the completion for then |
| DiskTiming.Disk.WriteRequest | NachOSx64/code/machine/disk.cc:135-153 | keeps the run sound, takes as long as the head, the rotation and the track buffer say, and schedules the completion for then |
| DiskTiming.Disk.HandleInterrupt | NachOSx64/code/machine/disk.cc:161-166 | where the completion has fired, the request ends no earlier than its completion time, and the run stays sound |
| DiskTiming.Disk.Tick | NachOSx64/code/machine/interrupt.cc:150-179 | a tick of the clock keeps the run and the request in progress |
| DiskTiming.Disk.Serve | NachOSx64/code/machine/disk.cc:115-166 | one request from start to end: the clock reaches the completion, it has fired, not early, and the disk is ready for the next request with the run one longer |
| Synch.Semaphore.P | NachOSx64/code/threads/synch.cc:62-73 | one round of the loop: takes a unit, or queues the thread and sleeps exactly when there is none; its queue gains at most a new element |
| Synch.Semaphore.V | NachOSx64/code/threads/synch.cc:83-93 | adds a unit and wakes the longest sleeper; its queue gains no element |
| Synch.Lock.Acquire | NachOSx64/code/threads/synch.cc:131-140 | one round of the loop: takes a free lock and records the owner, or queues and sleeps; its queue gains at most a new element |
| Synch.Lock.Release | NachOSx64/code/threads/synch.cc:143-151 | frees the lock and wakes the longest sleeper; the owner stays recorded; its queue gains no element |
| Synch.Condition.Wait | NachOSx64/code/threads/synch.cc:173-177 | one round of the loop: sleeps while busy, otherwise makes the condition busy; its queue gains at most a new element |
| Synch.Condition.Signal | NachOSx64/code/threads/synch.cc:183-193 | a holder of the lock wakes the longest waiter and makes the condition not busy; with no waiter, or without the lock, nothing happens |
| Synch.SignalNeedsHolder | NachOSx64/code/threads/synch.cc:183-193 | a signal wakes somebody exactly when its caller holds the lock and somebody waits, and otherwise changes nothing |
| Synch.SignalsLetOnePass | NachOSx64/code/threads/synch.cc:170-193 | of the waiters that n signals in a row wake, the first gets through and the others wait again, so signals are kept exactly when there is one |
| Synch.SemStepKeepsSound | NachOSx64/code/threads/synch.cc:62-93 | every step keeps conservation of units and the no-lost-wake-up invariant |
| Synch.SemaphoreRuns | NachOSx64/code/threads/synch.cc:62-93 | in every run value is initial plus V minus P and not negative, and a nonempty queue means at most as many units as woken threads still to test |
| Synch.SemaphoreIsFifo | NachOSx64/code/threads/synch.cc:62-93 | in every run the threads that slept are those woken, in the order in which they went to sleep, and then those in the queue |
| Synch.RunSemaphore | NachOSx64/code/threads/synch.cc:62-93 | any legal run of P and V done on a semaphore object ends in the state of the run and wakes the sleepers in order |
| Synch.LockStepKeepsSound | NachOSx64/code/threads/synch.cc:131-151 | every step keeps mutual exclusion and the no-lost-wake-up invariant |
| Synch.LockRuns | NachOSx64/code/threads/synch.cc:131-151 | in every run in which only holders release, at most the recorded owner is inside, and sleepers at a free lock mean a woken thread |
| Synch.LockIsFifo | NachOSx64/code/threads/synch.cc:131-151 | the same order for the sleepers of a lock |
| Synch.RunLock | NachOSx64/code/threads/synch.cc:131-151 | any legal run of Acquire and Release done on a lock object ends in the state of the run and wakes the sleepers in order |
| Synch.HeldIsExactWhileHeld | NachOSx64/code/threads/synch.cc:154-156 | isHeldByCurrentThread is right for every thread exactly while the lock is held or has never been taken |
| Synch.HeldIsExact | NachOSx64/code/threads/synch.cc:154-156 | it is right for a thread exactly when that thread is not the one whose release is the last change of the holder in the trace |
| Synch.OwnerFollowsTrace | NachOSx64/code/threads/synch.cc:131-151 | the recorded owner and the availability follow from the last completed acquire and the release after it |
| Synch.HeldOutlivesRelease | NachOSx64/code/threads/synch.cc:143-156 | after a release the former holder is still reported as holder |
| SynchDiskProtocol.StepKeepsSound | NachOSx64/code/filesys/synchdisk.cc:72-109 | every step of any thread, and the interrupt, keeps the protocol invariant |
| SynchDiskProtocol.StepKeepsFlight | NachOSx64/code/filesys/synchdisk.cc:72-109 | disk and threads agree with what the trace says of the last request |
| SynchDiskProtocol.SoundAlways | NachOSx64/code/filesys/synchdisk.cc:72-109 | the invariant holds in every run of any number of threads |
| SynchDiskProtocol.RequestFindsDiskIdle | NachOSx64/code/machine/disk.cc:119-139 | the assertion that the disk is not active never fires, so at most one request is outstanding |
| SynchDiskProtocol.ReturnMeansCompleted | NachOSx64/code/filesys/synchdisk.cc:72-97 | a call returns only after its own request, the last one made, has completed |
| SynchDiskProtocol.SemaphoreZeroWhenFree | NachOSx64/code/filesys/synchdisk.cc:72-109 | while the lock is free the semaphore is 0 and the disk idle |
| SynchDiskProtocol.NeverStuck | NachOSx64/code/filesys/synchdisk.cc:72-109 | while a call is in progress some step other than a new call is possible |
| DiningPh.DiningPhilosophers.TestPhilosopher | NachOSx64/code/threads/diningph.cc:46-56 | the state array and the condition change as the model of test says, and the right thread is woken |
| DiningPh.DiningPhilosophers.PutForksDown | NachOSx64/code/threads/diningph.cc:33-40 | the part of putdown between taking and releasing the lock: left neighbour, then right |
| DiningPh.TestApart | NachOSx64/code/threads/diningph.cc:46-56 | test never lets two neighbours eat |
| DiningPh.TestEach | NachOSx64/code/threads/diningph.cc:46-56 | test wakes exactly the philosopher it lets eat, if that one waits |
| DiningPh.WaitSound | NachOSx64/code/threads/synch.cc:170-180 | waiting releases the lock and sleeps in one step |
| DiningPh.ComeBackSound | NachOSx64/code/threads/synch.cc:170-180 | a signalled philosopher finds its condition not busy and goes for the lock |
| DiningPh.ForksDownBlocks | NachOSx64/code/threads/diningph.cc:33-42 | only the neighbours of one who stops eating can lose what blocks them |
| DiningPh.StepKeepsSound | NachOSx64/code/threads/diningph.cc:19-56 | every step of every philosopher keeps the invariant |
| DiningPh.SoundAlways | NachOSx64/code/threads/diningph.cc:19-56 | the invariant holds in every run, also that each condition has at most its own philosopher waiting |
| DiningPh.NoTwoNeighboursEat | NachOSx64/code/threads/diningph.cc:46-56 | in every reachable state no two neighbours eat |
| DiningPh.HungryHasEatingNeighbour | NachOSx64/code/threads/diningph.cc:19-56 | whenever the monitor is free every hungry philosopher has an eating neighbour |
| DiningPh.PickupReturnsEating | NachOSx64/code/threads/diningph.cc:19-30 | pickup returns only with the caller eating |
| DiningPh.NeverStuck | NachOSx64/code/threads/diningph.cc:19-56 | while somebody is not resting, somebody not resting can take a step |
| Schedulers.Scheduler.FindNextToRun | NachOSx64/code/threads/scheduler.cc:70-74 | takes the first ready thread off the list |
| Schedulers.Scheduler.Yield | NachOSx64/code/threads/thread.cc:210-224 | with a ready thread the first of the list becomes current and RUNNING and the yielding one READY and last; with none ready nothing changes |
| Schedulers.Scheduler.Sleep | NachOSx64/code/threads/thread.cc:245-259 | the running thread is BLOCKED and the first ready thread runs, after idling if there was none; statuses of all other threads stay |
| Schedulers.StepKeepsSound | NachOSx64/code/threads/scheduler.cc:53-107 | exactly the current thread is RUNNING and READY means on the list exactly once, after every step |
| Schedulers.NextChanges | NachOSx64/code/threads/scheduler.cc:53-107 | what each event does to current thread, ready list and every status |
| Schedulers.SoundAlways | NachOSx64/code/threads/scheduler.cc:53-107 | the same in every run of forks, wake-ups, yields and sleeps |
| Schedulers.RunScheduler | NachOSx64/code/threads/scheduler.cc:53-107 | any legal run of events done on a scheduler object ends in the state of the run |
| Schedulers.StepMovesUp | NachOSx64/code/threads/scheduler.cc:53-107 | each dispatch moves every ready thread one place up |
| Schedulers.FirstComeFirstServed | NachOSx64/code/threads/scheduler.cc:53-107 | the thread at place k of the ready list is the one picked by dispatch k + 1 from then on |
| Schedulers.LeavesOnlyBySleep | NachOSx64/code/threads/thread.cc:210-259 | in every run a thread that runs or is ready goes on so until it sleeps itself |
| Schedulers.YielderComesBack | NachOSx64/code/threads/thread.cc:210-224 | a thread that yields to n ready ones is picked by the n-th dispatch after that |
| Schedulers.WokenComesUp | NachOSx64/code/threads/scheduler.cc:53-60 | a thread forked or woken behind n ready ones is picked after them |
| Maps.InsertTable | NachOSx64/code/vm/Map.hpp:50-60 | inserting a new key adds exactly that pair and keeps keys unique |
| Maps.RemoveTable | NachOSx64/code/vm/Map.hpp:64-74 | removing a key takes away exactly its pair and keeps keys unique |
| Maps.Map.Find | NachOSx64/code/vm/Map.hpp:40-45 | operator[] refers to the first slot of the key, or to the unused slot behind the last |
| Maps.Map.Insert | NachOSx64/code/vm/Map.hpp:50-60 | the pair comes last, and a full map doubles its capacity and keeps its entries |
| Maps.Map.Grow | NachOSx64/code/vm/Map.hpp:51-57 | reallocation keeps every entry |
| Maps.Map.Remove | NachOSx64/code/vm/Map.hpp:64-74 | exactly the first entry of the key goes and the others keep their order |
| BackingStores.PageInConserves | NachOSx64/code/vm/BackingStore.cpp:7-28 | the exchange conserves every managed page's content exactly when the page put out may be written, keeps frames unshared and the keys equal to the swapped-out pages |
| BackingStores.PageOutConserves | NachOSx64/code/vm/BackingStore.cpp:30-44 | the same for putting a page out |
| BackingStores.ExchangedIs | NachOSx64/code/vm/BackingStore.cpp:7-28 | the exchange byte for byte: both entries valid and used, the frame handed over, its old bytes in the store if the page may be written |
| BackingStores.PutAwayIs | NachOSx64/code/vm/BackingStore.cpp:30-44 | the write-out byte for byte: the entry without a frame, its bytes in the store and the frame blank if the page may be written |
| BackingStores.ContentIsSeen | NachOSx64/code/vm/BackingStore.cpp:7-28 | what a page holds in its frame is what its addresses show through the page table |
| BackingStores.BackingStore.PageIn | NachOSx64/code/vm/BackingStore.cpp:7-28 | the page brought in gets the frame and its stored content, the store gains the page put out and loses the one brought in, both entries are valid and used, contents are conserved |
| BackingStores.BackingStore.PageOut | NachOSx64/code/vm/BackingStore.cpp:30-44 | the frame is freed in the bitmap, its content goes to the store, contents are conserved |
| BackingStores.BackingStore.ExchangeAll | NachOSx64/code/vm/BackingStore.cpp:7-28 | any sequence of exchanges of pages that may be written conserves the content of every page |
| HotPotato.InitialCycle | TareasProgramadas/TP1/PThreads/src/Simulacion.cpp:120-133 | main builds one cycle under siguiente with anterior as its inverse, for both rotations and any number of players |
| HotPotato.RotateCycle | TareasProgramadas/TP1/PThreads/src/Simulacion.cpp:80-82 | passing the baton keeps the cycle |
| HotPotato.UnlinkCycle | TareasProgramadas/TP1/PThreads/src/Simulacion.cpp:69-77 | a loser that unlinks itself leaves one cycle of the others |
| HotPotato.FollowVisits | TareasProgramadas/TP1/PThreads/src/Simulacion.cpp:80-82 | without an explosion the baton visits every member in ring order and comes back |
| HotPotato.CambiarPapaIs | TareasProgramadas/TP1/PThreads/src/Simulacion.cpp:33-41 | an odd value is tripled and gains one, an even one is halved, and 1 comes from 2 alone |
| HotPotato.Game.constructor | TareasProgramadas/TP1/PThreads/src/Simulacion.cpp:111-133 | each player is followed by the next one round the circle in the direction of rotacion; the ring of all players is a cycle and nobody has the baton |
| HotPotato.Game.Start | TareasProgramadas/TP1/PThreads/src/Simulacion.cpp:135-141 | main's one signal makes exactly one baton |
| HotPotato.Game.Pass | TareasProgramadas/TP1/PThreads/src/Simulacion.cpp:80-82 | the baton goes to siguiente and to nobody else |
| HotPotato.Game.Lose | TareasProgramadas/TP1/PThreads/src/Simulacion.cpp:54-79 | the loser leaves, the others still form one cycle, and exactly one baton goes on |
| HotPotato.Game.Play | TareasProgramadas/TP1/PThreads/src/Simulacion.cpp:51-83 | one round: a player stops exactly when alone or at value 2; exactly one baton until the winner stops, losers and winner accounted for, and a winner only when it was the last one live |

## Left out

- FileHeaders.FileHeader.Allocate: sizes above 30 sectors or below 0 are not modelled, because the original then writes behind the header's 30 pointers.
- FileSystems.FileSystem.Create: sizes from 0 to 30*128, for the reason given for Allocate.
- FsTest.Copy: host files of at most 30*128 bytes, for the reason given for Allocate.
- OpenFiles.OpenFile.ReadAt: a negative position is not modelled; no caller uses one, and the original then copies from in front of its buffer.
- OpenFiles.OpenFile.WriteAt: a negative position is not modelled, as for ReadAt.
- OpenFiles.OpenFile.Read: a negative seek position is not modelled, as for ReadAt.
- OpenFiles.OpenFile.Write: a negative seek position is not modelled, as for ReadAt.
- FsModel.Execute: every write opens its file by name; a handle kept over a Remove is the subject of `StaleHandles`.
- Crash recovery and concurrent file-system calls: the source disclaims both (NachOSx64/code/filesys/filesys.cc:33-40).
- DiskLayout.DirectoryFlushed: the bytes of padding in an entry are written as zeros, where the original writes whatever the memory held.
- Maps.Map.Find: a missing key in a full map reads past the arrays in the original and is not modelled.
- Maps.Map.Remove: called for keys in the map only, since the original does not stop at the end of the map.
- BackingStores.BackingStore.Remove: called for stored pages only, since the original does not stop at the end of the map.
- BackingStores.BackingStore.PageIn: the buffers are values, so the new and delete of their memory are not modelled.
- AddrSpaces.AddrSpace.constructor: reading the NOFF header, its magic number and byte swapping are not modelled; noff.h is not part of this model.
- The AddrSpace copy constructor and destructor: the reference count is per object, so shared frames are not conserved.
- The page-fault handling of addrspaceVM: its bookkeeping does not keep bitmap and store in step, so only the store and its map are modelled.
- Translation.Machine.Translate: the exception raised in the user program is the result; system-call dispatch is left out.
- MIPS instructions other than the multiplier: OR, SRL and SRLV as written do not compute the MIPS result.
- Interrupts.Interrupt.OneTick: the threads that run during the yield at the end are not part of the call.
- Schedulers.Scheduler.Sleep: idling is given by the threads its interrupts wake; Finish and the freeing of threads and stacks are left out.
- Synch.SignalsLetOnePass: the woken threads test in the order they were woken, with no other thread at the condition in between.
- Broadcast, Mutex, SynchList and Barrier: the loop of Broadcast is inverted and Barrier releases one thread too many, so nothing is claimed.
- SynchDiskProtocol.NeverStuck: a woken thread can be overtaken at the lock again and again, so no bound on waiting is claimed.
- SynchDisks.SynchDisk.ReadSector: the buffer is filled at once, as the simulated disk does; which thread runs meanwhile is the subject of SynchDiskProtocol.
- Statistics counters other than ticks, debug output, host files, sockets, the console, the network and command lines.
- HotPotato.Game.Play: the overflow of the potato's value is not modelled, and no game is claimed to end, which depends on Collatz and random values.
- The baboon monitor and the other variants of the ring game: smaller versions of what is covered.
