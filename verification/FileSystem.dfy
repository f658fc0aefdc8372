/** Format, Create, Open and Remove, as written against the bitmap, the directory and open files. */
module FileSystems {
  import opened Bytes
  import opened DiskImage
  import opened SynchDisks
  import opened BitMaps
  import opened FileHeaders
  import opened OpenFiles
  import opened Directories
  import opened DiskLayout
  import opened DiskSteps

  /** BitMap::FetchFrom. */
  method FetchMap(freeMap: BitMap, file: OpenFile)
    requires freeMap.Valid() && file.Valid() && file.hdr.numBytes == 4 * freeMap.words.Length
    modifies freeMap.words
    ensures freeMap.words[..] == DecodeMap(old(file.Content()))
  {
    hide DecodeMap, Flat, Transfer, Slice;
    WholeFile(file.Content());
    var buffer := new byte[4 * freeMap.words.Length];
    var n := file.ReadAt(buffer, 0, 4 * freeMap.words.Length, 0);
    assert buffer[..] == file.Content();
    var words := DecodeMap(buffer[..]);
    forall i | 0 <= i < freeMap.words.Length {
      freeMap.words[i] := words[i];
    }
  }

  /** BitMap::WriteBack. */
  method WriteBackMap(freeMap: BitMap, file: OpenFile)
    requires freeMap.Valid() && file.Valid() && file.hdr.numBytes == 4 * freeMap.words.Length
    modifies file.disk
    ensures Written(old(file.disk.image), file.disk.image, file.hdr.Value(), 0, EncodeMap(freeMap.words[..]))
  {
    hide EncodeMap, Written;
    var bytes := EncodeMap(freeMap.words[..]);
    var n := file.WriteAt(bytes, 4 * freeMap.words.Length, 0);
    assert bytes[..n] == bytes;
  }

  /** When Create can succeed: a new name, an unused directory entry, and room for header and data. */
  ghost predicate CanCreate(img: Image, name: CString, size: int)
    requires Consistent(img) && size >= 0
  {
    && name !in Catalog(img)
    && (exists i | 0 <= i < NUM_DIR_ENTRIES :: !DirIn(img)[i].inUse)
    && 1 + DivRoundUp(size, SECTOR_SIZE) <= CountClear(BitsIn(img))
  }

  lemma BitsOfMap(img: Image)
    requires SystemFiles(img)
    ensures BitsIn(img) == BitsOf(MapIn(img), NUM_SECTORS)
  {
  }

  /** Header and data of a new file are the lowest free sectors. */
  lemma CreatedFirstFit(img: Image, img': Image, k: CString, size: int, sector: int, data: set<int>)
    requires Created(img, img', k, size) && 0 <= sector < NUM_SECTORS
    requires !BitsIn(img)[sector] && forall b | 0 <= b < sector :: BitsIn(img)[b]
    requires Marked(BitsIn(img)[sector := true], BitsIn(img'), data) && FirstFit(BitsIn(img'), data)
    ensures FirstFit(BitsIn(img'), Sectors(Catalog(img')[k]))
  {
    hide Consistent, Catalog, BitsIn, Sectors;
    var sectors := Sectors(Catalog(img')[k]);
    forall s | s in sectors
      ensures s == sector || s in data
    {
    }
  }

  class FileSystem {
    const disk: SynchDisk
    const freeMapFile: OpenFile
    const directoryFile: OpenFile

    ghost predicate Valid()
      reads disk, freeMapFile.hdr, freeMapFile.hdr.dataSectors, directoryFile.hdr, directoryFile.hdr.dataSectors
    {
      && freeMapFile.disk == disk == directoryFile.disk
      && freeMapFile.Valid() && directoryFile.Valid()
      && Consistent(disk.image)
      && freeMapFile.hdr.Value() == HeaderAt(disk.image, FREE_MAP_SECTOR)
      && directoryFile.hdr.Value() == HeaderAt(disk.image, DIRECTORY_SECTOR)
    }

    /** Marks the two reserved sectors and allocates the data of bitmap and directory. */
    static method TakeSystemSectors(freeMap: BitMap, mapHdr: FileHeader, dirHdr: FileHeader)
        returns (ghost bits0: seq<bool>, ghost bits1: seq<bool>)
      requires freeMap.Valid() && freeMap.numBits == NUM_SECTORS && freeMap.Bits() == seq(NUM_SECTORS, _ => false)
      requires mapHdr.Valid() && dirHdr.Valid() && mapHdr != dirHdr && mapHdr.dataSectors != dirHdr.dataSectors
      requires freeMap.words as object != mapHdr.dataSectors && freeMap.words as object != dirHdr.dataSectors
      modifies freeMap.words, mapHdr, mapHdr.dataSectors, dirHdr, dirHdr.dataSectors
      ensures bits0 == seq(NUM_SECTORS, _ => false)[FREE_MAP_SECTOR := true][DIRECTORY_SECTOR := true]
      ensures mapHdr.Value().Good() && mapHdr.numBytes == FREE_MAP_FILE_SIZE
      ensures dirHdr.Value().Good() && dirHdr.numBytes == DIRECTORY_FILE_SIZE
      ensures Marked(bits0, bits1, mapHdr.Value().Data()) && Marked(bits1, freeMap.Bits(), dirHdr.Value().Data())
      ensures CountClear(freeMap.Bits()) == NUM_SECTORS - 5
    {
      hide CountClear, BitsOf, Header.Good, Header.Data, Marked, FirstFit;
      freeMap.Mark(FREE_MAP_SECTOR);
      freeMap.Mark(DIRECTORY_SECTOR);
      bits0 := freeMap.Bits();
      ReservedCount(bits0);
      var ok := mapHdr.Allocate(freeMap, FREE_MAP_FILE_SIZE);
      assert ok;
      bits1 := freeMap.Bits();
      ok := dirHdr.Allocate(freeMap, DIRECTORY_FILE_SIZE);
      assert ok;
    }

    /** The formatting half of the constructor, up to writing the two headers. */
    static method FormatHeaders(disk: SynchDisk)
        returns (freeMap: BitMap, directory: Directory, ghost bits0: seq<bool>, ghost bits1: seq<bool>)
      modifies disk
      ensures fresh(freeMap) && fresh(freeMap.words) && freeMap.Valid() && freeMap.numBits == NUM_SECTORS
      ensures fresh(directory) && fresh(directory.table) && directory.table.Length == NUM_DIR_ENTRIES
      ensures forall i | 0 <= i < NUM_DIR_ENTRIES :: !directory.table[i].inUse
      ensures FormattedBits(disk.image, bits0, bits1, freeMap.Bits())
      ensures CountClear(freeMap.Bits()) == NUM_SECTORS - 5
    {
      hide DecodeHeader, CountClear, BitsOf, Header.Good, Header.Data, Marked, FirstFit;
      freeMap := new BitMap(NUM_SECTORS);
      directory := new Directory(NUM_DIR_ENTRIES);
      var mapHdr := new FileHeader();
      var dirHdr := new FileHeader();
      bits0, bits1 := TakeSystemSectors(freeMap, mapHdr, dirHdr);
      mapHdr.WriteBack(disk, FREE_MAP_SECTOR);
      dirHdr.WriteBack(disk, DIRECTORY_SECTOR);
    }

    /** With format set, lays an empty file system over whatever is on the disk. */
    constructor (disk: SynchDisk, format: bool)
      requires format || Consistent(disk.image)
      modifies disk
      ensures Valid() && this.disk == disk
      ensures fresh(freeMapFile) && fresh(freeMapFile.hdr) && fresh(freeMapFile.hdr.dataSectors)
      ensures fresh(directoryFile) && fresh(directoryFile.hdr) && fresh(directoryFile.hdr.dataSectors)
      ensures format ==> Catalog(disk.image) == map[] && CountClear(BitsIn(disk.image)) == NUM_SECTORS - 5
      ensures !format ==> disk.image == old(disk.image)
    {
      hide DecodeHeader, CountClear, BitsOf, Header.Good, FormattedBits, Sound, Written, EncodeMap, EncodeTable;
      this.disk := disk;
      if format {
        var freeMap, directory, bits0, bits1 := FormatHeaders(disk);
        ghost var img := disk.image;
        HeadersFormatted(img, bits0, bits1, freeMap.Bits());
        var mapFile := new OpenFile(disk, FREE_MAP_SECTOR);
        var dirFile := new OpenFile(disk, DIRECTORY_SECTOR);
        WriteBackMap(freeMap, mapFile);
        ghost var img1 := disk.image;
        directory.WriteBack(dirFile);
        FormatStep(img, img1, disk.image, freeMap.words[..], directory.table[..], bits0, bits1);
        freeMapFile, directoryFile := mapFile, dirFile;
      } else {
        SystemSizes(disk.image);
        var mapFile := new OpenFile(disk, FREE_MAP_SECTOR);
        var dirFile := new OpenFile(disk, DIRECTORY_SECTOR);
        freeMapFile, directoryFile := mapFile, dirFile;
      }
    }

    /** new Directory(NumDirEntries), then FetchFrom. */
    method LoadDirectory() returns (directory: Directory)
      requires Valid()
      ensures fresh(directory) && fresh(directory.table) && directory.table[..] == DirIn(disk.image)
    {
      hide DecodeTable, DecodeHeader, Flat, Sound;
      directory := new Directory(NUM_DIR_ENTRIES);
      directory.FetchFrom(directoryFile);
    }

    /** new BitMap(NumSectors), then FetchFrom. */
    method LoadMap() returns (freeMap: BitMap)
      requires Valid()
      ensures fresh(freeMap) && fresh(freeMap.words) && freeMap.Valid() && freeMap.numBits == NUM_SECTORS
      ensures freeMap.words[..] == MapIn(disk.image) && freeMap.Bits() == BitsIn(disk.image)
    {
      hide DecodeMap, DecodeHeader, Flat, Sound, BitsOf;
      freeMap := new BitMap(NUM_SECTORS);
      FetchMap(freeMap, freeMapFile);
    }

    /** The end of Create: everything worked, flush all changes back to disk. */
    method FlushCreated(hdr: FileHeader, directory: Directory, freeMap: BitMap, sector: int32, name: CString,
                        ghost i: int, ghost e: DirectoryEntry)
      requires Valid() && hdr.Valid() && freeMap.Valid() && freeMap.numBits == NUM_SECTORS
      requires 0 <= sector < NUM_SECTORS && !BitsIn(disk.image)[sector] && hdr.Value().Good()
      requires forall j | 0 <= j < NUM_DIR_ENTRIES :: !Lists(DirIn(disk.image), j, NameKey(name))
      requires Added(DirIn(disk.image), directory.table[..], i, e, name, sector)
      requires Marked(BitsIn(disk.image)[sector := true], freeMap.Bits(), hdr.Value().Data())
      modifies disk
      ensures Valid() && Created(old(disk.image), disk.image, NameKey(name), hdr.numBytes)
      ensures BitsIn(disk.image) == freeMap.Bits()
    {
      hide DecodeHeader, DirIn, BitsIn, EntryKey, NameKey, BitsOf, Marked, EncodeMap, EncodeTable, Written, Created,
        Header.Good;
      ghost var img := disk.image;
      SystemSizes(img);
      hdr.WriteBack(disk, sector);
      ghost var img1 := disk.image;
      directory.WriteBack(directoryFile);
      ghost var img2 := disk.image;
      WriteBackMap(freeMap, freeMapFile);
      CreateStep(img, img1, img2, disk.image, i, e, name, hdr.Value(), freeMap.words[..]);
      CreatedIsConsistent(img, disk.image, NameKey(name), hdr.numBytes);
      BitsOfMap(disk.image);
    }

    method Create(name: CString, initialSize: int32) returns (success: bool)
      requires Valid() && 0 <= initialSize <= NUM_DIRECT * SECTOR_SIZE
      modifies disk
      ensures Valid()
      ensures success <==> old(CanCreate(disk.image, NameKey(name), initialSize))
      ensures !success ==> disk.image == old(disk.image)
      ensures success ==> Created(old(disk.image), disk.image, NameKey(name), initialSize)
      ensures success ==> FirstFit(BitsIn(disk.image), Sectors(Catalog(disk.image)[NameKey(name)]))
    {
      hide DecodeHeader, DirIn, BitsIn, EntryKey, NameKey, BitsOf, Marked, CountClear, FirstFit, Created,
        Header.Good, Header.Data;
      hide Consistent, Catalog;
      ghost var img := disk.image;
      SystemSizes(img);
      var directory := LoadDirectory();
      ListedMeansNamed(img, NameKey(name));
      var known := directory.Find(name);
      if known != -1 {
        return false;
      }
      var freeMap := LoadMap();
      CountClearZero(BitsIn(img));
      var sector := freeMap.Find();
      if sector == -1 {
        return false;
      }
      CountClearMark(BitsIn(img), sector);
      var added := directory.Add(name, sector);
      if !added {
        return false;
      }
      ghost var i, e :| Added(DirIn(img), directory.table[..], i, e, name, sector);
      success := AllocateAndFlush(directory, freeMap, sector, name, initialSize, i, e);
    }

    /** The part of Create once name and header sector are entered. */
    method AllocateAndFlush(directory: Directory, freeMap: BitMap, sector: int32, name: CString, initialSize: int32,
                            ghost i: int, ghost e: DirectoryEntry) returns (success: bool)
      requires Valid() && freeMap.Valid() && freeMap.numBits == NUM_SECTORS
      requires 0 <= initialSize <= NUM_DIRECT * SECTOR_SIZE && 0 <= sector < NUM_SECTORS
      requires !BitsIn(disk.image)[sector] && forall b | 0 <= b < sector :: BitsIn(disk.image)[b]
      requires freeMap.Bits() == BitsIn(disk.image)[sector := true]
      requires forall j | 0 <= j < NUM_DIR_ENTRIES :: !Lists(DirIn(disk.image), j, NameKey(name))
      requires Added(DirIn(disk.image), directory.table[..], i, e, name, sector)
      requires directory.table as object != freeMap.words
      modifies disk, freeMap.words
      ensures Valid() && (!success ==> disk.image == old(disk.image))
      ensures success <==> DivRoundUp(initialSize, SECTOR_SIZE) <= CountClear(old(freeMap.Bits()))
      ensures success ==> Created(old(disk.image), disk.image, NameKey(name), initialSize)
      ensures success ==> FirstFit(BitsIn(disk.image), Sectors(Catalog(disk.image)[NameKey(name)]))
    {
      hide DecodeHeader, DirIn, BitsIn, EntryKey, NameKey, BitsOf, Marked, CountClear, FirstFit, Created;
      hide Header.Good, Header.Data, Consistent, Catalog, Added, Lists;
      ghost var img := disk.image;
      var hdr := new FileHeader();
      success := hdr.Allocate(freeMap, initialSize);
      if success {
        FlushCreated(hdr, directory, freeMap, sector, name, i, e);
        CreatedFirstFit(img, disk.image, NameKey(name), initialSize, sector, hdr.Value().Data());
      }
    }

    method Open(name: CString) returns (openFile: OpenFile?)
      requires Valid()
      ensures openFile == null <==> NameKey(name) !in Catalog(disk.image)
      ensures openFile != null ==>
                && fresh(openFile) && fresh(openFile.hdr) && fresh(openFile.hdr.dataSectors)
                && openFile.disk == disk && openFile.Valid() && openFile.seekPosition == 0
                && openFile.hdr.Value() == Catalog(disk.image)[NameKey(name)].header
                && openFile.Content() == Catalog(disk.image)[NameKey(name)].content
    {
      hide DecodeTable, DecodeHeader, Flat, EntryKey, NameKey;
      ghost var img := disk.image;
      ghost var table := DirIn(img);
      SystemOwned(img);
      var directory := new Directory(NUM_DIR_ENTRIES);
      directory.FetchFrom(directoryFile);
      assert directory.table[..] == table;
      var sector := directory.Find(name);
      openFile := null;
      if sector >= 0 {
        ghost var i :| Lists(table, i, NameKey(name)) && sector == table[i].sector;
        CatalogEntry(img, table, BitsIn(img), i);
        openFile := new OpenFile(disk, sector);
      } else {
        forall i | 0 <= i < NUM_DIR_ENTRIES
          ensures !Lists(table, i, NameKey(name))
        {
          assert GoodOwner(img, table, i + 2);
        }
        NotListed(table, NameKey(name));
      }
    }

    /** The end of Remove: flush bitmap and directory. */
    method FlushRemoved(freeMap: BitMap, directory: Directory, ghost i: int)
      requires Valid() && freeMap.Valid() && freeMap.numBits == NUM_SECTORS
      requires 0 <= i < NUM_DIR_ENTRIES && DirIn(disk.image)[i].inUse && GoodOwner(disk.image, DirIn(disk.image), i + 2)
      requires Marked(freeMap.Bits(), BitsIn(disk.image), Owned(disk.image, DirIn(disk.image), i + 2))
      requires directory.table[..] == DirIn(disk.image)[i := DirIn(disk.image)[i].(inUse := false)]
      modifies disk
      ensures Valid() && Removed(old(disk.image), disk.image, EntryKey(old(DirIn(disk.image))[i]))
    {
      hide DecodeHeader, DirIn, BitsIn, EntryKey, BitsOf, Marked, EncodeMap, EncodeTable, Written, Removed, Header.Good;
      hide GoodOwner, Owned;
      ghost var img := disk.image;
      SystemSizes(img);
      WriteBackMap(freeMap, freeMapFile);
      ghost var img1 := disk.image;
      directory.WriteBack(directoryFile);
      RemoveStep(img, img1, disk.image, i, freeMap.words[..]);
      RemovedIsConsistent(img, disk.image, EntryKey(DirIn(img)[i]));
    }

    /** The part of Remove that frees the data blocks and the header block. */
    method ReleaseSectors(sector: int, ghost i: int) returns (freeMap: BitMap)
      requires Valid() && 0 <= i < NUM_DIR_ENTRIES && DirIn(disk.image)[i].inUse
      requires sector == DirIn(disk.image)[i].sector && 0 <= sector < NUM_SECTORS
      requires GoodOwner(disk.image, DirIn(disk.image), i + 2)
      ensures fresh(freeMap) && fresh(freeMap.words) && freeMap.Valid() && freeMap.numBits == NUM_SECTORS
      ensures Marked(freeMap.Bits(), BitsIn(disk.image), Owned(disk.image, DirIn(disk.image), i + 2))
    {
      hide DecodeHeader, DirIn, BitsIn, MapIn, BitsOf, Marked, Header.Good, Header.Data, Consistent, Owned, GoodOwner;
      hide SystemFiles;
      ghost var img := disk.image;
      SystemSizes(img);
      var fileHdr := new FileHeader();
      fileHdr.FetchFrom(disk, sector);
      freeMap := LoadMap();
      OwnerReleasable(img, i);
      fileHdr.Deallocate(freeMap);
      ghost var bits1 := freeMap.Bits();
      freeMap.Clear(sector);
      OwnerReleased(img, i, bits1, freeMap.Bits());
    }

    method Remove(name: CString) returns (removed: bool)
      requires Valid()
      modifies disk
      ensures Valid()
      ensures removed <==> NameKey(name) in old(Catalog(disk.image))
      ensures !removed ==> disk.image == old(disk.image)
      ensures removed ==> Removed(old(disk.image), disk.image, NameKey(name))
    {
      hide DecodeHeader, DirIn, BitsIn, MapIn, EntryKey, NameKey, BitsOf, Marked, Removed, Header.Good, Header.Data;
      hide Consistent, Catalog, Owned, GoodOwner, SystemFiles, UniqueNames;
      ghost var img := disk.image;
      SystemSizes(img);
      ghost var table := DirIn(img);
      var directory := LoadDirectory();
      ListedMeansNamed(img, NameKey(name));
      var sector := directory.Find(name);
      if sector == -1 {
        return false;
      }
      ghost var i :| Lists(table, i, NameKey(name)) && sector == table[i].sector;
      var freeMap := ReleaseSectors(sector, i);
      ListedOnce(img, i, NameKey(name));
      var gone := directory.Remove(name);
      FlushRemoved(freeMap, directory, i);
      return true;
    }
  }
}
