/** Each disk update of the file system, as a step between consistent disks. */
module DiskSteps {
  import opened Bytes
  import opened DiskImage
  import opened BitMaps
  import opened FileHeaders
  import opened OpenFiles
  import opened Directories
  import opened DiskLayout

  lemma SystemUntouched(img: Image, img': Image, changed: set<int>)
    requires SystemFiles(img) && SameOutside(img, img', changed)
    requires changed !! {FREE_MAP_SECTOR, DIRECTORY_SECTOR} + SystemData(img)
    ensures SystemFiles(img') && DirIn(img') == DirIn(img) && MapIn(img') == MapIn(img)
    ensures HeaderAt(img', FREE_MAP_SECTOR) == HeaderAt(img, FREE_MAP_SECTOR)
    ensures HeaderAt(img', DIRECTORY_SECTOR) == HeaderAt(img, DIRECTORY_SECTOR)
  {
    hide DecodeHeader, Flat, DecodeTable, DecodeMap;
    FlatFrame(img, img', HeaderAt(img, FREE_MAP_SECTOR));
    FlatFrame(img, img', HeaderAt(img, DIRECTORY_SECTOR));
  }

  /** Owners 0 and 1 are the system files. */
  lemma SystemOwned(img: Image)
    requires Consistent(img)
    ensures forall k | 0 <= k < NUM_OWNERS :: GoodOwner(img, DirIn(img), k)
    ensures Owned(img, DirIn(img), 0) + Owned(img, DirIn(img), 1)
            == {FREE_MAP_SECTOR, DIRECTORY_SECTOR} + SystemData(img)
    ensures forall k | 2 <= k < NUM_OWNERS ::
              Owned(img, DirIn(img), k) !! {FREE_MAP_SECTOR, DIRECTORY_SECTOR} + SystemData(img)
  {
    hide DecodeHeader, UniqueNames, DirIn, BitsIn;
    assert GoodOwner(img, DirIn(img), 0) && GoodOwner(img, DirIn(img), 1);
  }

  lemma FreeSectorApart(img: Image, s: int)
    requires Consistent(img) && 0 <= s < NUM_SECTORS && !BitsIn(img)[s]
    ensures s !in {FREE_MAP_SECTOR, DIRECTORY_SECTOR} + SystemData(img)
    ensures forall k | 0 <= k < NUM_OWNERS :: GoodOwner(img, DirIn(img), k) && s !in Owned(img, DirIn(img), k)
  {
    hide DecodeHeader, DirIn, BitsIn;
    SystemOwned(img);
  }

  /** Header sectors survive any change confined to one free sector and the data of the system files. */
  lemma HeadersSurvive(img: Image, img': Image, table: seq<DirectoryEntry>, changed: set<int>)
    requires Consistent(img) && table == DirIn(img) && SameOutside(img, img', changed + SystemData(img))
    requires forall k, s | 0 <= k < NUM_OWNERS && s in changed :: GoodOwner(img, table, k) && s !in Owned(img, table, k)
    ensures HeadersKept(img, img', table, -1)
  {
    hide DecodeHeader, DirIn, BitsIn;
    SystemOwned(img);
    forall k | 0 <= k < NUM_OWNERS && Live(table, k)
      ensures HeaderSector(table, k) !in changed + SystemData(img)
    {
      assert HeaderSector(table, k) in Owned(img, table, k);
      HeadersApart(img, table, BitsIn(img), k, 0);
      HeadersApart(img, table, BitsIn(img), k, 1);
    }
  }

  /** A file whose sectors are all untouched is the same afterwards. */
  lemma InfoKept(img: Image, img': Image, table: seq<DirectoryEntry>, table': seq<DirectoryEntry>, i: int,
      changed: set<int>)
    requires |table| == |table'| == NUM_DIR_ENTRIES && 0 <= i < NUM_DIR_ENTRIES
    requires table[i].inUse && table'[i] == table[i] && GoodOwner(img, table, i + 2) && GoodOwner(img', table', i + 2)
    requires SameOutside(img, img', changed) && changed !! Owned(img, table, i + 2)
    ensures InfoAt(img', table', i) == InfoAt(img, table, i)
  {
    hide DecodeHeader, Flat;
    var h := HeaderAt(img, table[i].sector);
    assert table[i].sector in Owned(img, table, i + 2);
    assert forall s <- h.Data() :: s in Owned(img, table, i + 2);
    FlatFrame(img, img', h);
  }

  /** The catalog depends only on the files that are listed. */
  lemma CatalogMatches(img: Image, table: seq<DirectoryEntry>, bits: seq<bool>, files: map<CString, FileInfo>)
    requires Sound(img, table, bits)
    requires Names(table) == files.Keys
    requires forall i | 0 <= i < NUM_DIR_ENTRIES && table[i].inUse ::
               GoodOwner(img, table, i + 2) && EntryKey(table[i]) in files
               && files[EntryKey(table[i])] == InfoAt(img, table, i)
    ensures CatalogOf(img, table, bits) == files
  {
    hide EntryKey, InfoAt, GoodOwner;
    forall k | k in Names(table)
      ensures CatalogOf(img, table, bits)[k] == files[k]
    {
      var i := IndexOf(table, k);
      CatalogEntry(img, table, bits, i);
    }
  }

  lemma NamesAdded(table: seq<DirectoryEntry>, i: int, e: DirectoryEntry)
    requires 0 <= i < |table| && !table[i].inUse && e.inUse
    ensures Names(table[i := e]) == Names(table) + {EntryKey(e)}
  {
    hide EntryKey;
    var table' := table[i := e];
    assert table'[i] == e;
    forall k | k in Names(table)
      ensures k in Names(table')
    {
      var j :| 0 <= j < |table| && table[j].inUse && EntryKey(table[j]) == k;
      assert table'[j] == table[j];
    }
    forall k | k in Names(table')
      ensures k in Names(table) + {EntryKey(e)}
    {
      var j :| 0 <= j < |table'| && table'[j].inUse && EntryKey(table'[j]) == k;
      if j != i {
        assert table'[j] == table[j];
      }
    }
  }

  lemma NamesRemoved(table: seq<DirectoryEntry>, i: int)
    requires UniqueNames(table) && 0 <= i < |table| && table[i].inUse
    ensures Names(table[i := table[i].(inUse := false)]) == Names(table) - {EntryKey(table[i])}
  {
    hide EntryKey;
    var table' := table[i := table[i].(inUse := false)];
    forall k | k in Names(table) - {EntryKey(table[i])}
      ensures k in Names(table')
    {
      var j :| 0 <= j < |table| && table[j].inUse && EntryKey(table[j]) == k;
      assert table'[j] == table[j];
    }
    forall k | k in Names(table')
      ensures k in Names(table) - {EntryKey(table[i])}
    {
      var j :| 0 <= j < |table'| && table'[j].inUse && EntryKey(table'[j]) == k;
      assert j != i && table'[j] == table[j];
    }
  }

  /** Create: the header, then the directory, then the bitmap reach the disk. */
  lemma CreateStep(img: Image, img1: Image, img2: Image, img3: Image,
                   i: int, e: DirectoryEntry, name: CString, h: Header, words: seq<bv32>)
    requires Consistent(img) && 0 <= i < NUM_DIR_ENTRIES
    requires Added(DirIn(img), DirIn(img)[i := e], i, e, name, e.sector)
    requires forall j | 0 <= j < NUM_DIR_ENTRIES :: !Lists(DirIn(img), j, NameKey(name))
    requires 0 <= e.sector < NUM_SECTORS && !BitsIn(img)[e.sector]
    requires h.Good() && |words| == NUM_SECTORS / BITS_IN_WORD
    requires Marked(BitsIn(img)[e.sector := true], BitsOf(words, NUM_SECTORS), h.Data())
    requires HeaderAt(img1, e.sector) == h && SameOutside(img, img1, {e.sector})
    requires Written(img1, img2, HeaderAt(img, DIRECTORY_SECTOR), 0, EncodeTable(DirIn(img)[i := e]))
    requires Written(img2, img3, HeaderAt(img, FREE_MAP_SECTOR), 0, EncodeMap(words))
    ensures Created(img, img3, NameKey(name), h.numBytes) && MapIn(img3) == words
    ensures HeaderAt(img3, FREE_MAP_SECTOR) == HeaderAt(img, FREE_MAP_SECTOR)
    ensures HeaderAt(img3, DIRECTORY_SECTOR) == HeaderAt(img, DIRECTORY_SECTOR)
  {
    hide DecodeHeader, Flat, DirIn, MapIn, BitsOf, Written, EncodeTable, EncodeMap, EntryKey, NameKey, Header.Good;
    var table, bits, bits' := DirIn(img), BitsIn(img), BitsOf(words, NUM_SECTORS);
    var table', changed := table[i := e], {e.sector as int};
    FreeSectorApart(img, e.sector);
    SystemUntouched(img, img1, changed);
    DirectoryFlushed(img1, img2, table');
    MapFlushed(img2, img3, words);
    assert SameOutside(img, img3, changed + SystemData(img));
    HeadersSurvive(img, img3, table, changed);
    CreateSound(img, img3, table, bits, bits', i, e, name, h);
    NotListed(table, NameKey(name));
    CreateCatalog(img, img3, table, bits, i, e, bits');
  }

  lemma CreateCatalog(img: Image, img': Image, table: seq<DirectoryEntry>, bits: seq<bool>,
                      i: int, e: DirectoryEntry, bits': seq<bool>)
    requires Consistent(img) && table == DirIn(img) && bits == BitsIn(img)
    requires 0 <= i < NUM_DIR_ENTRIES && !table[i].inUse && e.inUse && EntryKey(e) !in Names(table)
    requires 0 <= e.sector < NUM_SECTORS && !bits[e.sector]
    requires SameOutside(img, img', {e.sector as int} + SystemData(img))
    requires Sound(img', table[i := e], bits')
    ensures GoodOwner(img', table[i := e], i + 2)
    ensures CatalogOf(img', table[i := e], bits')
      == CatalogOf(img, table, bits)[EntryKey(e) := InfoAt(img', table[i := e], i)]
  {
    hide DecodeHeader, Flat, DirIn, MapIn, BitsOf, EntryKey;
    var table', files := table[i := e], CatalogOf(img, table, bits);
    var changed := {e.sector as int} + SystemData(img);
    assert GoodOwner(img', table', i + 2);
    FreeSectorApart(img, e.sector);
    SystemOwned(img);
    NamesAdded(table, i, e);
    forall j | 0 <= j < NUM_DIR_ENTRIES && table'[j].inUse
      ensures GoodOwner(img', table', j + 2)
      ensures EntryKey(table'[j]) in Names(table')
      ensures files[EntryKey(e) := InfoAt(img', table', i)][EntryKey(table'[j])] == InfoAt(img', table', j)
    {
      CatalogEntry(img', table', bits', j);
      if j != i {
        CatalogEntry(img, table, bits, j);
        InfoKept(img, img', table, table', j, changed);
      }
    }
    CatalogMatches(img', table', bits', files[EntryKey(e) := InfoAt(img', table', i)]);
  }

  /** Remove: the bitmap, then the directory reach the disk. */
  lemma RemoveStep(img: Image, img1: Image, img2: Image, i: int, words: seq<bv32>)
    requires Consistent(img) && 0 <= i < NUM_DIR_ENTRIES && DirIn(img)[i].inUse
    requires |words| == NUM_SECTORS / BITS_IN_WORD && GoodOwner(img, DirIn(img), i + 2)
    requires Marked(BitsOf(words, NUM_SECTORS), BitsIn(img), Owned(img, DirIn(img), i + 2))
    requires Written(img, img1, HeaderAt(img, FREE_MAP_SECTOR), 0, EncodeMap(words))
    requires Written(img1, img2, HeaderAt(img, DIRECTORY_SECTOR), 0,
                     EncodeTable(DirIn(img)[i := DirIn(img)[i].(inUse := false)]))
    ensures Removed(img, img2, EntryKey(DirIn(img)[i]))
    ensures HeaderAt(img2, FREE_MAP_SECTOR) == HeaderAt(img, FREE_MAP_SECTOR)
    ensures HeaderAt(img2, DIRECTORY_SECTOR) == HeaderAt(img, DIRECTORY_SECTOR)
  {
    hide DecodeHeader, Flat, DirIn, MapIn, BitsOf, Written, EncodeTable, EncodeMap, EntryKey, Header.Good;
    var table, bits, bits' := DirIn(img), BitsIn(img), BitsOf(words, NUM_SECTORS);
    var table' := table[i := table[i].(inUse := false)];
    MapFlushed(img, img1, words);
    DirectoryFlushed(img1, img2, table');
    assert SameOutside(img, img2, {} + SystemData(img));
    HeadersSurvive(img, img2, table, {});
    RemoveSound(img, img2, table, bits, bits', i);
    RemoveCatalog(img, img2, table, bits, i, bits');
    CatalogEntry(img, table, bits, i);
  }

  lemma RemoveCatalog(img: Image, img': Image, table: seq<DirectoryEntry>, bits: seq<bool>, i: int, bits': seq<bool>)
    requires Consistent(img) && table == DirIn(img) && bits == BitsIn(img)
    requires 0 <= i < NUM_DIR_ENTRIES && table[i].inUse
    requires SameOutside(img, img', SystemData(img))
    requires Sound(img', table[i := table[i].(inUse := false)], bits')
    ensures CatalogOf(img', table[i := table[i].(inUse := false)], bits')
      == CatalogOf(img, table, bits) - {EntryKey(table[i])}
  {
    hide DecodeHeader, Flat, DirIn, MapIn, BitsOf, EntryKey;
    var table', files := table[i := table[i].(inUse := false)], CatalogOf(img, table, bits) - {EntryKey(table[i])};
    SystemOwned(img);
    NamesRemoved(table, i);
    forall j | 0 <= j < NUM_DIR_ENTRIES && table'[j].inUse
      ensures GoodOwner(img', table', j + 2)
      ensures EntryKey(table'[j]) in Names(table')
      ensures files[EntryKey(table'[j])] == InfoAt(img', table', j)
    {
      CatalogEntry(img', table', bits', j);
      CatalogEntry(img, table, bits, j);
      InfoKept(img, img', table, table', j, SystemData(img));
    }
    CatalogMatches(img', table', bits', files);
  }

  /** A write through an open file: bitmap, directory and all other files are untouched. */
  lemma WriteStep(img: Image, img': Image, i: int, position: int, data: seq<byte>)
    requires Consistent(img) && 0 <= i < NUM_DIR_ENTRIES && DirIn(img)[i].inUse && GoodOwner(img, DirIn(img), i + 2)
    requires Written(img, img', InfoAt(img, DirIn(img), i).header, position, data)
    ensures Rewritten(img, img', EntryKey(DirIn(img)[i]), position, data)
    ensures HeaderAt(img', FREE_MAP_SECTOR) == HeaderAt(img, FREE_MAP_SECTOR)
    ensures HeaderAt(img', DIRECTORY_SECTOR) == HeaderAt(img, DIRECTORY_SECTOR)
  {
    hide DecodeHeader, Flat, DirIn, MapIn, BitsOf, EntryKey, Header.Good;
    var table, bits := DirIn(img), BitsIn(img);
    var h := InfoAt(img, table, i).header;
    assert SameOutside(img, img', h.Data()) by {
      TouchedIsData(h, position, |data|);
    }
    SystemOwned(img);
    assert h.Data() <= Owned(img, table, i + 2);
    SystemUntouched(img, img', h.Data());
    forall k | 0 <= k < NUM_OWNERS && Live(table, k)
      ensures HeaderSector(table, k) !in h.Data()
    {
      HeadersApart(img, table, bits, k, i + 2);
    }
    HeadersKeptSound(img, img', table, bits);
    WriteCatalog(img, img', table, bits, i, position, data);
    CatalogEntry(img, table, bits, i);
  }

  lemma WriteCatalog(img: Image, img': Image, table: seq<DirectoryEntry>, bits: seq<bool>, i: int, position: int,
      data: seq<byte>)
    requires Sound(img, table, bits) && Sound(img', table, bits)
    requires 0 <= i < NUM_DIR_ENTRIES && table[i].inUse && GoodOwner(img, table, i + 2)
    requires img'[table[i].sector] == img[table[i].sector]
    requires Written(img, img', InfoAt(img, table, i).header, position, data)
    ensures var info := InfoAt(img, table, i);
            CatalogOf(img', table, bits)
            == CatalogOf(img, table, bits)[
              EntryKey(table[i]) := info.(content := Overlay(info.content, position, data))]
  {
    hide DecodeHeader, Flat, EntryKey, Header.Good;
    var info := InfoAt(img, table, i);
    var after := info.(content := Overlay(info.content, position, data));
    var files := CatalogOf(img, table, bits)[EntryKey(table[i]) := after];
    assert SameOutside(img, img', info.header.Data()) by {
      TouchedIsData(info.header, position, |data|);
    }
    assert info.header.Data() <= Owned(img, table, i + 2);
    CatalogEntry(img, table, bits, i);
    forall j | 0 <= j < NUM_DIR_ENTRIES && table[j].inUse
      ensures GoodOwner(img', table, j + 2)
      ensures EntryKey(table[j]) in Names(table)
      ensures files[EntryKey(table[j])] == InfoAt(img', table, j)
    {
      CatalogEntry(img', table, bits, j);
      CatalogEntry(img, table, bits, j);
      if j != i {
        assert Owned(img, table, i + 2) !! Owned(img, table, j + 2);
        InfoKept(img, img', table, table, j, info.header.Data());
      }
    }
    CatalogMatches(img', table, bits, files);
  }

  // ---- facts for the operations themselves ----

  lemma SystemSizes(img: Image)
    requires Consistent(img)
    ensures SystemFiles(img)
    ensures HeaderAt(img, 0).numBytes == 128 == FREE_MAP_FILE_SIZE
    ensures HeaderAt(img, 1).numBytes == 200 == DIRECTORY_FILE_SIZE
    ensures |BitsIn(img)| == 1024 && |DirIn(img)| == 10
  {
  }

  /** An entry found in the directory is a file of the catalog, with a proper header. */
  lemma ListedMeansNamed(img: Image, k: CString)
    requires Consistent(img)
    ensures forall i | Lists(DirIn(img), i, k) ::
              k in Catalog(img) && GoodOwner(img, DirIn(img), i + 2) && 0 <= DirIn(img)[i].sector < NUM_SECTORS
    ensures (forall i | 0 <= i < NUM_DIR_ENTRIES :: !Lists(DirIn(img), i, k)) ==> k !in Catalog(img)
  {
    hide DecodeHeader, DirIn, BitsIn, EntryKey, InfoAt;
    var table := DirIn(img);
    forall i | Lists(table, i, k)
      ensures k in Catalog(img) && GoodOwner(img, table, i + 2)
    {
      CatalogEntry(img, table, BitsIn(img), i);
    }
    if forall i | 0 <= i < NUM_DIR_ENTRIES :: !Lists(table, i, k) {
      NotListed(table, k);
    }
  }

  /** The sectors of a listed file are all marked, so that Deallocate may clear them. */
  lemma OwnerReleasable(img: Image, i: int)
    requires Consistent(img) && 0 <= i < NUM_DIR_ENTRIES && DirIn(img)[i].inUse
    ensures GoodOwner(img, DirIn(img), i + 2)
    ensures forall s <- Owned(img, DirIn(img), i + 2) :: 0 <= s < NUM_SECTORS && BitsIn(img)[s]
    ensures HeaderAt(img, DirIn(img)[i].sector).Good()
    ensures forall s <- HeaderAt(img, DirIn(img)[i].sector).Data() :: 0 <= s < NUM_SECTORS && BitsIn(img)[s]
  {
    hide DecodeHeader, DirIn, BitsIn, EntryKey;
    assert GoodOwner(img, DirIn(img), i + 2);
    forall s <- Owned(img, DirIn(img), i + 2)
      ensures 0 <= s < NUM_SECTORS && BitsIn(img)[s]
    {
      MarkedMeansOwned(img, DirIn(img), BitsIn(img), i + 2, s);
    }
  }

  lemma OwnerReleased(img: Image, i: int, bits1: seq<bool>, bits': seq<bool>)
    requires Consistent(img) && 0 <= i < NUM_DIR_ENTRIES && DirIn(img)[i].inUse && GoodOwner(img, DirIn(img), i + 2)
    requires Marked(bits1, BitsIn(img), HeaderAt(img, DirIn(img)[i].sector).Data())
    requires bits' == bits1[DirIn(img)[i].sector := false]
    ensures Marked(bits', BitsIn(img), Owned(img, DirIn(img), i + 2))
  {
    hide DecodeHeader, DirIn, BitsIn, EntryKey;
    OwnerReleasable(img, i);
    assert DirIn(img)[i].sector in Owned(img, DirIn(img), i + 2);
  }

  lemma {:induction false} CountClearNone(n: nat)
    ensures CountClear(seq(n, _ => false)) == n
  {
    if n > 0 {
      CountClearNone(n - 1);
      assert seq(n, _ => false)[..n - 1] == seq(n - 1, _ => false);
    }
  }

  lemma ReservedCount(bits: seq<bool>)
    requires bits == seq(NUM_SECTORS, _ => false)[FREE_MAP_SECTOR := true][DIRECTORY_SECTOR := true]
    ensures CountClear(bits) == NUM_SECTORS - 2
  {
    var clear := seq(NUM_SECTORS, _ => false);
    CountClearNone(NUM_SECTORS);
    CountClearMark(clear, FREE_MAP_SECTOR);
    CountClearMark(clear[FREE_MAP_SECTOR := true], DIRECTORY_SECTOR);
  }

  /** The bits after Mark(0), Mark(1) and the allocation of the two system files. */
  ghost predicate FormattedBits(img: Image, bits0: seq<bool>, bits1: seq<bool>, bits2: seq<bool>) {
    var mapHdr, dirHdr := HeaderAt(img, FREE_MAP_SECTOR), HeaderAt(img, DIRECTORY_SECTOR);
    && bits0 == seq(NUM_SECTORS, _ => false)[FREE_MAP_SECTOR := true][DIRECTORY_SECTOR := true]
    && mapHdr.Good() && mapHdr.numBytes == FREE_MAP_FILE_SIZE && Marked(bits0, bits1, mapHdr.Data())
    && dirHdr.Good() && dirHdr.numBytes == DIRECTORY_FILE_SIZE && Marked(bits1, bits2, dirHdr.Data())
  }

  lemma HeadersFormatted(img: Image, bits0: seq<bool>, bits1: seq<bool>, bits2: seq<bool>)
    requires FormattedBits(img, bits0, bits1, bits2)
    ensures SystemFiles(img)
  {
    hide DecodeHeader, Header.Good, Header.Data;
    assert bits0[FREE_MAP_SECTOR] && bits0[DIRECTORY_SECTOR];
    assert bits1[FREE_MAP_SECTOR] && bits1[DIRECTORY_SECTOR];
  }

  lemma FormatStep(img: Image, img1: Image, img2: Image, words: seq<bv32>, table: seq<DirectoryEntry>,
                   bits0: seq<bool>, bits1: seq<bool>)
    requires |words| == NUM_SECTORS / BITS_IN_WORD
    requires FormattedBits(img, bits0, bits1, BitsOf(words, NUM_SECTORS)) && SystemFiles(img)
    requires |table| == NUM_DIR_ENTRIES && forall i | 0 <= i < |table| :: !table[i].inUse
    requires Written(img, img1, HeaderAt(img, FREE_MAP_SECTOR), 0, EncodeMap(words))
    requires Written(img1, img2, HeaderAt(img, DIRECTORY_SECTOR), 0, EncodeTable(table))
    ensures Consistent(img2) && Catalog(img2) == map[] && MapIn(img2) == words
    ensures HeaderAt(img2, FREE_MAP_SECTOR) == HeaderAt(img, FREE_MAP_SECTOR)
    ensures HeaderAt(img2, DIRECTORY_SECTOR) == HeaderAt(img, DIRECTORY_SECTOR)
  {
    hide DecodeHeader, Flat, DirIn, MapIn, BitsOf, Written, EncodeTable, EncodeMap, EntryKey, Header.Good, Header.Data;
    MapFlushed(img, img1, words);
    DirectoryFlushed(img1, img2, table);
    var bits := BitsOf(words, NUM_SECTORS);
    assert Owned(img2, table, 0) == {FREE_MAP_SECTOR} + HeaderAt(img, FREE_MAP_SECTOR).Data();
    assert Owned(img2, table, 1) == {DIRECTORY_SECTOR} + HeaderAt(img, DIRECTORY_SECTOR).Data();
    forall b | 0 <= b < NUM_SECTORS
      ensures bits[b] <==> b in Owned(img2, table, 0) + Owned(img2, table, 1)
    {
      assert bits0[b] <==> b == FREE_MAP_SECTOR || b == DIRECTORY_SECTOR;
    }
    assert forall k | 2 <= k < NUM_OWNERS :: GoodOwner(img2, table, k) && Owned(img2, table, k) == {};
    assert Sound(img2, table, bits);
  }

  lemma CreatedIsConsistent(img: Image, img': Image, k: CString, size: int)
    requires Created(img, img', k, size)
    ensures Consistent(img')
  {
  }

  lemma RemovedIsConsistent(img: Image, img': Image, k: CString)
    requires Removed(img, img', k)
    ensures Consistent(img')
  {
  }

  lemma ListedOnce(img: Image, i: int, k: CString)
    requires Consistent(img) && Lists(DirIn(img), i, k)
    ensures forall j | Lists(DirIn(img), j, k) :: j == i
  {
  }

  /** WriteStep for a file known by its name. */
  lemma WriteByName(img: Image, img': Image, k: CString, position: int, data: seq<byte>)
    requires Consistent(img) && k in Catalog(img)
    requires Written(img, img', Catalog(img)[k].header, position, data)
    ensures Rewritten(img, img', k, position, data)
    ensures HeaderAt(img', FREE_MAP_SECTOR) == HeaderAt(img, FREE_MAP_SECTOR)
    ensures HeaderAt(img', DIRECTORY_SECTOR) == HeaderAt(img, DIRECTORY_SECTOR)
  {
    hide DecodeHeader, DirIn, BitsIn, EntryKey, Written, Rewritten;
    var i := IndexOf(DirIn(img), k);
    CatalogEntry(img, DirIn(img), BitsIn(img), i);
    WriteStep(img, img', i, position, data);
  }

  lemma RewrittenIsConsistent(img: Image, img': Image, k: CString, position: int, data: seq<byte>)
    requires Rewritten(img, img', k, position, data)
    ensures Consistent(img')
  {
  }

  /** In the catalog, a header and a content belong together. */
  lemma HeaderMatchesContent(img: Image, k: CString)
    requires Consistent(img) && k in Catalog(img)
    ensures Catalog(img)[k].header.Good() && Catalog(img)[k].content == Flat(img, Catalog(img)[k].header)
    ensures |Catalog(img)[k].content| == Catalog(img)[k].header.numBytes
  {
    hide DecodeHeader, DirIn, BitsIn, EntryKey, Flat, Header.Good;
    var i := IndexOf(DirIn(img), k);
    CatalogEntry(img, DirIn(img), BitsIn(img), i);
  }

  lemma CreatedSize(img: Image, img': Image, k: CString, size: int)
    requires Created(img, img', k, size)
    ensures k in Catalog(img') && |Catalog(img')[k].content| == size
    ensures Catalog(img') == Catalog(img)[k := Catalog(img')[k]]
  {
    hide Consistent, Catalog;
    HeaderMatchesContent(img', k);
  }
}
