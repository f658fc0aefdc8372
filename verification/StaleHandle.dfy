/** A handle outlives its file: what a write through it may destroy, and when it is harmless. */
module StaleHandles {
  import opened Bytes
  import opened DiskImage
  import opened SynchDisks
  import opened BitMaps
  import opened FileHeaders
  import opened OpenFiles
  import opened Directories
  import opened DiskLayout
  import opened DiskSteps
  import opened FileSystems
  import opened FsModel
  import opened FsRuns

  // ---- the bytes that matter, and the bytes that a write may change ----

  /** Byte o of sector s belongs to the header in sector hs or to the content of its file. */
  ghost predicate UsedBy(img: Image, hs: int, s: int, o: int)
    requires 0 <= hs < NUM_SECTORS && HeaderAt(img, hs).Good()
  {
    s == hs || exists j | 0 <= j < HeaderAt(img, hs).numSectors ::
      HeaderAt(img, hs).pointers[j] == s && j * SECTOR_SIZE + o < HeaderAt(img, hs).numBytes
  }

  /** Byte o of sector s belongs to the bitmap, the directory, a listed file or one of their headers. */
  ghost predicate Used(img: Image, table: seq<DirectoryEntry>, s: int, o: int)
    requires |table| == NUM_DIR_ENTRIES
  {
    exists k | 0 <= k < NUM_OWNERS :: UsedByOwner(img, table, k, s, o)
  }

  ghost predicate UsedByOwner(img: Image, table: seq<DirectoryEntry>, k: int, s: int, o: int)
    requires |table| == NUM_DIR_ENTRIES && 0 <= k < NUM_OWNERS
  {
    Live(table, k) && GoodOwner(img, table, k) && UsedBy(img, HeaderSector(table, k), s, o)
  }

  /**
   * A write of n bytes from position on may change a byte of a sector it touches that lies in
   * the range, or behind the last byte of the file.
   */
  ghost predicate MayChange(h: Header, position: int, n: nat, s: int, o: int)
    requires h.Good() && position >= 0 && (n > 0 ==> position + n <= h.numBytes)
  {
    n > 0 && exists j | position / SECTOR_SIZE <= j <= (position + n - 1) / SECTOR_SIZE ::
      h.pointers[j] == s && (position <= j * SECTOR_SIZE + o < position + n || h.numBytes <= j * SECTOR_SIZE + o)
  }

  /** The headers and contents of the bitmap, the directory and all listed files are as they were. */
  ghost predicate Kept(img: Image, img': Image, table: seq<DirectoryEntry>)
    requires |table| == NUM_DIR_ENTRIES
  {
    forall k | 0 <= k < NUM_OWNERS && Live(table, k) && GoodOwner(img, table, k) ::
      KeptOwner(img, img', HeaderSector(table, k))
  }

  ghost predicate KeptOwner(img: Image, img': Image, hs: int)
    requires 0 <= hs < NUM_SECTORS && HeaderAt(img, hs).Good()
  {
    img'[hs] == img[hs] && Flat(img', HeaderAt(img, hs)) == Flat(img, HeaderAt(img, hs))
  }

  lemma OtherBytesStay(img: Image, img': Image, h: Header, position: int, data: seq<byte>, s: int, o: int)
    requires Written(img, img', h, position, data) && 0 <= s < NUM_SECTORS && 0 <= o < SECTOR_SIZE
    requires !MayChange(h, position, |data|, s, o)
    ensures img'[s][o] == img[s][o]
  {
    hide Header.Data;
    if s in Touched(h, position, |data|) {
      var j :| |data| > 0 && position / SECTOR_SIZE <= j <= (position + |data| - 1) / SECTOR_SIZE && h.pointers[j] == s;
      var k := j * SECTOR_SIZE + o;
      assert k / SECTOR_SIZE == j && k % SECTOR_SIZE == o;
      assert ByteAt(img', h, k) == Flat(img', h)[k] && ByteAt(img, h, k) == Flat(img, h)[k];
    }
  }

  lemma HarmlessOwner(img: Image, img': Image, hs: int)
    requires 0 <= hs < NUM_SECTORS && HeaderAt(img, hs).Good()
    requires forall s, o | 0 <= s < NUM_SECTORS && 0 <= o < SECTOR_SIZE && UsedBy(img, hs, s, o) ::
      img'[s][o] == img[s][o]
    ensures KeptOwner(img, img', hs)
  {
    var h := HeaderAt(img, hs);
    hide DecodeHeader;
    assert forall o | 0 <= o < SECTOR_SIZE :: UsedBy(img, hs, hs, o);
    forall i | 0 <= i < h.numBytes
      ensures ByteAt(img', h, i) == ByteAt(img, h, i)
    {
      var j, o := i / SECTOR_SIZE, i % SECTOR_SIZE;
      assert h.pointers[j] == h.pointers[j] && j * SECTOR_SIZE + o < h.numBytes;
      assert UsedBy(img, hs, h.pointers[j], o);
    }
  }

  function Flipped(img: Image, s: int, o: int): Image
    requires 0 <= s < NUM_SECTORS && 0 <= o < SECTOR_SIZE
  {
    img[s := img[s][o := if img[s][o] == 0 then 1 else 0]]
  }

  /** Changing one byte that a write may change is such a write, of data that is otherwise there already. */
  lemma FlipIsWrite(img: Image, h: Header, position: int, n: nat, s: int, o: int)
    requires h.Good() && position >= 0 && (n > 0 ==> position + n <= h.numBytes)
    requires 0 <= s < NUM_SECTORS && 0 <= o < SECTOR_SIZE && MayChange(h, position, n, s, o)
    ensures Written(img, Flipped(img, s, o), h, position, Slice(Flat(Flipped(img, s, o), h), position, n))
  {
    var img' := Flipped(img, s, o);
    var data := Slice(Flat(img', h), position, n);
    var j :| position / SECTOR_SIZE <= j <= (position + n - 1) / SECTOR_SIZE && h.pointers[j] == s
      && (position <= j * SECTOR_SIZE + o < position + n || h.numBytes <= j * SECTOR_SIZE + o);
    assert s in Touched(h, position, n);
    assert SameOutside(img, img', Touched(h, position, n));
    SliceIsFlat(img', h, position, n);
    hide MayChange, Touched, SameOutside, Flat, ByteAt, Flipped;
    forall k | 0 <= k < h.numBytes
      ensures ByteAt(img', h, k) == if position <= k < position + |data| then data[k - position] else ByteAt(img, h, k)
    {
      if !(position <= k < position + n) {
        FlipMisses(img, h, s, o, j, k);
      }
    }
    OverlayByBytes(img, img', h, position, data);
  }

  lemma SliceIsFlat(img: Image, h: Header, position: int, n: nat)
    requires h.Good() && position >= 0 && (n > 0 ==> position + n <= h.numBytes)
    ensures var data := Slice(Flat(img, h), position, n);
      |data| == n && forall k | position <= k < position + n :: data[k - position] == ByteAt(img, h, k)
  {
  }

  lemma FlipMisses(img: Image, h: Header, s: int, o: int, j: int, k: int)
    requires h.Good() && 0 <= s < NUM_SECTORS && 0 <= o < SECTOR_SIZE && 0 <= j < h.numSectors && h.pointers[j] == s
    requires 0 <= k < h.numBytes && k != j * SECTOR_SIZE + o
    ensures ByteAt(Flipped(img, s, o), h, k) == ByteAt(img, h, k)
  {
    var i := k / SECTOR_SIZE;
    assert i == j || h.pointers[i] != h.pointers[j];
  }

  lemma FlipShows(img: Image, hs: int, s: int, o: int)
    requires 0 <= hs < NUM_SECTORS && HeaderAt(img, hs).Good()
    requires 0 <= s < NUM_SECTORS && 0 <= o < SECTOR_SIZE && UsedBy(img, hs, s, o)
    ensures !KeptOwner(img, Flipped(img, s, o), hs)
  {
    var img' := Flipped(img, s, o);
    hide DecodeHeader;
    assert img'[s][o] != img[s][o];
    if s != hs {
      var h := HeaderAt(img, hs);
      var j :| 0 <= j < h.numSectors && h.pointers[j] == s && j * SECTOR_SIZE + o < h.numBytes;
      var i := j * SECTOR_SIZE + o;
      assert i / SECTOR_SIZE == j && i % SECTOR_SIZE == o;
      assert Flat(img', h)[i] == ByteAt(img', h, i) && Flat(img, h)[i] == ByteAt(img, h, i);
    }
  }

  /** No byte in use is one that the write may change. */
  ghost predicate Harmless(img: Image, table: seq<DirectoryEntry>, h: Header, position: int, n: nat)
    requires |table| == NUM_DIR_ENTRIES && h.Good() && position >= 0 && (n > 0 ==> position + n <= h.numBytes)
  {
    forall s, o | 0 <= s < NUM_SECTORS && 0 <= o < SECTOR_SIZE && MayChange(h, position, n, s, o) ::
      !Used(img, table, s, o)
  }

  /**
   * For a handle with any header, stale or not: every write of n bytes leaves bitmap,
   * directory, headers and listed files as they were, exactly when no byte in use may change.
   */
  lemma StaleWriteExact(img: Image, table: seq<DirectoryEntry>, h: Header, position: int, n: nat)
    requires |table| == NUM_DIR_ENTRIES && h.Good() && position >= 0 && (n > 0 ==> position + n <= h.numBytes)
    ensures (forall data, img' | |data| == n && Written(img, img', h, position, data) :: Kept(img, img', table))
      <==> Harmless(img, table, h, position, n)
  {
    hide Harmless, Written, Kept;
    if Harmless(img, table, h, position, n) {
      forall data, img' | |data| == n && Written(img, img', h, position, data)
        ensures Kept(img, img', table)
      {
        HarmlessKeeps(img, img', table, h, position, data);
      }
    } else {
      HarmExists(img, table, h, position, n);
    }
  }

  lemma HarmlessKeeps(img: Image, img': Image, table: seq<DirectoryEntry>, h: Header, position: int, data: seq<byte>)
    requires |table| == NUM_DIR_ENTRIES && Written(img, img', h, position, data)
    requires Harmless(img, table, h, position, |data|)
    ensures Kept(img, img', table)
  {
    forall k | 0 <= k < NUM_OWNERS && Live(table, k) && GoodOwner(img, table, k)
      ensures KeptOwner(img, img', HeaderSector(table, k))
    {
      var hs := HeaderSector(table, k);
      hide Written, MayChange, KeptOwner, UsedBy, DecodeHeader, Header.Good;
      forall s, o | 0 <= s < NUM_SECTORS && 0 <= o < SECTOR_SIZE && UsedBy(img, hs, s, o)
        ensures img'[s][o] == img[s][o]
      {
        assert UsedByOwner(img, table, k, s, o);
        assert Used(img, table, s, o);
        OtherBytesStay(img, img', h, position, data, s, o);
      }
      HarmlessOwner(img, img', hs);
    }
  }

  lemma HarmExists(img: Image, table: seq<DirectoryEntry>, h: Header, position: int, n: nat)
    requires |table| == NUM_DIR_ENTRIES && h.Good() && position >= 0 && (n > 0 ==> position + n <= h.numBytes)
    requires !Harmless(img, table, h, position, n)
    ensures exists data, img' :: |data| == n && Written(img, img', h, position, data) && !Kept(img, img', table)
  {
    hide Written, MayChange, KeptOwner, UsedBy, DecodeHeader, Header.Good;
    var s, o :| 0 <= s < NUM_SECTORS && 0 <= o < SECTOR_SIZE && MayChange(h, position, n, s, o)
      && Used(img, table, s, o);
    var k :| 0 <= k < NUM_OWNERS && UsedByOwner(img, table, k, s, o);
    FlipIsWrite(img, h, position, n, s, o);
    FlipShows(img, HeaderSector(table, k), s, o);
    assert !Kept(img, Flipped(img, s, o), table);
  }

  /** Sector s is touched by the write and owned by owner k. */
  ghost predicate Hits(img: Image, table: seq<DirectoryEntry>, h: Header, position: int, n: nat, k: int, s: int)
    requires |table| == NUM_DIR_ENTRIES && h.Good() && position >= 0 && (n > 0 ==> position + n <= h.numBytes)
  {
    0 <= k < NUM_OWNERS && GoodOwner(img, table, k) && s in Touched(h, position, n) && s in Owned(img, table, k)
  }

  /** The write touches no owned sector. */
  ghost predicate Apart(img: Image, table: seq<DirectoryEntry>, h: Header, position: int, n: nat)
    requires |table| == NUM_DIR_ENTRIES && h.Good() && position >= 0 && (n > 0 ==> position + n <= h.numBytes)
  {
    forall k, s :: !Hits(img, table, h, position, n, k, s)
  }

  /** Touching no owned sector is enough. */
  lemma ApartIsHarmless(img: Image, table: seq<DirectoryEntry>, h: Header, position: int, n: nat)
    requires |table| == NUM_DIR_ENTRIES && h.Good() && position >= 0 && (n > 0 ==> position + n <= h.numBytes)
    requires Apart(img, table, h, position, n)
    ensures Harmless(img, table, h, position, n)
  {
    hide DecodeHeader, Header.Good;
    forall s, o | 0 <= s < NUM_SECTORS && 0 <= o < SECTOR_SIZE && MayChange(h, position, n, s, o)
      ensures !Used(img, table, s, o)
    {
      assert s in Touched(h, position, n);
      forall k | 0 <= k < NUM_OWNERS
        ensures !UsedByOwner(img, table, k, s, o)
      {
        assert !Hits(img, table, h, position, n, k, s);
      }
    }
  }

  /** Sector s, if owner k has it, byte for byte. */
  ghost predicate SectorKept(img: Image, img': Image, table: seq<DirectoryEntry>, k: int, s: int)
    requires |table| == NUM_DIR_ENTRIES
  {
    0 <= k < NUM_OWNERS && GoodOwner(img, table, k) && s in Owned(img, table, k) ==>
      0 <= s < NUM_SECTORS && img'[s] == img[s]
  }

  /** The sectors of every owner. */
  ghost predicate SectorsKept(img: Image, img': Image, table: seq<DirectoryEntry>)
    requires |table| == NUM_DIR_ENTRIES
  {
    forall k, s :: SectorKept(img, img', table, k, s)
  }

  lemma TouchHarms(img: Image, table: seq<DirectoryEntry>, h: Header, position: int, n: nat, k: int, s: int)
    requires |table| == NUM_DIR_ENTRIES && h.Good() && position >= 0 && (n > 0 ==> position + n <= h.numBytes)
    requires Hits(img, table, h, position, n, k, s)
    ensures exists data, img' :: |data| == n && Written(img, img', h, position, data) && !SectorsKept(img, img', table)
  {
    hide DecodeHeader, Owned, Live, GoodOwner;
    var j :| position / SECTOR_SIZE <= j <= (position + n - 1) / SECTOR_SIZE && h.pointers[j] == s;
    var o := if position < j * SECTOR_SIZE then 0 else position - j * SECTOR_SIZE;
    assert position <= j * SECTOR_SIZE + o < position + n;
    FlipIsWrite(img, h, position, n, s, o);
    hide Written, Touched, MayChange;
    assert Flipped(img, s, o)[s][o] != img[s][o];
    assert !SectorKept(img, Flipped(img, s, o), table, k, s);
  }

  /** Sector for sector, the slack behind the last byte of a file included, it is also necessary. */
  lemma TouchedExact(img: Image, table: seq<DirectoryEntry>, h: Header, position: int, n: nat)
    requires |table| == NUM_DIR_ENTRIES && h.Good() && position >= 0 && (n > 0 ==> position + n <= h.numBytes)
    ensures (forall data, img' | |data| == n && Written(img, img', h, position, data) :: SectorsKept(img, img', table))
      <==> Apart(img, table, h, position, n)
  {
    hide SectorsKept, Written, Hits, Header.Good;
    if Apart(img, table, h, position, n) {
      hide Apart;
      forall data, img' | |data| == n && Written(img, img', h, position, data)
        ensures SectorsKept(img, img', table)
      {
        ApartKeepsSectors(img, img', table, h, position, data);
      }
    } else {
      var k, s :| Hits(img, table, h, position, n, k, s);
      TouchHarms(img, table, h, position, n, k, s);
    }
  }

  lemma ApartKeepsSectors(img: Image, img': Image, table: seq<DirectoryEntry>, h: Header, position: int,
      data: seq<byte>)
    requires |table| == NUM_DIR_ENTRIES && Written(img, img', h, position, data)
    requires Apart(img, table, h, position, |data|)
    ensures SectorsKept(img, img', table)
  {
    hide SectorKept;
    forall k, s
      ensures SectorKept(img, img', table, k, s)
    {
      ApartKeepsSector(img, img', table, h, position, data, k, s);
    }
  }

  lemma ApartKeepsSector(img: Image, img': Image, table: seq<DirectoryEntry>, h: Header, position: int,
      data: seq<byte>, k: int, s: int)
    requires |table| == NUM_DIR_ENTRIES && Written(img, img', h, position, data)
    requires Apart(img, table, h, position, |data|)
    ensures SectorKept(img, img', table, k, s)
  {
    assert SameOutside(img, img', Touched(h, position, |data|));
    hide DecodeHeader, Owned, Live, GoodOwner, Header.Good, Touched, Flat, Written;
    if 0 <= k < NUM_OWNERS && GoodOwner(img, table, k) && s in Owned(img, table, k) {
      OwnedInRange(img, table, k, s);
      assert !Hits(img, table, h, position, |data|, k, s);
    }
  }

  lemma OwnedInRange(img: Image, table: seq<DirectoryEntry>, k: int, s: int)
    requires |table| == NUM_DIR_ENTRIES && 0 <= k < NUM_OWNERS && GoodOwner(img, table, k) && s in Owned(img, table, k)
    ensures 0 <= s < NUM_SECTORS
  {
    hide DecodeHeader;
  }

  /** On a consistent disk, keeping headers and contents keeps the layout, the bitmap, the directory and the catalog. */
  lemma KeptMeansSame(img: Image, img': Image)
    requires Consistent(img) && Kept(img, img', DirIn(img))
    ensures Consistent(img') && MapIn(img') == MapIn(img) && DirIn(img') == DirIn(img) && Catalog(img') == Catalog(img)
  {
    var table, bits := DirIn(img), BitsIn(img);
    SystemOwned(img);
    KeptSystem(img, img');
    KeptHeaders(img, img', table);
    HeadersKeptSound(img, img', table, bits);
    hide DirIn, MapIn, BitsOf, DecodeHeader, EntryKey, Sound, SystemFiles;
    forall i | 0 <= i < NUM_DIR_ENTRIES && table[i].inUse
      ensures GoodOwner(img', table, i + 2)
      ensures EntryKey(table[i]) in Names(table)
      ensures CatalogOf(img, table, bits)[EntryKey(table[i])] == InfoAt(img', table, i)
    {
      CatalogEntry(img, table, bits, i);
      CatalogEntry(img', table, bits, i);
      assert KeptOwner(img, img', HeaderSector(table, i + 2));
    }
    CatalogMatches(img', table, bits, CatalogOf(img, table, bits));
  }

  lemma KeptHeaders(img: Image, img': Image, table: seq<DirectoryEntry>)
    requires |table| == NUM_DIR_ENTRIES && Kept(img, img', table)
    requires forall k | 0 <= k < NUM_OWNERS :: GoodOwner(img, table, k)
    ensures HeadersKept(img, img', table, -1)
  {
    hide DecodeHeader, Flat, Header.Good;
    forall k | 0 <= k < NUM_OWNERS && Live(table, k) && GoodOwner(img, table, k)
      ensures img'[HeaderSector(table, k)] == img[HeaderSector(table, k)]
    {
      assert KeptOwner(img, img', HeaderSector(table, k));
    }
  }

  lemma KeptSystem(img: Image, img': Image)
    requires Consistent(img) && Kept(img, img', DirIn(img))
    ensures SystemFiles(img') && MapIn(img') == MapIn(img) && DirIn(img') == DirIn(img)
  {
    SystemOwned(img);
    hide DecodeHeader, Flat, DecodeMap, DecodeTable;
    assert KeptOwner(img, img', HeaderSector(DirIn(img), 0)) && KeptOwner(img, img', HeaderSector(DirIn(img), 1));
  }

  // ---- a run that loses a file ----

  const A: CString := [65]
  const B: CString := [66]
  const C: CString := [67]

  lemma DifferentNames()
    ensures NameKey(A) != NameKey(B) && NameKey(A) != NameKey(C) && NameKey(B) != NameKey(C)
  {
    assert Key(A + [0], FILE_NAME_MAX_LEN) == A;
  }

  /** x and d are the two lowest free bits; y is then the lowest, and z the lowest but y. */
  lemma SecondFreeBit(bits: seq<bool>, next: seq<bool>, x: int, d: int, y: int, z: int)
    requires 0 <= x < |bits| && 0 <= d < |bits| && 0 <= y < |bits| && 0 <= z < |bits|
    requires !bits[x] && !bits[d] && x != d && !bits[y] && !bits[z] && z != y
    requires forall b | 0 <= b < d :: bits[b] || b == x
    requires forall b | 0 <= b < y :: bits[b]
    requires next == bits[y := true] && forall b | 0 <= b < z :: next[b]
    ensures d == y || d == z
  {
    assert d != y ==> !next[d];
  }

  /** The data sector of a removed file of one byte becomes the header of one of the next two empty files. */
  lemma DataBecomesHeader(img0: Image, img1: Image, img2: Image, img3: Image, img4: Image, a: CString, b: CString,
      c: CString)
    requires Created(img0, img1, a, 1) && FirstFit(BitsIn(img1), Sectors(Catalog(img1)[a]))
    requires Removed(img1, img2, a) && b != c
    requires Created(img2, img3, b, 0) && FirstFit(BitsIn(img3), Sectors(Catalog(img3)[b]))
    requires Created(img3, img4, c, 0) && FirstFit(BitsIn(img4), Sectors(Catalog(img4)[c]))
    ensures Consistent(img4) && b in Catalog(img4) && c in Catalog(img4)
    ensures var d := Catalog(img1)[a].header.pointers[0];
      d == Catalog(img4)[b].sector || d == Catalog(img4)[c].sector
  {
    hide Created, Removed, Consistent, Catalog, BitsIn, Sectors, FirstFit, SystemFiles, Header.Good, HeaderAt;
    OneByteCreated(img0, img1, a);
    RemovedBits(img0, img1, img2, a);
    EmptyCreated(img2, img3, b);
    EmptyCreated(img3, img4, c);
    CreatedKeeps(img3, img4, b, c);
    SecondFreeBit(BitsIn(img0), BitsIn(img3), Catalog(img1)[a].sector, Catalog(img1)[a].header.pointers[0],
                  Catalog(img3)[b].sector, Catalog(img4)[c].sector);
  }

  lemma EmptyCreated(img: Image, img': Image, k: CString)
    requires Created(img, img', k, 0) && FirstFit(BitsIn(img'), Sectors(Catalog(img')[k]))
    ensures Consistent(img) && SystemFiles(img) && Consistent(img') && SystemFiles(img') && k in Catalog(img')
    ensures var y := Catalog(img')[k].sector;
      && 0 <= y < NUM_SECTORS && !BitsIn(img)[y] && BitsIn(img') == BitsIn(img)[y := true]
      && forall s | 0 <= s < y :: BitsIn(img)[s]
  {
    hide Consistent, Catalog, BitsIn, Sectors, Header.Good;
    SystemSizes(img);
    SystemSizes(img');
    SmallSectors(Catalog(img')[k]);
  }

  lemma OneByteCreated(img: Image, img': Image, k: CString)
    requires Created(img, img', k, 1) && FirstFit(BitsIn(img'), Sectors(Catalog(img')[k]))
    ensures SystemFiles(img) && Consistent(img') && k in Catalog(img') && |Catalog(img')[k].header.pointers| > 0
    ensures var x, d := Catalog(img')[k].sector, Catalog(img')[k].header.pointers[0] as int;
      && 0 <= x < NUM_SECTORS && 0 <= d < NUM_SECTORS && x != d && !BitsIn(img)[x] && !BitsIn(img)[d]
      && forall s | 0 <= s < d :: BitsIn(img)[s] || s == x
  {
    hide Consistent, Catalog, BitsIn, Sectors;
    SystemSizes(img);
    SystemSizes(img');
    SmallSectors(Catalog(img')[k]);
    SectorsDistinct(img', k);
    hide Header.Good, Header.Data;
  }

  lemma RemovedBits(img: Image, img': Image, img'': Image, k: CString)
    requires Created(img, img', k, 1) && Removed(img', img'', k)
    ensures SystemFiles(img) && SystemFiles(img'') && BitsIn(img'') == BitsIn(img)
  {
    hide Consistent, Catalog, BitsIn, Sectors, Header.Good;
    SystemSizes(img);
    SystemSizes(img');
    SystemSizes(img'');
    SameBits(BitsIn(img), BitsIn(img''), BitsIn(img'), Sectors(Catalog(img')[k]));
  }

  lemma CreatedKeeps(img: Image, img': Image, b: CString, c: CString)
    requires Created(img, img', c, 0) && b in Catalog(img)
    ensures Consistent(img') && b != c && b in Catalog(img') && Catalog(img')[b] == Catalog(img)[b]
  {
    hide Consistent, Catalog, BitsIn, Sectors, Header.Good;
  }

  /** A file of one byte owns its header and one data sector, an empty file only its header. */
  lemma SmallSectors(info: FileInfo)
    requires info.header.Good()
    ensures info.header.numBytes == 0 ==> Sectors(info) == {info.sector}
    ensures info.header.numBytes == 1 ==> Sectors(info) == {info.sector, info.header.pointers[0] as int}
    ensures info.header.numBytes == 1 ==> info.header.pointers[0] as int in info.header.Data()
  {
    if info.header.numBytes == 1 {
      assert info.header.numSectors == 1;
      assert info.header.Data() == {info.header.pointers[0] as int};
    }
  }

  lemma SectorsDistinct(img: Image, a: CString)
    requires Consistent(img) && a in Catalog(img) && Catalog(img)[a].header.Good()
    ensures Catalog(img)[a].sector !in Catalog(img)[a].header.Data()
  {
    var i := IndexOf(DirIn(img), a);
    CatalogEntry(img, DirIn(img), BitsIn(img), i);
  }

  /** Changing the first byte through a stale handle whose data sector is now a header of a listed file. */
  lemma HeaderOverwritten(img: Image, img': Image, h: Header, k: CString, data: seq<byte>)
    requires Consistent(img) && k in Catalog(img) && h.Good() && h.numBytes == 1
    requires h.pointers[0] == Catalog(img)[k].sector
    requires Written(img, img', h, 0, data) && |data| == 1 && data[0] != Flat(img, h)[0]
    ensures !Kept(img, img', DirIn(img))
  {
    var i := IndexOf(DirIn(img), k);
    CatalogEntry(img, DirIn(img), BitsIn(img), i);
    var s := h.pointers[0];
    assert Flat(img', h)[0] == ByteAt(img', h, 0) && Flat(img, h)[0] == ByteAt(img, h, 0);
    assert img'[s][0] != img[s][0];
    hide Written, Flat, DecodeHeader, DirIn, BitsIn, EntryKey, Header.Good;
    assert HeaderSector(DirIn(img), i + 2) == s;
    assert !KeptOwner(img, img', HeaderSector(DirIn(img), i + 2));
  }

  method CreateFile(fileSystem: FileSystem, name: CString, size: FileSize)
    requires fileSystem.Valid() && NameKey(name) !in Catalog(fileSystem.disk.image)
    requires |Catalog(fileSystem.disk.image)| < NUM_DIR_ENTRIES
    modifies fileSystem.disk
    ensures fileSystem.Valid() && Created(old(fileSystem.disk.image), fileSystem.disk.image, NameKey(name), size)
    ensures FirstFit(BitsIn(fileSystem.disk.image), Sectors(Catalog(fileSystem.disk.image)[NameKey(name)]))
    ensures |Catalog(fileSystem.disk.image)| == |old(Catalog(fileSystem.disk.image))| + 1
    ensures Catalog(fileSystem.disk.image).Keys == old(Catalog(fileSystem.disk.image)).Keys + {NameKey(name)}
    ensures Catalog(fileSystem.disk.image)[NameKey(name)].header.Good()
    ensures Catalog(fileSystem.disk.image)[NameKey(name)].header.numBytes == size
  {
    hide Consistent, Catalog, NameKey, CanCreate, BitsIn, FirstFit, Sectors, DecodeHeader;
    ghost var img := fileSystem.disk.image;
    CreateSucceeds(img, NameKey(name), size);
    var made := fileSystem.Create(name, size);
  }

  /** Opens a file and removes its name while the handle is still held. */
  method OpenAndRemove(fileSystem: FileSystem, name: CString) returns (handle: OpenFile)
    requires fileSystem.Valid() && NameKey(name) in Catalog(fileSystem.disk.image)
    modifies fileSystem.disk
    ensures fileSystem.Valid() && Removed(old(fileSystem.disk.image), fileSystem.disk.image, NameKey(name))
    ensures |Catalog(fileSystem.disk.image)| < |old(Catalog(fileSystem.disk.image))|
    ensures Catalog(fileSystem.disk.image).Keys == old(Catalog(fileSystem.disk.image)).Keys - {NameKey(name)}
    ensures fresh(handle) && fresh(handle.hdr) && fresh(handle.hdr.dataSectors)
    ensures handle.disk == fileSystem.disk && handle.Valid()
    ensures handle.hdr.Value() == old(Catalog(fileSystem.disk.image)[NameKey(name)].header)
  {
    hide Consistent, Catalog, NameKey, BitsIn, Sectors, DecodeHeader, Header.Good, Flat;
    var file := fileSystem.Open(name);
    handle := file;
    ghost var before := Catalog(fileSystem.disk.image);
    var removed := fileSystem.Remove(name);
    assert before == Catalog(fileSystem.disk.image)[NameKey(name) := before[NameKey(name)]];
  }

  /** On any disk: format, create a file of one byte and open it, remove it, create two empty files. */
  method KeepHandle(disk: SynchDisk) returns (handle: OpenFile, ghost k: CString)
    modifies disk
    ensures Consistent(disk.image) && fresh(handle) && fresh(handle.hdr) && fresh(handle.hdr.dataSectors)
    ensures handle.disk == disk && handle.Valid() && handle.hdr.numBytes == 1
    ensures k in Catalog(disk.image) && handle.hdr.Value().pointers[0] == Catalog(disk.image)[k].sector
  {
    DifferentNames();
    hide Consistent, Catalog, NameKey, BitsIn, FirstFit, Sectors, DecodeHeader, Flat, Created, Removed, Header.Good;
    hide FileSystem.Valid;
    var fileSystem := Format(disk);
    ghost var img0 := disk.image;
    CreateFile(fileSystem, A, 1);
    ghost var img1 := disk.image;
    handle := OpenAndRemove(fileSystem, A);
    ghost var img2 := disk.image;
    CreateFile(fileSystem, B, 0);
    ghost var img3 := disk.image;
    CreateFile(fileSystem, C, 0);
    DataBecomesHeader(img0, img1, img2, img3, disk.image, NameKey(A), NameKey(B), NameKey(C));
    k := if handle.hdr.Value().pointers[0] == Catalog(disk.image)[NameKey(B)].sector then NameKey(B) else NameKey(C);
  }

  /** Then a write of one byte through the old handle costs a listed file its header. */
  method LoseFile(disk: SynchDisk) returns (ghost before: Image)
    modifies disk
    ensures Consistent(before) && !Kept(before, disk.image, DirIn(before))
  {
    hide Consistent, Catalog, DecodeHeader, Kept, Written, Flat;
    var handle, k := KeepHandle(disk);
    before := disk.image;
    var buffer := new byte[1];
    var n := handle.ReadAt(buffer, 0, 1, 0);
    assert buffer[0] == Slice(handle.Content(), 0, 1)[0] == Flat(before, handle.hdr.Value())[0];
    var data: seq<byte> := [if buffer[0] == 0 then 1 else 0];
    var m := handle.WriteAt(data, 1, 0);
    assert data[..m] == data;
    HeaderOverwritten(before, disk.image, handle.hdr.Value(), k, data);
  }
}
