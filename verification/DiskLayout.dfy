/** What a consistent file system looks like on the disk, and what each kind of disk update does to it. */
module DiskLayout {
  import opened Bytes
  import opened DiskImage
  import opened BitMaps
  import opened FileHeaders
  import opened OpenFiles
  import opened Directories

  const FREE_MAP_SECTOR := 0
  const DIRECTORY_SECTOR := 1
  const FREE_MAP_FILE_SIZE := NUM_SECTORS / 8
  const NUM_DIR_ENTRIES := 10
  const DIRECTORY_FILE_SIZE := ENTRY_SIZE * NUM_DIR_ENTRIES

  // ---- the bitmap as bytes ----

  function MapWords(words: seq<bv32>): (ws: seq<word>)
    ensures |ws| == |words|
  {
    seq<word>(|words|, i requires 0 <= i < |words| => words[i] as int)
  }

  function EncodeMap(words: seq<bv32>): (b: seq<byte>)
    ensures |b| == 4 * |words|
  {
    EncodeWords(MapWords(words))
  }

  /** Word i of the bitmap takes bytes 4 * i to 4 * i + 3 of its file, the lowest first. */
  lemma MapLayout(words: seq<bv32>, i: nat)
    requires i < |words|
    ensures EncodeMap(words)[4 * i..4 * i + 4] == EncodeWord(words[i] as int)
  {
    EncodeWordsAt(MapWords(words), i);
  }

  function DecodeMap(b: seq<byte>): (words: seq<bv32>)
    requires |b| % 4 == 0
    ensures |words| == |b| / 4
  {
    var ws := DecodeWords(b);
    seq(|b| / 4, i requires 0 <= i < |b| / 4 => ws[i] as bv32)
  }

  lemma MapRoundTrip(words: seq<bv32>)
    ensures DecodeMap(EncodeMap(words)) == words
  {
    hide EncodeWords, DecodeWords;
    WordsRoundTrip(MapWords(words));
  }

  // ---- the two system files ----

  /** The bitmap and directory headers are in place, and the two files do not overlap. */
  ghost predicate SystemFiles(img: Image) {
    var mapHdr, dirHdr := HeaderAt(img, FREE_MAP_SECTOR), HeaderAt(img, DIRECTORY_SECTOR);
    && mapHdr.Good() && mapHdr.numBytes == FREE_MAP_FILE_SIZE
    && dirHdr.Good() && dirHdr.numBytes == DIRECTORY_FILE_SIZE
    && mapHdr.Data() !! dirHdr.Data()
    && mapHdr.Data() !! {FREE_MAP_SECTOR, DIRECTORY_SECTOR}
    && dirHdr.Data() !! {FREE_MAP_SECTOR, DIRECTORY_SECTOR}
  }

  ghost function SystemData(img: Image): set<int>
    requires SystemFiles(img)
  {
    HeaderAt(img, FREE_MAP_SECTOR).Data() + HeaderAt(img, DIRECTORY_SECTOR).Data()
  }

  ghost function MapIn(img: Image): (words: seq<bv32>)
    requires SystemFiles(img)
    ensures |words| == NUM_SECTORS / BITS_IN_WORD
  {
    DecodeMap(Flat(img, HeaderAt(img, FREE_MAP_SECTOR)))
  }

  ghost function BitsIn(img: Image): (bits: seq<bool>)
    requires SystemFiles(img)
    ensures |bits| == NUM_SECTORS
  {
    BitsOf(MapIn(img), NUM_SECTORS)
  }

  ghost function DirIn(img: Image): (table: seq<DirectoryEntry>)
    requires SystemFiles(img)
    ensures |table| == NUM_DIR_ENTRIES
  {
    DecodeTable(Flat(img, HeaderAt(img, DIRECTORY_SECTOR)))
  }

  lemma DirectoryFlushed(img: Image, img': Image, table: seq<DirectoryEntry>)
    requires SystemFiles(img) && |table| == NUM_DIR_ENTRIES
    requires Written(img, img', HeaderAt(img, DIRECTORY_SECTOR), 0, EncodeTable(table))
    ensures SystemFiles(img') && DirIn(img') == table && MapIn(img') == MapIn(img)
    ensures HeaderAt(img', FREE_MAP_SECTOR) == HeaderAt(img, FREE_MAP_SECTOR)
    ensures HeaderAt(img', DIRECTORY_SECTOR) == HeaderAt(img, DIRECTORY_SECTOR)
    ensures SameOutside(img, img', HeaderAt(img, DIRECTORY_SECTOR).Data())
  {
    hide EncodeTable, DecodeTable, DecodeMap, DecodeHeader, Flat;
    var mapHdr, dirHdr := HeaderAt(img, FREE_MAP_SECTOR), HeaderAt(img, DIRECTORY_SECTOR);
    assert Touched(dirHdr, 0, DIRECTORY_FILE_SIZE) <= dirHdr.Data();
    FlatFrame(img, img', mapHdr);
    TableRoundTrip(table);
    assert Overlay(Flat(img, dirHdr), 0, EncodeTable(table)) == EncodeTable(table);
  }

  lemma MapFlushed(img: Image, img': Image, words: seq<bv32>)
    requires SystemFiles(img) && |words| == NUM_SECTORS / BITS_IN_WORD
    requires Written(img, img', HeaderAt(img, FREE_MAP_SECTOR), 0, EncodeMap(words))
    ensures SystemFiles(img') && MapIn(img') == words && DirIn(img') == DirIn(img)
    ensures HeaderAt(img', FREE_MAP_SECTOR) == HeaderAt(img, FREE_MAP_SECTOR)
    ensures HeaderAt(img', DIRECTORY_SECTOR) == HeaderAt(img, DIRECTORY_SECTOR)
    ensures SameOutside(img, img', HeaderAt(img, FREE_MAP_SECTOR).Data())
  {
    hide EncodeMap, DecodeTable, DecodeMap, DecodeHeader, Flat;
    var mapHdr, dirHdr := HeaderAt(img, FREE_MAP_SECTOR), HeaderAt(img, DIRECTORY_SECTOR);
    assert Touched(mapHdr, 0, FREE_MAP_FILE_SIZE) <= mapHdr.Data();
    FlatFrame(img, img', dirHdr);
    MapRoundTrip(words);
    assert Overlay(Flat(img, mapHdr), 0, EncodeMap(words)) == EncodeMap(words);
  }

  // ---- owners ----

  const NUM_OWNERS := 2 + NUM_DIR_ENTRIES

  /** Owner 0 is the bitmap file, owner 1 the directory file, owner 2 + i the file of directory entry i. */
  ghost predicate Live(table: seq<DirectoryEntry>, k: int)
    requires |table| == NUM_DIR_ENTRIES && 0 <= k < NUM_OWNERS
  {
    k < 2 || table[k - 2].inUse
  }

  ghost function HeaderSector(table: seq<DirectoryEntry>, k: int): int
    requires |table| == NUM_DIR_ENTRIES && 0 <= k < NUM_OWNERS
  {
    if k < 2 then k else table[k - 2].sector
  }

  ghost predicate GoodOwner(img: Image, table: seq<DirectoryEntry>, k: int)
    requires |table| == NUM_DIR_ENTRIES && 0 <= k < NUM_OWNERS
  {
    Live(table, k) ==>
      var s := HeaderSector(table, k);
      0 <= s < NUM_SECTORS && HeaderAt(img, s).Good() && s !in HeaderAt(img, s).Data()
  }

  /** The sectors of an owner: its header and its data. */
  ghost function Owned(img: Image, table: seq<DirectoryEntry>, k: int): set<int>
    requires |table| == NUM_DIR_ENTRIES && 0 <= k < NUM_OWNERS && GoodOwner(img, table, k)
  {
    if Live(table, k) then {HeaderSector(table, k)} + HeaderAt(img, HeaderSector(table, k)).Data() else {}
  }

  ghost predicate Sound(img: Image, table: seq<DirectoryEntry>, bits: seq<bool>) {
    && |table| == NUM_DIR_ENTRIES && |bits| == NUM_SECTORS
    && (forall k | 0 <= k < NUM_OWNERS :: GoodOwner(img, table, k))
    && (forall j, k | 0 <= j < k < NUM_OWNERS :: Owned(img, table, j) !! Owned(img, table, k))
    && (forall b | 0 <= b < NUM_SECTORS :: bits[b] <==> exists k | 0 <= k < NUM_OWNERS :: b in Owned(img, table, k))
    && UniqueNames(table)
  }

  /** The central invariant: every sector is marked exactly when it has an owner, owners share nothing,
      and no two files have the same name. */
  ghost predicate Consistent(img: Image) {
    SystemFiles(img) && Sound(img, DirIn(img), BitsIn(img))
  }

  /** Every header but that of one owner is as it was. */
  ghost predicate HeadersKept(img: Image, img': Image, table: seq<DirectoryEntry>, except: int)
    requires |table| == NUM_DIR_ENTRIES
  {
    forall k | 0 <= k < NUM_OWNERS && k != except && Live(table, k) && 0 <= HeaderSector(table, k) < NUM_SECTORS ::
      img'[HeaderSector(table, k)] == img[HeaderSector(table, k)]
  }

  lemma SameOwner(img: Image, img': Image, table: seq<DirectoryEntry>, k: int)
    requires |table| == NUM_DIR_ENTRIES && 0 <= k < NUM_OWNERS && GoodOwner(img, table, k)
    requires Live(table, k) ==> img'[HeaderSector(table, k)] == img[HeaderSector(table, k)]
    ensures GoodOwner(img', table, k) && Owned(img', table, k) == Owned(img, table, k)
  {
  }

  lemma MarkedMeansOwned(img: Image, table: seq<DirectoryEntry>, bits: seq<bool>, k: int, b: int)
    requires Sound(img, table, bits) && 0 <= k < NUM_OWNERS && b in Owned(img, table, k)
    ensures 0 <= b < NUM_SECTORS && bits[b]
  {
    assert GoodOwner(img, table, k);
  }

  /** Adding a file whose sectors were all free. */
  lemma CreateSound(img: Image, img': Image, table: seq<DirectoryEntry>, bits: seq<bool>, bits': seq<bool>,
                    i: int, e: DirectoryEntry, name: CString, h: Header)
    requires Sound(img, table, bits) && 0 <= i < |table|
    requires Added(table, table[i := e], i, e, name, e.sector)
    requires forall j | 0 <= j < |table| :: !Lists(table, j, NameKey(name))
    requires 0 <= e.sector < NUM_SECTORS && !bits[e.sector]
    requires h.Good() && HeaderAt(img', e.sector) == h
    requires Marked(bits[e.sector := true], bits', h.Data())
    requires HeadersKept(img, img', table, -1)
    ensures Sound(img', table[i := e], bits')
  {
    hide DecodeHeader, EntryKey, NameKey, Header.Good, Header.Data;
    var table' := table[i := e];
    var mine := {e.sector as int} + h.Data();
    forall k | 0 <= k < NUM_OWNERS
      ensures GoodOwner(img', table', k)
      ensures Owned(img', table', k) == if k == i + 2 then mine else Owned(img, table, k)
    {
      if k != i + 2 {
        SameOwner(img, img', table, k);
      }
    }
    assert UniqueNames(table') by {
      assert forall j | 0 <= j < |table| && table[j].inUse :: !Lists(table, j, NameKey(name));
    }
    assert Owned(img, table, i + 2) == {};
    forall k | 0 <= k < NUM_OWNERS && k != i + 2
      ensures Owned(img', table', k) !! mine
    {
      forall b | b in Owned(img, table, k)
        ensures b !in mine
      {
        MarkedMeansOwned(img, table, bits, k, b);
      }
    }
    forall b | 0 <= b < NUM_SECTORS
      ensures bits'[b] <==> exists k | 0 <= k < NUM_OWNERS :: b in Owned(img', table', k)
    {
      if b in mine {
        assert b in Owned(img', table', i + 2);
      } else if bits[b] {
        var k :| 0 <= k < NUM_OWNERS && b in Owned(img, table, k);
        assert b in Owned(img', table', k);
      }
    }
  }

  /** Dropping a file and clearing exactly its sectors. */
  lemma RemoveSound(img: Image, img': Image, table: seq<DirectoryEntry>, bits: seq<bool>, bits': seq<bool>, i: int)
    requires Sound(img, table, bits) && 0 <= i < |table| && table[i].inUse
    requires |bits'| == |bits|
    requires forall b | 0 <= b < |bits| :: bits'[b] <==> bits[b] && b !in Owned(img, table, i + 2)
    requires HeadersKept(img, img', table, i + 2)
    ensures Sound(img', table[i := table[i].(inUse := false)], bits')
  {
    hide DecodeHeader, EntryKey, Header.Good, Header.Data;
    var table' := table[i := table[i].(inUse := false)];
    forall k | 0 <= k < NUM_OWNERS
      ensures GoodOwner(img', table', k)
      ensures Owned(img', table', k) == if k == i + 2 then {} else Owned(img, table, k)
    {
      if k != i + 2 {
        SameOwner(img, img', table, k);
      }
    }
    forall b | 0 <= b < NUM_SECTORS
      ensures bits'[b] <==> exists k | 0 <= k < NUM_OWNERS :: b in Owned(img', table', k)
    {
      if bits'[b] {
        var k :| 0 <= k < NUM_OWNERS && b in Owned(img, table, k);
        assert b in Owned(img', table', k);
      } else if bits[b] {
        assert forall k | 0 <= k < NUM_OWNERS && k != i + 2 :: b !in Owned(img, table, k);
      }
    }
    assert forall j | 0 <= j < |table| && table'[j].inUse :: table'[j] == table[j];
  }

  /** Updates that leave every header alone keep the layout. */
  lemma HeadersKeptSound(img: Image, img': Image, table: seq<DirectoryEntry>, bits: seq<bool>)
    requires Sound(img, table, bits)
    requires HeadersKept(img, img', table, -1)
    ensures Sound(img', table, bits)
    ensures forall k | 0 <= k < NUM_OWNERS :: Owned(img', table, k) == Owned(img, table, k)
  {
    forall k | 0 <= k < NUM_OWNERS
      ensures GoodOwner(img', table, k) && Owned(img', table, k) == Owned(img, table, k)
    {
      SameOwner(img, img', table, k);
    }
  }

  /** No header sector lies among the data sectors of any owner. */
  lemma HeadersApart(img: Image, table: seq<DirectoryEntry>, bits: seq<bool>, j: int, k: int)
    requires Sound(img, table, bits) && 0 <= j < NUM_OWNERS && 0 <= k < NUM_OWNERS
    requires Live(table, j) && Live(table, k) && GoodOwner(img, table, j) && GoodOwner(img, table, k)
    ensures HeaderSector(table, j) !in HeaderAt(img, HeaderSector(table, k)).Data()
    ensures j != k ==> HeaderAt(img, HeaderSector(table, j)).Data() !! HeaderAt(img, HeaderSector(table, k)).Data()
    ensures j != k ==> HeaderSector(table, j) != HeaderSector(table, k)
  {
    assert HeaderSector(table, j) in Owned(img, table, j);
    assert j != k ==> Owned(img, table, j) !! Owned(img, table, k);
  }

  // ---- the file system as its users see it ----

  datatype FileInfo = FileInfo(sector: int, header: Header, content: seq<byte>)

  ghost function InfoAt(img: Image, table: seq<DirectoryEntry>, i: int): FileInfo
    requires |table| == NUM_DIR_ENTRIES && 0 <= i < |table| && table[i].inUse && GoodOwner(img, table, i + 2)
  {
    var h := HeaderAt(img, table[i].sector);
    FileInfo(table[i].sector, h, Flat(img, h))
  }

  ghost function Names(table: seq<DirectoryEntry>): set<CString> {
    set i | 0 <= i < |table| && table[i].inUse :: EntryKey(table[i])
  }

  lemma NotListed(table: seq<DirectoryEntry>, k: CString)
    requires forall j | 0 <= j < |table| :: !Lists(table, j, k)
    ensures k !in Names(table)
  {
    forall i | 0 <= i < |table| && table[i].inUse
      ensures EntryKey(table[i]) != k
    {
      assert !Lists(table, i, k);
    }
  }

  ghost function IndexOf(table: seq<DirectoryEntry>, k: CString): (i: int)
    requires k in Names(table)
    ensures Lists(table, i, k)
  {
    assert exists i :: Lists(table, i, k) by {
      var i :| 0 <= i < |table| && table[i].inUse && EntryKey(table[i]) == k;
      assert Lists(table, i, k);
    }
    var i :| Lists(table, i, k);
    i
  }

  /** Name to header sector, header and flat content. */
  ghost function CatalogOf(img: Image, table: seq<DirectoryEntry>, bits: seq<bool>): map<CString, FileInfo>
    requires Sound(img, table, bits)
  {
    map k | k in Names(table) :: InfoAt(img, table, IndexOf(table, k))
  }

  ghost function Catalog(img: Image): map<CString, FileInfo>
    requires Consistent(img)
  {
    CatalogOf(img, DirIn(img), BitsIn(img))
  }

  ghost function Sectors(info: FileInfo): set<int>
    requires info.header.Good()
  {
    {info.sector} + info.header.Data()
  }

  lemma CatalogEntry(img: Image, table: seq<DirectoryEntry>, bits: seq<bool>, i: int)
    requires Sound(img, table, bits) && 0 <= i < |table| && table[i].inUse
    ensures GoodOwner(img, table, i + 2)
    ensures EntryKey(table[i]) in Names(table)
    ensures CatalogOf(img, table, bits)[EntryKey(table[i])] == InfoAt(img, table, i)
    ensures IndexOf(table, EntryKey(table[i])) == i
    ensures Sectors(InfoAt(img, table, i)) == Owned(img, table, i + 2)
  {
    assert EntryKey(table[i]) in Names(table);
    var j := IndexOf(table, EntryKey(table[i]));
    assert Lists(table, j, EntryKey(table[i]));
  }

  /** A new file appears under the name, with the size asked for, on sectors that were free; nothing else changes. */
  ghost predicate Created(img: Image, img': Image, name: CString, size: int) {
    && Consistent(img) && Consistent(img')
    && name !in Catalog(img) && name in Catalog(img')
    && var info := Catalog(img')[name];
    && info.header.Good() && info.header.numBytes == size
    && Catalog(img') == Catalog(img)[name := info]
    && Marked(BitsIn(img), BitsIn(img'), Sectors(info))
  }

  /** The file disappears and exactly its sectors become free; nothing else changes. */
  ghost predicate Removed(img: Image, img': Image, name: CString) {
    && Consistent(img) && Consistent(img')
    && name in Catalog(img)
    && var info := Catalog(img)[name];
    && info.header.Good()
    && Catalog(img') == Catalog(img) - {name}
    && Marked(BitsIn(img'), BitsIn(img), Sectors(info))
  }

  /** The bytes of one file change in one range; nothing else changes. */
  ghost predicate Rewritten(img: Image, img': Image, name: CString, position: int, data: seq<byte>) {
    && Consistent(img) && Consistent(img')
    && name in Catalog(img)
    && var info := Catalog(img)[name];
    && position >= 0 && (|data| > 0 ==> position + |data| <= |info.content|)
    && Catalog(img') == Catalog(img)[name := info.(content := Overlay(info.content, position, data))]
    && BitsIn(img') == BitsIn(img)
  }
}
