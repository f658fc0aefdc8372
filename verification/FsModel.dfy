/** The file system as its users see it, a map from names to bytes, and the disk as an implementation of it. */
module FsModel {
  import opened Bytes
  import opened DiskImage
  import opened SynchDisks
  import opened BitMaps
  import opened OpenFiles
  import opened Directories
  import opened DiskLayout
  import opened DiskSteps
  import opened FileSystems
  import opened FsRuns

  // ---- when Create can succeed ----

  ghost function NamesBelow(table: seq<DirectoryEntry>, n: nat): set<CString>
    requires n <= |table|
  {
    if n == 0 then {}
    else NamesBelow(table, n - 1) + if table[n - 1].inUse then {EntryKey(table[n - 1])} else {}
  }

  lemma {:induction false} NamesBelowMember(table: seq<DirectoryEntry>, n: nat, k: CString)
    requires n <= |table|
    ensures k in NamesBelow(table, n) <==> exists i | 0 <= i < n :: Lists(table, i, k)
  {
    if n > 0 {
      NamesBelowMember(table, n - 1, k);
      assert Lists(table, n - 1, k) <==> table[n - 1].inUse && EntryKey(table[n - 1]) == k;
    }
  }

  function InUseBelow(table: seq<DirectoryEntry>, n: nat): nat
    requires n <= |table|
  {
    if n == 0 then 0 else InUseBelow(table, n - 1) + if table[n - 1].inUse then 1 else 0
  }

  lemma {:induction false} InUseAll(table: seq<DirectoryEntry>, n: nat)
    requires n <= |table|
    ensures InUseBelow(table, n) <= n
    ensures InUseBelow(table, n) == n <==> forall i | 0 <= i < n :: table[i].inUse
  {
    if n > 0 {
      InUseAll(table, n - 1);
    }
  }

  lemma {:induction false} NamesBelowCard(table: seq<DirectoryEntry>, n: nat)
    requires n <= |table| && UniqueNames(table)
    ensures |NamesBelow(table, n)| == InUseBelow(table, n)
  {
    if n > 0 {
      NamesBelowCard(table, n - 1);
      if table[n - 1].inUse {
        NameIsNew(table, n - 1);
      }
      hide UniqueNames, EntryKey;
    }
  }

  lemma NameIsNew(table: seq<DirectoryEntry>, n: nat)
    requires n < |table| && UniqueNames(table) && table[n].inUse
    ensures EntryKey(table[n]) !in NamesBelow(table, n)
  {
    hide EntryKey;
    var k := EntryKey(table[n]);
    NamesBelowMember(table, n, k);
    assert forall i | 0 <= i < n :: !Lists(table, i, k);
  }

  lemma NamesAreBelow(table: seq<DirectoryEntry>)
    ensures Names(table) == NamesBelow(table, |table|)
  {
    hide EntryKey;
    forall k: CString
      ensures k in Names(table) <==> k in NamesBelow(table, |table|)
    {
      NamesBelowMember(table, |table|, k);
      if k in Names(table) {
        var i := IndexOf(table, k);
      }
    }
  }

  /** A directory entry is free exactly while there are fewer files than entries. */
  lemma EntryFree(img: Image)
    requires Consistent(img)
    ensures |Catalog(img)| <= NUM_DIR_ENTRIES
    ensures (exists i | 0 <= i < NUM_DIR_ENTRIES :: !DirIn(img)[i].inUse) <==> |Catalog(img)| < NUM_DIR_ENTRIES
  {
    var table := DirIn(img);
    hide DirIn, BitsIn, EntryKey;
    assert Catalog(img).Keys == Names(table);
    hide CatalogOf, Sound;
    NamesBelowCard(table, NUM_DIR_ENTRIES);
    InUseAll(table, NUM_DIR_ENTRIES);
    NamesAreBelow(table);
    assert |Catalog(img)| == |Catalog(img).Keys|;
  }

  lemma {:induction false} CostBounded(img: Image, table: seq<DirectoryEntry>, n: int)
    requires |table| == NUM_DIR_ENTRIES && 0 <= n <= NUM_OWNERS
    requires forall k | 0 <= k < n :: GoodOwner(img, table, k)
    ensures TotalCost(img, table, n) <= n * (1 + NUM_DIRECT)
  {
    if n > 0 {
      CostBounded(img, table, n - 1);
      assert GoodOwner(img, table, n - 1);
    }
  }

  /** The directory fills up before the disk does. */
  lemma AlwaysRoom(img: Image, size: int)
    requires Consistent(img) && 0 <= size <= NUM_DIRECT * SECTOR_SIZE
    ensures 1 + DivRoundUp(size, SECTOR_SIZE) <= CountClear(BitsIn(img))
  {
    hide DirIn, BitsIn, CountClear, Sound, GoodOwner, TotalCost;
    SectorsConserved(img);
    CostBounded(img, DirIn(img), NUM_OWNERS);
  }

  /** So within the size limit Create succeeds exactly when the name is new and there are fewer than ten files. */
  lemma CreateSucceeds(img: Image, name: CString, size: int)
    requires Consistent(img) && 0 <= size <= 30 * 128
    ensures CanCreate(img, name, size) <==> name !in Catalog(img) && |Catalog(img)| < 10
  {
    hide DirIn, BitsIn, CountClear, Consistent, Catalog;
    AlwaysRoom(img, size);
    EntryFree(img);
  }

  // ---- every run ----

  type Files = map<CString, seq<byte>>

  ghost function FilesOf(catalog: map<CString, FileInfo>): Files {
    map k | k in catalog :: catalog[k].content
  }

  ghost function FilesOn(img: Image): Files
    requires Consistent(img)
  {
    FilesOf(Catalog(img))
  }

  lemma FilesOfUpdate(catalog: map<CString, FileInfo>, name: CString, info: FileInfo)
    ensures FilesOf(catalog[name := info]) == FilesOf(catalog)[name := info.content]
    ensures FilesOf(catalog - {name}) == FilesOf(catalog) - {name}
    ensures FilesOf(catalog).Keys == catalog.Keys && |FilesOf(catalog)| == |catalog|
  {
  }

  type FileSize = n: int | 0 <= n <= NUM_DIRECT * SECTOR_SIZE

  datatype Op =
    | Make(name: CString, size: FileSize)
    | Delete(name: CString)
    | Write(name: CString, position: nat, data: seq<byte>)

  /** The part of the data that fits in the file. */
  function Fitting(data: seq<byte>, position: nat, length: nat): (d: seq<byte>)
    ensures |d| > 0 ==> position + |d| <= length
  {
    data[..Transfer(|data|, position, length)]
  }

  /** What the calls do to the disk, as their contracts say. */
  ghost predicate DiskStep(img: Image, img': Image, op: Op) {
    && Consistent(img)
    && var k := NameKey(op.name);
    match op
    case Make(_, size) =>
      if CanCreate(img, k, size) then Created(img, img', k, size) else img' == img
    case Delete(_) =>
      if k in Catalog(img) then Removed(img, img', k) else img' == img
    case Write(_, position, data) =>
      if k in Catalog(img)
      then Rewritten(img, img', k, position, Fitting(data, position, |Catalog(img)[k].content|))
      else img' == img
  }

  /** The bytes of f from the position on are those of data, as far as f reaches; the length and all others stay. */
  ghost predicate Overwritten(f: seq<byte>, f': seq<byte>, position: nat, data: seq<byte>) {
    && |f'| == |f|
    && forall i | 0 <= i < |f| :: f'[i] == if position <= i < position + |data| then data[i - position] else f[i]
  }

  /**
   * What the calls mean, in plain terms: a file is known by the first nine bytes of its name,
   * there are at most ten, and the first contents of a new file are arbitrary.
   */
  ghost predicate FileStep(files: Files, files': Files, op: Op) {
    var k: CString := if |op.name| <= 9 then op.name else op.name[..9];
    match op
    case Make(_, size) =>
      if k in files || |files| >= 10 then files' == files
      else files'.Keys == files.Keys + {k} && |files'[k]| == size && forall j <- files :: files'[j] == files[j]
    case Delete(_) =>
      files'.Keys == files.Keys - {k} && forall j <- files' :: files'[j] == files[j]
    case Write(_, position, data) =>
      && files'.Keys == files.Keys && (forall j <- files | j != k :: files'[j] == files[j])
      && (k in files ==> Overwritten(files[k], files'[k], position, data))
  }

  lemma OverlayOverwrites(f: seq<byte>, position: nat, data: seq<byte>)
    ensures Overwritten(f, Overlay(f, position, Fitting(data, position, |f|)), position, data)
  {
    var fitting := Fitting(data, position, |f|);
    TransferClamps(|data|, position, |f|);
    forall i | 0 <= i < |f|
      ensures Overlay(f, position, fitting)[i]
        == if position <= i < position + |data| then data[i - position] else f[i]
    {
      OverlayByte(f, position, fitting, i);
    }
  }

  lemma FilesOfAt(catalog: map<CString, FileInfo>, k: CString)
    ensures k in FilesOf(catalog) <==> k in catalog
    ensures k in catalog ==> FilesOf(catalog)[k] == catalog[k].content
  {
  }

  lemma MakeRefines(img: Image, img': Image, name: CString, size: FileSize)
    requires DiskStep(img, img', Make(name, size))
    ensures Consistent(img') && FileStep(FilesOn(img), FilesOn(img'), Make(name, size))
  {
    hide Consistent, Catalog, CanCreate, FilesOf, BitsIn, Sectors, NameKey;
    var k := NameKey(name);
    NameKeyIsNine(name);
    CreateSucceeds(img, k, size);
    var info := if CanCreate(img, k, size) then Catalog(img')[k] else FileInfo(0, HeaderAt(img, 0), []);
    FilesOfUpdate(Catalog(img), k, info);
    hide HeaderAt;
    if CanCreate(img, k, size) {
      CreatedSize(img, img', k, size);
    }
  }

  lemma DeleteRefines(img: Image, img': Image, name: CString)
    requires DiskStep(img, img', Delete(name))
    ensures Consistent(img') && FileStep(FilesOn(img), FilesOn(img'), Delete(name))
  {
    hide Consistent, Catalog, FilesOf, BitsIn, Sectors, NameKey;
    NameKeyIsNine(name);
    FilesOfUpdate(Catalog(img), NameKey(name), FileInfo(0, HeaderAt(img, 0), []));
  }

  lemma WriteRefines(img: Image, img': Image, name: CString, position: nat, data: seq<byte>)
    requires DiskStep(img, img', Write(name, position, data))
    ensures Consistent(img') && FileStep(FilesOn(img), FilesOn(img'), Write(name, position, data))
  {
    var k := NameKey(name);
    NameKeyIsNine(name);
    hide NameKey, Fitting, Overlay, BitsIn, Consistent, Catalog;
    FilesOfAt(Catalog(img), k);
    hide FilesOf;
    if k in Catalog(img) {
      var info := Catalog(img)[k];
      OverlayOverwrites(info.content, position, data);
      var fitting := Fitting(data, position, |info.content|);
      FilesOfUpdate(Catalog(img), k, info.(content := Overlay(info.content, position, fitting)));
    }
  }

  lemma StepRefines(img: Image, img': Image, op: Op)
    requires DiskStep(img, img', op)
    ensures Consistent(img') && FileStep(FilesOn(img), FilesOn(img'), op)
  {
    hide DiskStep, Consistent, FileStep;
    match op
    case Make(name, size) => MakeRefines(img, img', name, size);
    case Delete(name) => DeleteRefines(img, img', name);
    case Write(name, position, data) => WriteRefines(img, img', name, position, data);
  }

  /**
   * Every run of calls from a consistent disk, such as a freshly formatted one, stays
   * consistent, and does to the map from names to bytes what the calls mean.
   */
  lemma {:induction false} RunRefines(imgs: seq<Image>, ops: seq<Op>)
    requires |imgs| == |ops| + 1 && Consistent(imgs[0])
    requires forall i | 0 <= i < |ops| :: Consistent(imgs[i]) ==> DiskStep(imgs[i], imgs[i + 1], ops[i])
    ensures forall img <- imgs :: Consistent(img)
    ensures forall i | 0 <= i < |ops| :: FileStep(FilesOn(imgs[i]), FilesOn(imgs[i + 1]), ops[i])
  {
    hide Consistent, FileStep, FilesOn, DiskStep;
    if ops != [] {
      StepRefines(imgs[0], imgs[1], ops[0]);
      var rest, later := imgs[1..], ops[1..];
      forall i | 0 <= i < |later| && Consistent(rest[i])
        ensures DiskStep(rest[i], rest[i + 1], later[i])
      {
        assert rest[i] == imgs[i + 1] && rest[i + 1] == imgs[i + 1 + 1] && later[i] == ops[i + 1];
      }
      RunRefines(rest, later);
      forall i | 0 <= i < |ops|
        ensures FileStep(FilesOn(imgs[i]), FilesOn(imgs[i + 1]), ops[i])
      {
        if i > 0 {
          assert imgs[i] == rest[i - 1] && imgs[i + 1] == rest[i - 1 + 1] && ops[i] == later[i - 1];
        }
      }
    }
  }

  // ---- the calls themselves ----

  /** Open, WriteAt. */
  method WriteFile(fileSystem: FileSystem, name: CString, position: nat, data: seq<byte>)
    requires fileSystem.Valid()
    modifies fileSystem.disk
    ensures fileSystem.Valid()
    ensures DiskStep(old(fileSystem.disk.image), fileSystem.disk.image, Write(name, position, data))
  {
    hide Consistent, Catalog, NameKey, Written, Rewritten, DecodeHeader, Flat, Header.Good;
    var openFile := fileSystem.Open(name);
    if openFile != null {
      ghost var img, k := fileSystem.disk.image, NameKey(name);
      HeaderMatchesContent(img, k);
      var n := openFile.WriteAt(data, |data|, position);
      WriteByName(img, fileSystem.disk.image, k, position, data[..n]);
      RewrittenIsConsistent(img, fileSystem.disk.image, k, position, data[..n]);
    }
  }

  /** One call on the file system does to the disk what DiskStep says, hence to the files what it means. */
  method Perform(fileSystem: FileSystem, op: Op)
    requires fileSystem.Valid()
    modifies fileSystem.disk
    ensures fileSystem.Valid()
    ensures DiskStep(old(fileSystem.disk.image), fileSystem.disk.image, op)
    ensures FileStep(old(FilesOn(fileSystem.disk.image)), FilesOn(fileSystem.disk.image), op)
  {
    ghost var img := fileSystem.disk.image;
    hide Consistent, Catalog, CanCreate, NameKey, Created, Removed, Rewritten, FilesOf, FileStep, DecodeHeader;
    match op {
      case Make(name, size) => var made := fileSystem.Create(name, size);
      case Delete(name) => var deleted := fileSystem.Remove(name);
      case Write(name, position, data) => WriteFile(fileSystem, name, position, data);
    }
    StepRefines(img, fileSystem.disk.image, op);
  }

  method Format(disk: SynchDisk) returns (fileSystem: FileSystem)
    modifies disk
    ensures fresh(fileSystem) && fileSystem.Valid() && fileSystem.disk == disk
    ensures Catalog(disk.image) == map[] && FilesOn(disk.image) == map[]
  {
    hide Consistent, Catalog, CountClear, DecodeHeader, BitsIn;
    fileSystem := new FileSystem(disk, true);
    assert Catalog(disk.image) == map[];
  }

  /**
   * Two empty files made on a fresh disk: the second call succeeds exactly when the names
   * differ within nine bytes, and opening the second name gives the file known by its first nine.
   */
  method TwoNames(disk: SynchDisk, a: CString, b: CString) returns (first: bool, second: bool, handle: OpenFile?)
    modifies disk
    ensures Consistent(disk.image) && first
    ensures second <==> !(a == b || (|a| >= 9 && |b| >= 9 && a[..9] == b[..9]))
    ensures |Catalog(disk.image)| == if second then 2 else 1
    ensures var k := if |b| <= 9 then b else b[..9];
      handle != null && k in Catalog(disk.image) && handle.hdr.Valid()
      && handle.hdr.Value() == Catalog(disk.image)[k].header
  {
    hide Consistent, Catalog, CanCreate, NameKey, BitsIn, DecodeHeader, Flat, Header.Good;
    SameFileName(a, b);
    NameKeyIsNine(b);
    var fileSystem := Format(disk);
    CreateSucceeds(disk.image, NameKey(a), 0);
    first := fileSystem.Create(a, 0);
    CreateSucceeds(disk.image, NameKey(b), 0);
    second := fileSystem.Create(b, 0);
    handle := fileSystem.Open(b);
  }

  /**
   * Any sequence of calls after formatting any disk: the disk ends consistent, and the files
   * went from none to those on the disk by the steps that the calls mean.
   */
  method Execute(disk: SynchDisk, ops: seq<Op>) returns (fileSystem: FileSystem, ghost states: seq<Files>)
    modifies disk
    ensures fileSystem.Valid() && fileSystem.disk == disk && Consistent(disk.image)
    ensures |states| == |ops| + 1 && states[0] == map[] && states[|ops|] == FilesOn(disk.image)
    ensures forall i | 0 <= i < |ops| :: FileStep(states[i], states[i + 1], ops[i])
  {
    hide Consistent, Catalog, FilesOn, FileStep, DiskStep, DecodeHeader;
    fileSystem := Format(disk);
    states := [FilesOn(disk.image)];
    for n := 0 to |ops|
      invariant fileSystem.Valid() && fileSystem.disk == disk
      invariant |states| == n + 1 && states[0] == map[] && states[n] == FilesOn(disk.image)
      invariant forall i | 0 <= i < n :: FileStep(states[i], states[i + 1], ops[i])
    {
      Perform(fileSystem, ops[n]);
      states := states + [FilesOn(disk.image)];
    }
  }
}
