/** The flat directory: a fixed table of names and header sectors. */
module Directories {
  import opened Bytes
  import opened DiskImage
  import opened OpenFiles

  const FILE_NAME_MAX_LEN := 9
  const ENTRY_SIZE := 20

  /** A C string without its terminating NUL. */
  type CString = s: seq<byte> | 0 !in s

  type NameField = f: seq<byte> | |f| == 10 witness BlankName()

  function BlankName(): (f: seq<byte>)
    ensures |f| == 10
  {
    seq(10, _ => 0)
  }

  datatype DirectoryEntry = DirectoryEntry(inUse: bool, sector: int32, name: NameField)

  /** strncmp(a, b, n) == 0. */
  predicate StrnEqual(a: seq<byte>, b: seq<byte>, n: nat)
    requires |a| >= n || 0 in a
    requires |b| >= n || 0 in b
  {
    if n == 0 then true
    else if a[0] != b[0] then false
    else if a[0] == 0 then true
    else StrnEqual(a[1..], b[1..], n - 1)
  }

  /** The part of a string that the directory distinguishes: what comes before the first NUL, at most
      n bytes of it. */
  function Key(s: seq<byte>, n: nat): (k: CString)
    requires |s| >= n || 0 in s
    ensures |k| <= n
  {
    if n == 0 || s[0] == 0 then [] else [s[0]] + Key(s[1..], n - 1)
  }

  /** The bytes strncpy(_, s, n) stores: a copy up to the NUL, padded with NULs. */
  function Strncpy(s: seq<byte>, n: nat): (t: seq<byte>)
    requires |s| >= n || 0 in s
    ensures |t| == n
  {
    if n == 0 then []
    else if s[0] == 0 then seq(n, _ => 0)
    else [s[0]] + Strncpy(s[1..], n - 1)
  }

  lemma {:induction false} EqualMeansSameKey(a: seq<byte>, b: seq<byte>, n: nat)
    requires |a| >= n || 0 in a
    requires |b| >= n || 0 in b
    ensures StrnEqual(a, b, n) <==> Key(a, n) == Key(b, n)
  {
    if n > 0 && a[0] == b[0] && a[0] != 0 {
      EqualMeansSameKey(a[1..], b[1..], n - 1);
      assert Key(a, n)[1..] == Key(a[1..], n - 1);
      assert Key(b, n)[1..] == Key(b[1..], n - 1);
    } else if n > 0 && a[0] != b[0] {
      assert Key(a, n) == [] || Key(a, n)[0] == a[0];
      assert Key(b, n) == [] || Key(b, n)[0] == b[0];
    }
  }

  lemma {:induction false} CopyKeepsKey(s: seq<byte>, n: nat, rest: seq<byte>)
    requires |s| >= n || 0 in s
    ensures Key(Strncpy(s, n) + rest, n) == Key(s, n)
  {
    if n > 0 && s[0] != 0 {
      CopyKeepsKey(s[1..], n - 1, rest);
      assert (Strncpy(s, n) + rest)[1..] == Strncpy(s[1..], n - 1) + rest;
    }
  }

  /** What Key yields: the bytes in front of the first NUL among the first n, or all n. */
  lemma {:induction false} KeyIs(s: seq<byte>, n: nat)
    requires |s| >= n || 0 in s
    ensures var k := Key(s, n);
      && |k| <= n && |k| <= |s| && k == s[..|k|] && (|k| == n || (|k| < |s| && s[|k|] == 0))
  {
    if n > 0 && s[0] != 0 {
      KeyIs(s[1..], n - 1);
      assert Key(s, n)[1..] == Key(s[1..], n - 1);
    }
  }

  function NameKey(name: CString): CString {
    Key(name + [0], FILE_NAME_MAX_LEN)
  }

  function EntryKey(e: DirectoryEntry): CString {
    Key(e.name, FILE_NAME_MAX_LEN)
  }

  /** A file is known by the first nine bytes of its name. */
  lemma NameKeyIsNine(name: CString)
    ensures NameKey(name) == if |name| <= 9 then name else name[..9]
  {
    var s, k := name + [0], NameKey(name);
    KeyIs(s, 9);
    assert forall i | 0 <= i < |k| :: s[i] == k[i] && k[i] in k;
    assert s[|name|] == 0 && |k| <= |name|;
    assert |k| < |name| ==> s[|k|] == name[|k|] && name[|k|] in name;
  }

  /** Two names mean the same file exactly when they agree on nine bytes, or altogether. */
  lemma SameFileName(a: CString, b: CString)
    ensures NameKey(a) == NameKey(b) <==> a == b || (|a| >= 9 && |b| >= 9 && a[..9] == b[..9])
  {
    NameKeyIsNine(a);
    NameKeyIsNine(b);
    assert |a| == 9 ==> a[..9] == a;
    assert |b| == 9 ==> b[..9] == b;
  }

  /** An entry is known by the bytes of its name field in front of the first NUL, nine at most. */
  lemma EntryKeyIsNine(e: DirectoryEntry)
    ensures var k := EntryKey(e); |k| <= 9 && k == e.name[..|k|] && (|k| < 9 ==> e.name[|k|] == 0)
  {
    KeyIs(e.name, 9);
  }

  ghost predicate UniqueNames(table: seq<DirectoryEntry>) {
    forall i, j | 0 <= i < j < |table| && table[i].inUse && table[j].inUse :: EntryKey(table[i]) != EntryKey(table[j])
  }

  /** Entry i is the one in use under the key k. */
  ghost predicate Lists(table: seq<DirectoryEntry>, i: int, k: CString) {
    0 <= i < |table| && table[i].inUse && EntryKey(table[i]) == k
  }

  class Directory {
    const table: array<DirectoryEntry>

    constructor (size: nat)
      ensures fresh(table) && table.Length == size
      ensures forall i | 0 <= i < size :: !table[i].inUse
    {
      table := new DirectoryEntry[size];
      new;
      for i := 0 to size
        invariant forall j | 0 <= j < i :: !table[j].inUse
      {
        table[i] := table[i].(inUse := false);
      }
    }

    method FetchFrom(file: OpenFile)
      requires file.Valid() && file.hdr.numBytes % ENTRY_SIZE == 0 && file.hdr.numBytes / ENTRY_SIZE == table.Length
      modifies table
      ensures table[..] == DecodeTable(file.Content())
    {
      hide DecodeTable, Flat, Transfer, Slice;
      WholeFile(file.Content());
      var size := ENTRY_SIZE * table.Length;
      assert size == file.hdr.numBytes;
      var buffer := new byte[size];
      var n := file.ReadAt(buffer, 0, size, 0);
      assert buffer[..] == file.Content();
      var entries := DecodeTable(buffer[..]);
      forall i | 0 <= i < table.Length {
        table[i] := entries[i];
      }
    }

    method WriteBack(file: OpenFile)
      requires file.Valid() && file.hdr.numBytes == ENTRY_SIZE * table.Length
      modifies file.disk
      ensures Written(old(file.disk.image), file.disk.image, file.hdr.Value(), 0, EncodeTable(table[..]))
    {
      hide EncodeTable, Written;
      var bytes := EncodeTable(table[..]);
      var n := file.WriteAt(bytes, ENTRY_SIZE * table.Length, 0);
      assert bytes[..n] == bytes;
    }

    method FindIndex(name: CString) returns (index: int)
      ensures index == -1 || Lists(table[..], index, NameKey(name))
      ensures index == -1 ==> forall i | 0 <= i < table.Length :: !Lists(table[..], i, NameKey(name))
    {
      for i := 0 to table.Length
        invariant forall j | 0 <= j < i :: !Lists(table[..], j, NameKey(name))
      {
        EqualMeansSameKey(table[i].name, name + [0], FILE_NAME_MAX_LEN);
        if table[i].inUse && StrnEqual(table[i].name, name + [0], FILE_NAME_MAX_LEN) {
          return i;
        }
      }
      return -1;
    }

    method Find(name: CString) returns (sector: int)
      ensures (exists i :: Lists(table[..], i, NameKey(name)) && sector == table[i].sector)
              || (sector == -1 && forall i | 0 <= i < table.Length :: !Lists(table[..], i, NameKey(name)))
    {
      var i := FindIndex(name);
      if i != -1 {
        return table[i].sector;
      }
      return -1;
    }

    /** Uses the first unused entry, if the name is new. */
    method Add(name: CString, newSector: int32) returns (ok: bool)
      modifies table
      ensures ok <==> (forall i | 0 <= i < table.Length :: !Lists(old(table[..]), i, NameKey(name)))
                      && (exists i | 0 <= i < table.Length :: !old(table[..])[i].inUse)
      ensures !ok ==> table[..] == old(table[..])
      ensures ok ==> exists i, e :: Added(old(table[..]), table[..], i, e, name, newSector)
    {
      var index := FindIndex(name);
      if index != -1 {
        return false;
      }
      for i := 0 to table.Length
        invariant table[..] == old(table[..])
        invariant forall j | 0 <= j < i :: table[j].inUse
      {
        if !table[i].inUse {
          CopyKeepsKey(name + [0], FILE_NAME_MAX_LEN, table[i].name[FILE_NAME_MAX_LEN..]);
          var e := DirectoryEntry(true, newSector,
                                  Strncpy(name + [0], FILE_NAME_MAX_LEN) + table[i].name[FILE_NAME_MAX_LEN..]);
          table[i] := e;
          assert Added(old(table[..]), table[..], i, e, name, newSector);
          return true;
        }
      }
      return false;
    }

    method Remove(name: CString) returns (ok: bool)
      modifies table
      ensures ok <==> exists i :: Lists(old(table[..]), i, NameKey(name))
      ensures !ok ==> table[..] == old(table[..])
      ensures ok ==> exists i :: Lists(old(table[..]), i, NameKey(name))
                                 && table[..] == old(table[..])[i := old(table[..])[i].(inUse := false)]
    {
      var i := FindIndex(name);
      if i == -1 {
        return false;
      }
      ghost var before := table[..];
      table[i] := table[i].(inUse := false);
      assert Lists(before, i, NameKey(name)) && table[..] == before[i := before[i].(inUse := false)];
      return true;
    }
  }

  /** The first unused entry of the table has become e, which lists the name at the sector. */
  ghost predicate Added(before: seq<DirectoryEntry>, after: seq<DirectoryEntry>, i: int, e: DirectoryEntry,
                        name: CString, sector: int32)
  {
    && 0 <= i < |before| && !before[i].inUse && (forall j | 0 <= j < i :: before[j].inUse)
    && e.inUse && e.sector == sector && EntryKey(e) == NameKey(name)
    && after == before[i := e]
  }

  /** The layout of an entry in memory: a bool padded to four bytes, an int, ten characters, two of padding. */
  function EncodeEntry(e: DirectoryEntry): (b: seq<byte>)
    ensures |b| == ENTRY_SIZE
  {
    [if e.inUse then 1 else 0, 0, 0, 0] + EncodeWord(ToWord(e.sector)) + e.name + [0, 0]
  }

  function DecodeEntry(b: seq<byte>): DirectoryEntry
    requires |b| == ENTRY_SIZE
  {
    DirectoryEntry(b[0] != 0, FromWord(DecodeWord(b[4..8])), b[8..18])
  }

  lemma EntryRoundTrip(e: DirectoryEntry)
    ensures DecodeEntry(EncodeEntry(e)) == e
  {
    var b := EncodeEntry(e);
    assert b[4..8] == EncodeWord(ToWord(e.sector));
    assert b[8..18] == e.name;
    WordRoundTrip(ToWord(e.sector));
  }

  /** In use at byte 0, the sector at bytes 4 to 7, the name at bytes 8 to 17 of twenty. */
  lemma EntryLayout(e: DirectoryEntry)
    ensures var b := EncodeEntry(e);
      |b| == 20 && (b[0] != 0 <==> e.inUse) && b[4..8] == EncodeWord(ToWord(e.sector)) && b[8..18] == e.name
  {
    var b := EncodeEntry(e);
    assert b[4..8] == EncodeWord(ToWord(e.sector));
    assert b[8..18] == e.name;
  }

  function EncodeTable(table: seq<DirectoryEntry>): (b: seq<byte>)
    ensures |b| == ENTRY_SIZE * |table|
  {
    seq(ENTRY_SIZE * |table|, i requires 0 <= i < ENTRY_SIZE * |table| =>
      EncodeEntry(table[i / ENTRY_SIZE])[i % ENTRY_SIZE])
  }

  function DecodeTable(b: seq<byte>): (table: seq<DirectoryEntry>)
    requires |b| % ENTRY_SIZE == 0
    ensures |table| == |b| / ENTRY_SIZE
  {
    seq(|b| / ENTRY_SIZE,
      i requires 0 <= i < |b| / ENTRY_SIZE => DecodeEntry(b[ENTRY_SIZE * i..ENTRY_SIZE * i + ENTRY_SIZE]))
  }

  lemma EncodeTableAt(table: seq<DirectoryEntry>, i: nat)
    requires i < |table|
    ensures EncodeTable(table)[ENTRY_SIZE * i..ENTRY_SIZE * i + ENTRY_SIZE] == EncodeEntry(table[i])
  {
    hide EncodeEntry;
    var b := EncodeTable(table);
    forall j | 0 <= j < ENTRY_SIZE
      ensures b[ENTRY_SIZE * i..ENTRY_SIZE * i + ENTRY_SIZE][j] == EncodeEntry(table[i])[j]
    {
      assert (ENTRY_SIZE * i + j) / ENTRY_SIZE == i && (ENTRY_SIZE * i + j) % ENTRY_SIZE == j;
    }
  }

  lemma TableRoundTrip(table: seq<DirectoryEntry>)
    ensures DecodeTable(EncodeTable(table)) == table
  {
    hide EncodeTable, EncodeEntry, DecodeEntry;
    forall i | 0 <= i < |table|
      ensures DecodeTable(EncodeTable(table))[i] == table[i]
    {
      EncodeTableAt(table, i);
      EntryRoundTrip(table[i]);
    }
  }
}
