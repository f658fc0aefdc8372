/** Byte-granular access to a file whose data lies in scattered whole sectors. */
module OpenFiles {
  import opened Bytes
  import opened DiskImage
  import opened SynchDisks
  import opened FileHeaders

  /** How many bytes a request moves: none past the end of the file, and never beyond it. */
  function Transfer(numBytes: int, position: int, length: int): (n: nat)
    requires position >= 0
  {
    if numBytes <= 0 || position >= length then 0
    else if position + numBytes > length then length - position
    else numBytes
  }

  /** A request moves what it asks for, cut at the end of the file, and nothing when it starts there or asks for less
      than a byte. */
  lemma TransferClamps(numBytes: int, position: int, length: int)
    requires position >= 0
    ensures var n := Transfer(numBytes, position, length);
      && (n == 0 <==> numBytes <= 0 || length <= position)
      && (n > 0 ==> n <= numBytes && position + n <= length && (n == numBytes || position + n == length))
  {
  }

  /** The first and the last sector of a range lie in the file, and between them the range. */
  lemma SectorRange(h: Header, position: int, n: int)
    requires h.Good() && 0 <= position && 0 < n && position + n <= h.numBytes
    ensures var first, last := position / SECTOR_SIZE, (position + n - 1) / SECTOR_SIZE;
      && 0 <= first <= last < h.numSectors && first * SECTOR_SIZE <= position
      && position + n <= (last + 1) * SECTOR_SIZE <= h.numSectors * SECTOR_SIZE
  {
  }

  /** The sectors that hold the n bytes from position on. */
  ghost function Touched(h: Header, position: int, n: nat): set<int>
    requires h.Good() && position >= 0 && (n > 0 ==> position + n <= h.numBytes)
  {
    set j | n > 0 && position / SECTOR_SIZE <= j <= (position + n - 1) / SECTOR_SIZE :: h.pointers[j]
  }

  lemma TouchedIsData(h: Header, position: int, n: nat)
    requires h.Good() && position >= 0 && (n > 0 ==> position + n <= h.numBytes)
    ensures Touched(h, position, n) <= h.Data()
  {
  }

  function Slice(f: seq<byte>, position: int, n: nat): (s: seq<byte>)
    requires position >= 0 && (n > 0 ==> position + n <= |f|)
    ensures |s| == n
  {
    if n == 0 then [] else f[position..position + n]
  }

  /** A request for a whole file moves the whole file. */
  lemma WholeFile(f: seq<byte>)
    ensures Transfer(|f|, 0, |f|) == |f| && Slice(f, 0, |f|) == f
  {
  }

  ghost function Overlay(f: seq<byte>, position: int, data: seq<byte>): (g: seq<byte>)
    requires position >= 0 && (|data| > 0 ==> position + |data| <= |f|)
    ensures |g| == |f|
  {
    if data == [] then f else Splice(f, position, data)
  }

  /** An overlay changes the bytes of its range, and no other. */
  lemma OverlayByte(f: seq<byte>, position: int, data: seq<byte>, k: int)
    requires position >= 0 && (|data| > 0 ==> position + |data| <= |f|) && 0 <= k < |f|
    ensures Overlay(f, position, data)[k] == if position <= k < position + |data| then data[k - position] else f[k]
  {
  }

  /** A slice gives the bytes from its position on. */
  lemma SliceByte(f: seq<byte>, position: int, n: nat, k: int)
    requires position >= 0 && (n > 0 ==> position + n <= |f|) && 0 <= k < n
    ensures Slice(f, position, n)[k] == f[position + k]
  {
  }

  /** The whole effect of a write on the disk: the file's flat bytes change exactly in the range
      written, and no sector outside that range changes at all. */
  ghost predicate Written(img: Image, img': Image, h: Header, position: int, data: seq<byte>) {
    && h.Good() && position >= 0 && (|data| > 0 ==> position + |data| <= h.numBytes)
    && Flat(img', h) == Overlay(Flat(img, h), position, data)
    && SameOutside(img, img', Touched(h, position, |data|))
  }

  /** Byte k of the sectors of the file, which may lie in the slack after its last byte. */
  ghost function StoredByte(img: Image, h: Header, k: int): byte
    requires h.Good() && 0 <= k < h.numSectors * SECTOR_SIZE
  {
    img[h.pointers[k / SECTOR_SIZE]][k % SECTOR_SIZE]
  }

  /** buf is what the sectors of the file hold from sector first on. */
  ghost predicate Loaded(img: Image, h: Header, first: int, buf: seq<byte>)
    requires h.Good() && 0 <= first && first * SECTOR_SIZE + |buf| <= h.numSectors * SECTOR_SIZE
  {
    forall k | 0 <= k < |buf| :: buf[k] == StoredByte(img, h, first * SECTOR_SIZE + k)
  }

  lemma LoadNone(img: Image, h: Header, first: int)
    requires h.Good() && 0 <= first <= h.numSectors
    ensures Loaded(img, h, first, [])
  {
  }

  lemma LoadOneMore(img: Image, h: Header, first: int, buf: seq<byte>)
    requires h.Good() && 0 <= first && |buf| % SECTOR_SIZE == 0
    requires first * SECTOR_SIZE + |buf| + SECTOR_SIZE <= h.numSectors * SECTOR_SIZE
    requires Loaded(img, h, first, buf)
    ensures Loaded(img, h, first, buf + img[h.pointers[first + |buf| / SECTOR_SIZE]])
  {
  }

  lemma LoadedByte(img: Image, h: Header, first: int, buf: seq<byte>, k: int)
    requires h.Good() && 0 <= first && first * SECTOR_SIZE + |buf| <= h.numSectors * SECTOR_SIZE
    requires Loaded(img, h, first, buf)
    requires first * SECTOR_SIZE <= k < first * SECTOR_SIZE + |buf| && k < h.numBytes
    ensures buf[k - first * SECTOR_SIZE] == Flat(img, h)[k]
  {
    assert buf[k - first * SECTOR_SIZE] == StoredByte(img, h, first * SECTOR_SIZE + (k - first * SECTOR_SIZE));
  }

  lemma LoadedSlice(img: Image, h: Header, first: int, buf: seq<byte>, position: int, n: nat)
    requires h.Good() && 0 <= first && first * SECTOR_SIZE + |buf| <= h.numSectors * SECTOR_SIZE
    requires Loaded(img, h, first, buf)
    requires first * SECTOR_SIZE <= position && position + n <= h.numBytes
    requires position + n <= first * SECTOR_SIZE + |buf|
    ensures var skip := position - first * SECTOR_SIZE;
            buf[skip..skip + n] == Slice(Flat(img, h), position, n)
  {
    hide Loaded, Flat;
    var skip := position - first * SECTOR_SIZE;
    forall j | 0 <= j < n
      ensures buf[skip..skip + n][j] == Slice(Flat(img, h), position, n)[j]
    {
      LoadedByte(img, h, first, buf, position + j);
    }
  }

  /** buf holds the sectors from first on, as they must be after the write, except for the slack. */
  ghost predicate Prepared(img: Image, h: Header, first: int, buf: seq<byte>, position: int, data: seq<byte>)
    requires h.Good() && 0 <= first && first * SECTOR_SIZE + |buf| <= h.numSectors * SECTOR_SIZE
  {
    forall k | first * SECTOR_SIZE <= k < first * SECTOR_SIZE + |buf| && k < h.numBytes ::
      buf[k - first * SECTOR_SIZE] ==
      if position <= k < position + |data| then data[k - position] else StoredByte(img, h, k)
  }

  /** piece holds what file f has in its j-th sector. */
  ghost predicate HoldsSector(f: seq<byte>, j: int, piece: seq<byte>)
    requires j >= 0 && |piece| == SECTOR_SIZE
  {
    forall k | j * SECTOR_SIZE <= k < (j + 1) * SECTOR_SIZE && k < |f| :: piece[k - j * SECTOR_SIZE] == f[k]
  }

  lemma ReadHoldsSector(f: seq<byte>, j: int, before: seq<byte>, offset: nat, after: seq<byte>)
    requires j >= 0 && offset + SECTOR_SIZE <= |before|
    requires var n := Transfer(SECTOR_SIZE, j * SECTOR_SIZE, |f|);
             after == before[..offset] + Slice(f, j * SECTOR_SIZE, n) + before[offset + n..]
    ensures |after| == |before| && after[..offset] == before[..offset]
    ensures HoldsSector(f, j, after[offset..offset + SECTOR_SIZE])
  {
  }

  /** The sectors that a write covers only in part, and which WriteAt must therefore read first. */
  ghost predicate EdgesRead(f: seq<byte>, first: int, last: int, buf: seq<byte>, position: int, n: nat)
    requires 0 <= first <= last && |buf| == (last - first + 1) * SECTOR_SIZE
  {
    && (position != first * SECTOR_SIZE ==> HoldsSector(f, first, buf[..SECTOR_SIZE]))
    && (position + n != (last + 1) * SECTOR_SIZE ==> HoldsSector(f, last, buf[(last - first) * SECTOR_SIZE..]))
  }

  lemma EdgesPrepared(img: Image, h: Header, first: int, last: int, buf: seq<byte>, position: int, data: seq<byte>)
    requires h.Good() && 0 <= first <= last < h.numSectors && |buf| == (last - first + 1) * SECTOR_SIZE
    requires |data| > 0 && first == position / SECTOR_SIZE && last == (position + |data| - 1) / SECTOR_SIZE
    requires position >= 0 && EdgesRead(Flat(img, h), first, last, buf, position, |data|)
    ensures Prepared(img, h, first, Splice(buf, position - first * SECTOR_SIZE, data), position, data)
  {
    hide EdgesRead, StoredByte, Flat;
    var base := first * SECTOR_SIZE;
    var laid := Splice(buf, position - base, data);
    forall k | base <= k < base + |buf| && k < h.numBytes
      ensures laid[k - base] == if position <= k < position + |data| then data[k - position] else StoredByte(img, h, k)
    {
      FlatIsStored(img, h, k);
      LaidByte(Flat(img, h), first, last, buf, position, data, k);
    }
  }

  lemma FlatIsStored(img: Image, h: Header, k: int)
    requires h.Good() && 0 <= k < h.numBytes
    ensures k < h.numSectors * SECTOR_SIZE && StoredByte(img, h, k) == Flat(img, h)[k]
  {
  }

  /** A byte of the buffer after the copy: a new byte, or one that was read from the file. */
  lemma LaidByte(f: seq<byte>, first: int, last: int, buf: seq<byte>, position: int, data: seq<byte>, k: int)
    requires 0 <= first <= last && |buf| == (last - first + 1) * SECTOR_SIZE && |data| > 0 && 0 <= position
    requires first == position / SECTOR_SIZE && last == (position + |data| - 1) / SECTOR_SIZE
    requires EdgesRead(f, first, last, buf, position, |data|)
    requires first * SECTOR_SIZE <= k < first * SECTOR_SIZE + |buf| && k < |f|
    ensures Splice(buf, position - first * SECTOR_SIZE, data)[k - first * SECTOR_SIZE]
      == if position <= k < position + |data| then data[k - position] else f[k]
  {
    if !(position <= k < position + |data|) {
      EdgeByte(f, first, last, buf, position, |data|, k);
    }
    hide EdgesRead;
  }

  /** A byte of the buffer that the write does not cover was read from the file. */
  lemma EdgeByte(f: seq<byte>, first: int, last: int, buf: seq<byte>, position: int, n: nat, k: int)
    requires 0 <= first <= last && |buf| == (last - first + 1) * SECTOR_SIZE && n > 0 && 0 <= position
    requires first == position / SECTOR_SIZE && last == (position + n - 1) / SECTOR_SIZE
    requires EdgesRead(f, first, last, buf, position, n)
    requires first * SECTOR_SIZE <= k < first * SECTOR_SIZE + |buf| && k < |f| && !(position <= k < position + n)
    ensures buf[k - first * SECTOR_SIZE] == f[k]
  {
    if k < position {
      assert buf[..SECTOR_SIZE][k - first * SECTOR_SIZE] == f[k];
    } else {
      assert buf[(last - first) * SECTOR_SIZE..][k - last * SECTOR_SIZE] == f[k];
    }
  }

  /** img' is img with sectors first, first+1, ... of the file replaced by the contents of buf. */
  ghost predicate Stored(img: Image, img': Image, h: Header, first: int, count: int, buf: seq<byte>)
    requires h.Good() && 0 <= first && 0 <= count && first + count <= h.numSectors
    requires count * SECTOR_SIZE <= |buf|
  {
    && (forall j | 0 <= j < count :: img'[h.pointers[first + j]] == buf[j * SECTOR_SIZE..(j + 1) * SECTOR_SIZE])
    && (forall s | 0 <= s < NUM_SECTORS && s !in (set j | first <= j < first + count :: h.pointers[j]) ::
      img'[s] == img[s])
  }

  lemma StoreNone(img: Image, h: Header, first: int, buf: seq<byte>)
    requires h.Good() && 0 <= first <= h.numSectors
    ensures Stored(img, img, h, first, 0, buf)
  {
  }

  lemma StoreOneMore(img: Image, before: Image, h: Header, first: int, count: int, buf: seq<byte>)
    requires h.Good() && 0 <= first && 0 <= count && first + count < h.numSectors
    requires (count + 1) * SECTOR_SIZE <= |buf|
    requires Stored(img, before, h, first, count, buf)
    ensures Stored(img, before[h.pointers[first + count] := buf[count * SECTOR_SIZE..(count + 1) * SECTOR_SIZE]],
                   h, first, count + 1, buf)
  {
    var s := h.pointers[first + count];
    var after := before[s := buf[count * SECTOR_SIZE..(count + 1) * SECTOR_SIZE]];
    forall t | 0 <= t < NUM_SECTORS && t !in (set j | first <= j < first + count + 1 :: h.pointers[j])
      ensures after[t] == img[t]
    {
      assert s in (set j | first <= j < first + count + 1 :: h.pointers[j]);
      if t in (set j | first <= j < first + count :: h.pointers[j]) {
        assert false;
      }
    }
  }

  lemma StoredByteIsWritten(img: Image, img': Image, h: Header, first: int, count: int, buf: seq<byte>,
                            position: int, data: seq<byte>, k: int)
    requires h.Good() && 0 <= first && 0 <= count && first + count <= h.numSectors && 0 <= k < h.numBytes
    requires |buf| == count * SECTOR_SIZE
    requires Prepared(img, h, first, buf, position, data) && Stored(img, img', h, first, count, buf)
    requires first * SECTOR_SIZE <= position && position + |data| <= (first + count) * SECTOR_SIZE
    ensures ByteAt(img', h, k) == if position <= k < position + |data| then data[k - position] else ByteAt(img, h, k)
  {
    var j := k / SECTOR_SIZE;
    assert StoredByte(img, h, k) == ByteAt(img, h, k);
    if first <= j < first + count {
      assert img'[h.pointers[first + (j - first)]] == buf[(j - first) * SECTOR_SIZE..(j - first + 1) * SECTOR_SIZE];
      assert ByteAt(img', h, k) == buf[k - first * SECTOR_SIZE];
    } else {
      assert h.pointers[j] !in (set i | first <= i < first + count :: h.pointers[i]);
    }
  }

  lemma StoredIsWritten(img: Image, img': Image, h: Header, buf: seq<byte>, position: int, data: seq<byte>)
    requires h.Good() && position >= 0 && |data| > 0 && position + |data| <= h.numBytes
    requires var first, last := position / SECTOR_SIZE, (position + |data| - 1) / SECTOR_SIZE;
             && |buf| == (last - first + 1) * SECTOR_SIZE
             && Prepared(img, h, first, buf, position, data)
             && Stored(img, img', h, first, last - first + 1, buf)
    ensures Written(img, img', h, position, data)
  {
    var first, last := position / SECTOR_SIZE, (position + |data| - 1) / SECTOR_SIZE;
    assert SameOutside(img, img', Touched(h, position, |data|)) by {
      assert (set j | first <= j < first + (last - first + 1) :: h.pointers[j]) == Touched(h, position, |data|);
    }
    hide Prepared, Stored;
    forall k | 0 <= k < h.numBytes
      ensures ByteAt(img', h, k) == if position <= k < position + |data| then data[k - position] else ByteAt(img, h, k)
    {
      StoredByteIsWritten(img, img', h, first, last - first + 1, buf, position, data, k);
    }
    OverlayByBytes(img, img', h, position, data);
  }

  lemma OverlayByBytes(img: Image, img': Image, h: Header, position: int, data: seq<byte>)
    requires h.Good() && position >= 0 && |data| > 0 && position + |data| <= h.numBytes
    requires forall k | 0 <= k < h.numBytes ::
      ByteAt(img', h, k) == if position <= k < position + |data| then data[k - position] else ByteAt(img, h, k)
    ensures Flat(img', h) == Overlay(Flat(img, h), position, data)
  {
    hide ByteAt, Header.Good;
    var f, g := Flat(img', h), Overlay(Flat(img, h), position, data);
    forall k | 0 <= k < h.numBytes
      ensures f[k] == g[k]
    {
      assert f[k] == ByteAt(img', h, k) && Flat(img, h)[k] == ByteAt(img, h, k);
    }
    assert f == g;
  }

  class OpenFile {
    const disk: SynchDisk
    const hdr: FileHeader
    var seekPosition: int

    ghost predicate Valid()
      reads hdr, hdr.dataSectors
    {
      hdr.Valid() && hdr.Value().Good()
    }

    ghost function Content(): (f: seq<byte>)
      requires Valid()
      reads hdr, hdr.dataSectors, disk
      ensures |f| == hdr.numBytes
    {
      Flat(disk.image, hdr.Value())
    }

    constructor (disk: SynchDisk, sector: int)
      requires 0 <= sector < NUM_SECTORS && HeaderAt(disk.image, sector).Good()
      ensures Valid() && fresh(hdr) && fresh(hdr.dataSectors)
      ensures this.disk == disk && hdr.Value() == HeaderAt(disk.image, sector) && seekPosition == 0
    {
      this.disk := disk;
      var header := new FileHeader();
      hdr := header;
      seekPosition := 0;
      new;
      hdr.FetchFrom(disk, sector);
    }

    method Seek(position: int)
      modifies this
      ensures seekPosition == position
    {
      seekPosition := position;
    }

    method Length() returns (length: int)
      ensures length == hdr.numBytes
    {
      length := hdr.FileLength();
    }

    /** The sector loop of ReadAt. */
    method LoadSectors(firstSector: int, lastSector: int) returns (buf: array<byte>)
      requires Valid() && 0 <= firstSector <= lastSector < hdr.numSectors
      ensures fresh(buf) && buf.Length == (1 + lastSector - firstSector) * SECTOR_SIZE
      ensures Loaded(disk.image, hdr.Value(), firstSector, buf[..])
    {
      hide Loaded;
      ghost var h := hdr.Value();
      buf := new byte[(1 + lastSector - firstSector) * SECTOR_SIZE];
      LoadNone(disk.image, h, firstSector);
      assert buf[..0] == [];
      for i := firstSector to lastSector + 1
        invariant Loaded(disk.image, h, firstSector, buf[..(i - firstSector) * SECTOR_SIZE])
      {
        ghost var filled := buf[..(i - firstSector) * SECTOR_SIZE];
        var sector := hdr.ByteToSector(i * SECTOR_SIZE);
        disk.ReadSector(sector, buf, (i - firstSector) * SECTOR_SIZE);
        LoadOneMore(disk.image, h, firstSector, filled);
        assert |filled| / SECTOR_SIZE == i - firstSector;
        assert buf[..(i + 1 - firstSector) * SECTOR_SIZE] == filled + disk.image[sector];
      }
      assert buf[..(lastSector + 1 - firstSector) * SECTOR_SIZE] == buf[..];
    }

    method ReadAt(into: array<byte>, offset: nat, numBytes: int, position: int) returns (n: nat)
      requires Valid() && position >= 0
      requires offset <= into.Length && (numBytes > 0 ==> offset + numBytes <= into.Length)
      modifies into
      ensures n == Transfer(numBytes, position, hdr.numBytes)
      ensures into[..] == old(into[..offset]) + Slice(Content(), position, n) + old(into[offset + n..])
    {
      hide Flat, Header.Good;
      var fileLength := hdr.FileLength();
      if numBytes <= 0 || position >= fileLength {
        assert into[..] == into[..offset] + into[offset..];
        return 0;
      }
      n := if position + numBytes > fileLength then fileLength - position else numBytes;
      ReadRange(into, offset, n, position);
    }

    /** The part of ReadAt after the request was checked. */
    method ReadRange(into: array<byte>, offset: nat, n: nat, position: int)
      requires Valid() && 0 <= position && 0 < n && position + n <= hdr.numBytes && offset + n <= into.Length
      modifies into
      ensures into[..] == old(into[..offset]) + Slice(Content(), position, n) + old(into[offset + n..])
    {
      hide Loaded, Flat, Slice;
      var firstSector := position / SECTOR_SIZE;
      var lastSector := (position + n - 1) / SECTOR_SIZE;
      SectorRange(hdr.Value(), position, n);
      hide Header.Good;
      var buf := LoadSectors(firstSector, lastSector);
      LoadedSlice(disk.image, hdr.Value(), firstSector, buf[..], position, n);
      CopyBytes(buf, position - firstSector * SECTOR_SIZE, into, offset, n);
    }

    /** The part of WriteAt that fetches the partially covered first and last sectors. */
    method ReadEdges(buf: array<byte>, firstSector: int, lastSector: int, position: int, n: nat)
      requires Valid() && n > 0 && 0 <= position && position + n <= hdr.numBytes
      requires firstSector == position / SECTOR_SIZE && lastSector == (position + n - 1) / SECTOR_SIZE
      requires buf.Length == (lastSector - firstSector + 1) * SECTOR_SIZE
      modifies buf
      ensures EdgesRead(Content(), firstSector, lastSector, buf[..], position, n)
    {
      hide Flat, Slice, HoldsSector;
      var firstAligned := position == firstSector * SECTOR_SIZE;
      var lastAligned := position + n == (lastSector + 1) * SECTOR_SIZE;
      if !firstAligned {
        ghost var before := buf[..];
        var got := ReadAt(buf, 0, SECTOR_SIZE, firstSector * SECTOR_SIZE);
        ReadHoldsSector(Content(), firstSector, before, 0, buf[..]);
        assert buf[..][0..SECTOR_SIZE] == buf[..][..SECTOR_SIZE];
      }
      if !lastAligned && (firstSector != lastSector || firstAligned) {
        ghost var before := buf[..];
        var offset := (lastSector - firstSector) * SECTOR_SIZE;
        var got := ReadAt(buf, offset, SECTOR_SIZE, lastSector * SECTOR_SIZE);
        ReadHoldsSector(Content(), lastSector, before, offset, buf[..]);
        assert buf[..][offset..offset + SECTOR_SIZE] == buf[..][offset..];
        assert firstSector != lastSector ==> buf[..][..SECTOR_SIZE] == before[..SECTOR_SIZE];
      } else if firstSector == lastSector {
        assert buf[..][..SECTOR_SIZE] == buf[..][0..];
      }
    }

    /** The loop of WriteAt that writes the modified sectors back. */
    method StoreSectors(buf: array<byte>, firstSector: int, lastSector: int)
      requires Valid() && 0 <= firstSector <= lastSector < hdr.numSectors
      requires buf.Length == (lastSector - firstSector + 1) * SECTOR_SIZE
      modifies disk
      ensures Stored(old(disk.image), disk.image, hdr.Value(), firstSector, lastSector - firstSector + 1, buf[..])
    {
      hide Stored;
      ghost var h := hdr.Value();
      ghost var img := disk.image;
      StoreNone(img, h, firstSector, buf[..]);
      for i := firstSector to lastSector + 1
        invariant Stored(img, disk.image, h, firstSector, i - firstSector, buf[..])
      {
        StoreOneMore(img, disk.image, h, firstSector, i - firstSector, buf[..]);
        var sector := hdr.ByteToSector(i * SECTOR_SIZE);
        var offset := (i - firstSector) * SECTOR_SIZE;
        disk.WriteSector(sector, buf, offset);
        assert buf[offset..offset + SECTOR_SIZE] == buf[..][offset..(i - firstSector + 1) * SECTOR_SIZE];
      }
    }

    method WriteAt(from: seq<byte>, numBytes: int, position: int) returns (n: nat)
      requires Valid() && position >= 0 && numBytes <= |from|
      modifies disk
      ensures n == Transfer(numBytes, position, hdr.numBytes)
      ensures Written(old(disk.image), disk.image, hdr.Value(), position, from[..n])
    {
      hide Flat, EdgesRead, Prepared, Stored;
      var fileLength := hdr.FileLength();
      if numBytes <= 0 || position >= fileLength {
        return 0;
      }
      n := if position + numBytes > fileLength then fileLength - position else numBytes;
      var firstSector := position / SECTOR_SIZE;
      var lastSector := (position + n - 1) / SECTOR_SIZE;
      SectorRange(hdr.Value(), position, n);
      hide Header.Good;
      ghost var img := disk.image;
      var buf := PrepareSectors(from[..n], firstSector, lastSector, position);
      StoreSectors(buf, firstSector, lastSector);
      StoredIsWritten(img, disk.image, hdr.Value(), buf[..], position, from[..n]);
    }

    /** The part of WriteAt before the loop: edges read in, new bytes copied over them. */
    method PrepareSectors(data: seq<byte>, firstSector: int, lastSector: int, position: int) returns (buf: array<byte>)
      requires Valid() && |data| > 0 && 0 <= position && position + |data| <= hdr.numBytes
      requires firstSector == position / SECTOR_SIZE && lastSector == (position + |data| - 1) / SECTOR_SIZE
      ensures fresh(buf) && buf.Length == (lastSector - firstSector + 1) * SECTOR_SIZE
      ensures lastSector < hdr.numSectors && Prepared(disk.image, hdr.Value(), firstSector, buf[..], position, data)
    {
      SectorRange(hdr.Value(), position, |data|);
      hide Flat, EdgesRead, Prepared, Header.Good;
      buf := new byte[(1 + lastSector - firstSector) * SECTOR_SIZE];
      ReadEdges(buf, firstSector, lastSector, position, |data|);
      ghost var edges := buf[..];
      EdgesPrepared(disk.image, hdr.Value(), firstSector, lastSector, edges, position, data);
      CopyOver(buf, position - firstSector * SECTOR_SIZE, data);
    }

    /** bcopy of the new bytes into the buffer. */
    static method CopyOver(buf: array<byte>, skip: int, data: seq<byte>)
      requires 0 <= skip && skip + |data| <= buf.Length
      modifies buf
      ensures buf[..] == Splice(old(buf[..]), skip, data)
    {
      forall j | 0 <= j < |data| {
        buf[skip + j] := data[j];
      }
    }

    method Read(into: array<byte>, numBytes: int) returns (n: nat)
      requires Valid() && seekPosition >= 0 && numBytes <= into.Length
      modifies this, into
      ensures n == Transfer(numBytes, old(seekPosition), hdr.numBytes)
      ensures into[..] == Slice(Content(), old(seekPosition), n) + old(into[n..])
      ensures seekPosition == old(seekPosition) + n
    {
      hide Flat, Header.Good, Transfer;
      n := ReadAt(into, 0, numBytes, seekPosition);
      assert old(into[..0]) == [];
      seekPosition := seekPosition + n;
    }

    method Write(from: seq<byte>, numBytes: int) returns (n: nat)
      requires Valid() && seekPosition >= 0 && numBytes <= |from|
      modifies this, disk
      ensures n == Transfer(numBytes, old(seekPosition), hdr.numBytes)
      ensures Written(old(disk.image), disk.image, hdr.Value(), old(seekPosition), from[..n])
      ensures seekPosition == old(seekPosition) + n
    {
      n := WriteAt(from, numBytes, seekPosition);
      seekPosition := seekPosition + n;
    }
  }
}
