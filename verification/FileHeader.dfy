/** The in-memory file header (the i-node). */
module FileHeaders {
  import opened Bytes
  import opened DiskImage
  import opened BitMaps
  import opened SynchDisks

  /** bits' is bits with exactly the given sectors newly marked. */
  ghost predicate Marked(bits: seq<bool>, bits': seq<bool>, taken: set<int>) {
    && |bits'| == |bits|
    && (forall b | 0 <= b < |bits| :: bits'[b] <==> bits[b] || b in taken)
    && (forall b <- taken :: 0 <= b < |bits| && !bits[b])
  }

  /** No free bit lies below a taken one: the allocator is first fit. */
  ghost predicate FirstFit(bits: seq<bool>, taken: set<int>) {
    forall s, b | s in taken && 0 <= b < s && b < |bits| :: bits[b]
  }

  ghost function Pointed(pointers: seq<int32>, n: int): set<int>
    requires 0 <= n <= |pointers|
  {
    set i | 0 <= i < n :: pointers[i]
  }

  lemma MarkOneMore(bits: seq<bool>, before: seq<bool>, taken: set<int>, s: int)
    requires Marked(bits, before, taken) && 0 <= s < |before| && !before[s]
    requires FirstFit(before, taken) && forall b | 0 <= b < s :: before[b]
    ensures FirstFit(before[s := true], taken + {s})
    ensures Marked(bits, before[s := true], taken + {s}) && s !in taken
    ensures CountClear(before[s := true]) == CountClear(before) - 1
  {
    CountClearMark(before, s);
  }

  ghost predicate DistinctSectors(pointers: seq<int32>, n: int)
    requires 0 <= n <= |pointers|
  {
    && (forall j | 0 <= j < n :: 0 <= pointers[j] < NUM_SECTORS)
    && (forall j, k | 0 <= j < k < n :: pointers[j] != pointers[k])
  }

  lemma PointOneMore(pointers: seq<int32>, n: int, s: int32)
    requires 0 <= n < |pointers| && DistinctSectors(pointers, n)
    requires 0 <= s < NUM_SECTORS && s !in Pointed(pointers, n)
    ensures DistinctSectors(pointers[n := s], n + 1)
    ensures Pointed(pointers[n := s], n + 1) == Pointed(pointers, n) + {s}
  {
    forall j | 0 <= j < n
      ensures pointers[j] != s
    {
      assert pointers[j] in Pointed(pointers, n);
    }
    assert forall j | 0 <= j < n :: pointers[n := s][j] == pointers[j];
    assert pointers[n := s][n] == s;
  }

  lemma NothingTaken(bits: seq<bool>, pointers: seq<int32>)
    ensures DistinctSectors(pointers, 0) && Marked(bits, bits, Pointed(pointers, 0))
    ensures FirstFit(bits, Pointed(pointers, 0))
  {
  }

  lemma AllTaken(h: Header)
    requires 0 <= h.numBytes <= NUM_DIRECT * SECTOR_SIZE && h.numSectors == DivRoundUp(h.numBytes, SECTOR_SIZE)
    requires DistinctSectors(h.pointers, h.numSectors)
    ensures h.Good() && h.Data() == Pointed(h.pointers, h.numSectors)
  {
  }

  /** The first i of n sectors have been cleared, the others are still marked. */
  ghost predicate Releasing(now: seq<bool>, bits: seq<bool>, pointers: seq<int32>, i: int, n: int) {
    && 0 <= i <= n <= |pointers| && |now| == |bits| && DistinctSectors(pointers, n)
    && (forall j | i <= j < n :: 0 <= pointers[j] < |now| && now[pointers[j]])
    && Marked(now, bits, Pointed(pointers, i))
  }

  lemma AllMarked(h: Header, bits: seq<bool>)
    requires h.Good() && |bits| == NUM_SECTORS && forall s <- h.Data() :: bits[s]
    ensures Releasing(bits, bits, h.pointers, 0, h.numSectors)
  {
    assert forall j | 0 <= j < h.numSectors :: h.pointers[j] in h.Data();
  }

  lemma ReleaseOneMore(now: seq<bool>, bits: seq<bool>, pointers: seq<int32>, i: int, n: int)
    requires Releasing(now, bits, pointers, i, n) && i < n
    ensures 0 <= pointers[i] < |now| && now[pointers[i]]
    ensures Releasing(now[pointers[i] := false], bits, pointers, i + 1, n)
  {
    assert Pointed(pointers, i + 1) == Pointed(pointers, i) + {pointers[i] as int};
  }

  lemma AllReleased(now: seq<bool>, bits: seq<bool>, h: Header)
    requires h.Good() && Releasing(now, bits, h.pointers, h.numSectors, h.numSectors)
    ensures Marked(now, bits, h.Data())
  {
    AllTaken(h);
  }

  class FileHeader {
    var numBytes: int32
    var numSectors: int32
    const dataSectors: array<int32>

    ghost predicate Valid() {
      dataSectors.Length == NUM_DIRECT
    }

    ghost function Value(): Header
      requires Valid()
      reads this, dataSectors
    {
      Header(numBytes, numSectors, dataSectors[..])
    }

    constructor ()
      ensures Valid() && fresh(dataSectors)
    {
      numBytes, numSectors := 0, 0;
      dataSectors := new int32[NUM_DIRECT];
    }

    /** Takes the first free sectors, in increasing order, or none at all. */
    method Allocate(freeMap: BitMap, fileSize: int32) returns (ok: bool)
      requires Valid() && freeMap.Valid() && freeMap.numBits == NUM_SECTORS
      requires 0 <= fileSize <= NUM_DIRECT * SECTOR_SIZE
      modifies this, dataSectors, freeMap.words
      ensures ok <==> DivRoundUp(fileSize, SECTOR_SIZE) <= CountClear(old(freeMap.Bits()))
      ensures !ok ==> freeMap.Bits() == old(freeMap.Bits())
      ensures ok ==> Value().Good() && numBytes == fileSize && numSectors == DivRoundUp(fileSize, SECTOR_SIZE)
      ensures ok ==> Marked(old(freeMap.Bits()), freeMap.Bits(), Value().Data())
      ensures ok ==> FirstFit(freeMap.Bits(), Value().Data())
      ensures ok ==> CountClear(freeMap.Bits()) == CountClear(old(freeMap.Bits())) - numSectors
    {
      hide DistinctSectors, Marked, FirstFit, Pointed, CountClear, BitsOf, Header.Good, Header.Data;
      numBytes := fileSize;
      numSectors := DivRoundUp(fileSize, SECTOR_SIZE);
      var free := freeMap.NumClear();
      if free < numSectors {
        return false;
      }
      ghost var bits := freeMap.Bits();
      NothingTaken(bits, dataSectors[..]);
      for i := 0 to numSectors
        invariant freeMap.Valid() && Valid()
        invariant numBytes == fileSize && numSectors == DivRoundUp(fileSize, SECTOR_SIZE)
        invariant DistinctSectors(dataSectors[..], i)
        invariant Marked(bits, freeMap.Bits(), Pointed(dataSectors[..], i))
        invariant FirstFit(freeMap.Bits(), Pointed(dataSectors[..], i))
        invariant CountClear(freeMap.Bits()) == CountClear(bits) - i
      {
        ghost var before, pointers := freeMap.Bits(), dataSectors[..];
        CountClearZero(before);
        var sector := freeMap.Find();
        MarkOneMore(bits, before, Pointed(pointers, i), sector);
        PointOneMore(pointers, i, sector);
        dataSectors[i] := sector;
        assert dataSectors[..] == pointers[i := sector];
      }
      AllTaken(Value());
      return true;
    }

    /** Clears the data sectors again; each of them must be marked when its turn comes. */
    method Deallocate(freeMap: BitMap)
      requires Valid() && freeMap.Valid() && freeMap.numBits == NUM_SECTORS
      requires Value().Good() && forall s <- Value().Data() :: freeMap.Bits()[s]
      modifies freeMap.words
      ensures Marked(freeMap.Bits(), old(freeMap.Bits()), Value().Data())
    {
      ghost var bits := freeMap.Bits();
      AllMarked(Value(), bits);
      hide BitsOf, Marked, Pointed, DistinctSectors, Releasing, Header.Good;
      for i := 0 to numSectors
        invariant freeMap.Valid()
        invariant Releasing(freeMap.Bits(), bits, dataSectors[..], i, numSectors)
      {
        ReleaseOneMore(freeMap.Bits(), bits, dataSectors[..], i, numSectors);
        var marked := freeMap.Test(dataSectors[i]);
        assert marked;
        freeMap.Clear(dataSectors[i]);
      }
      AllReleased(freeMap.Bits(), bits, Value());
    }

    method FetchFrom(disk: SynchDisk, sector: int)
      requires Valid() && 0 <= sector < NUM_SECTORS
      modifies this, dataSectors
      ensures Value() == HeaderAt(disk.image, sector)
    {
      var buffer := new byte[SECTOR_SIZE];
      disk.ReadSector(sector, buffer, 0);
      assert buffer[..] == disk.image[sector];
      var header := DecodeHeader(buffer[..]);
      numBytes, numSectors := header.numBytes, header.numSectors;
      forall i | 0 <= i < NUM_DIRECT {
        dataSectors[i] := header.pointers[i];
      }
      assert dataSectors[..] == header.pointers;
    }

    method WriteBack(disk: SynchDisk, sector: int)
      requires Valid() && 0 <= sector < NUM_SECTORS
      modifies disk
      ensures HeaderAt(disk.image, sector) == Value()
      ensures SameOutside(old(disk.image), disk.image, {sector})
    {
      var bytes := EncodeHeader(Header(numBytes, numSectors, dataSectors[..]));
      var buffer := new byte[SECTOR_SIZE](i requires 0 <= i < SECTOR_SIZE => bytes[i]);
      disk.WriteSector(sector, buffer, 0);
      assert buffer[0..SECTOR_SIZE] == bytes;
      HeaderRoundTrip(Value());
    }

    /** The sector that holds the byte at a given offset. */
    method ByteToSector(offset: int) returns (sector: int32)
      requires Valid() && 0 <= offset < NUM_DIRECT * SECTOR_SIZE
      ensures sector == dataSectors[offset / SECTOR_SIZE]
    {
      sector := dataSectors[offset / SECTOR_SIZE];
    }

    method FileLength() returns (length: int32)
      ensures length == numBytes
    {
      length := numBytes;
    }
  }
}
