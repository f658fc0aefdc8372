/** Properties of the file system that span several operations or a whole run. */
module FsRuns {
  import opened Bytes
  import opened DiskImage
  import opened BitMaps
  import opened FileHeaders
  import opened Directories
  import opened DiskLayout
  import opened DiskSteps

  // ---- conservation of sectors ----

  lemma {:induction false} CountClearIsCard(bits: seq<bool>)
    ensures CountClear(bits) == |set b | 0 <= b < |bits| && !bits[b]|
  {
    var clear := set b | 0 <= b < |bits| && !bits[b];
    if bits == [] {
      assert clear == {};
    } else {
      var last := |bits| - 1;
      var init := set b | 0 <= b < last && !bits[..last][b];
      CountClearIsCard(bits[..last]);
      assert clear == if bits[last] then init else init + {last};
    }
  }

  lemma {:induction false} PointedCard(pointers: seq<int32>, n: int)
    requires 0 <= n <= |pointers| && DistinctSectors(pointers, n)
    ensures |Pointed(pointers, n)| == n
  {
    if n == 0 {
      assert Pointed(pointers, 0) == {};
    } else {
      PointedCard(pointers, n - 1);
      PointedMore(pointers, n - 1);
      hide Pointed;
    }
  }

  lemma PointedMore(pointers: seq<int32>, n: int)
    requires 0 <= n < |pointers| && DistinctSectors(pointers, n + 1)
    ensures pointers[n] as int !in Pointed(pointers, n)
    ensures Pointed(pointers, n + 1) == Pointed(pointers, n) + {pointers[n] as int}
  {
  }

  /** The sectors owner k accounts for: its header and the data sectors its size calls for. */
  ghost function Cost(img: Image, table: seq<DirectoryEntry>, k: int): nat
    requires |table| == NUM_DIR_ENTRIES && 0 <= k < NUM_OWNERS && GoodOwner(img, table, k)
  {
    if Live(table, k) then 1 + DivRoundUp(HeaderAt(img, HeaderSector(table, k)).numBytes, SECTOR_SIZE) else 0
  }

  ghost function TotalCost(img: Image, table: seq<DirectoryEntry>, n: int): nat
    requires |table| == NUM_DIR_ENTRIES && 0 <= n <= NUM_OWNERS
    requires forall k | 0 <= k < n :: GoodOwner(img, table, k)
  {
    if n == 0 then 0 else TotalCost(img, table, n - 1) + Cost(img, table, n - 1)
  }

  ghost function OwnedBelow(img: Image, table: seq<DirectoryEntry>, n: int): set<int>
    requires |table| == NUM_DIR_ENTRIES && 0 <= n <= NUM_OWNERS
    requires forall k | 0 <= k < n :: GoodOwner(img, table, k)
  {
    if n == 0 then {} else OwnedBelow(img, table, n - 1) + Owned(img, table, n - 1)
  }

  lemma OwnedCard(img: Image, table: seq<DirectoryEntry>, k: int)
    requires |table| == NUM_DIR_ENTRIES && 0 <= k < NUM_OWNERS && GoodOwner(img, table, k)
    ensures |Owned(img, table, k)| == Cost(img, table, k)
  {
    if Live(table, k) {
      var h := HeaderAt(img, HeaderSector(table, k));
      PointedCard(h.pointers, h.numSectors);
      assert Pointed(h.pointers, h.numSectors) == h.Data();
    }
  }

  lemma {:induction false} OwnedBelowMember(img: Image, table: seq<DirectoryEntry>, n: int, b: int)
    requires |table| == NUM_DIR_ENTRIES && 0 <= n <= NUM_OWNERS
    requires forall k | 0 <= k < n :: GoodOwner(img, table, k)
    ensures b in OwnedBelow(img, table, n) <==> exists k | 0 <= k < n :: b in Owned(img, table, k)
  {
    hide GoodOwner, Owned;
    if n > 0 {
      OwnedBelowMember(img, table, n - 1, b);
      assert b in OwnedBelow(img, table, n) <==> b in OwnedBelow(img, table, n - 1) || b in Owned(img, table, n - 1);
    }
  }

  lemma OwnedBelowApart(img: Image, table: seq<DirectoryEntry>, bits: seq<bool>, n: int)
    requires Sound(img, table, bits) && 0 <= n < NUM_OWNERS
    ensures OwnedBelow(img, table, n) !! Owned(img, table, n)
  {
    assert forall k | 0 <= k < n :: GoodOwner(img, table, k) && Owned(img, table, k) !! Owned(img, table, n);
    hide Owned, GoodOwner, Sound;
    forall b | b in OwnedBelow(img, table, n)
      ensures b !in Owned(img, table, n)
    {
      OwnedBelowMember(img, table, n, b);
    }
  }

  lemma {:induction false} OwnedBelowCard(img: Image, table: seq<DirectoryEntry>, bits: seq<bool>, n: int)
    requires Sound(img, table, bits) && 0 <= n <= NUM_OWNERS
    ensures forall k | 0 <= k < n :: GoodOwner(img, table, k)
    ensures |OwnedBelow(img, table, n)| == TotalCost(img, table, n)
  {
    assert forall k | 0 <= k < n :: GoodOwner(img, table, k);
    if n > 0 {
      hide Owned, Cost;
      OwnedBelowCard(img, table, bits, n - 1);
      OwnedCard(img, table, n - 1);
      OwnedBelowApart(img, table, bits, n - 1);
      hide Sound, GoodOwner;
    }
  }

  ghost function Range(n: nat): (r: set<int>)
    ensures |r| == n
    ensures forall b :: b in r <==> 0 <= b < n
  {
    if n == 0 then {} else Range(n - 1) + {n - 1}
  }

  /** Under the invariant a sector is used exactly when its bit is set. */
  lemma UsedMeansMarked(img: Image, table: seq<DirectoryEntry>, bits: seq<bool>, b: int)
    requires Sound(img, table, bits)
    ensures forall k | 0 <= k < NUM_OWNERS :: GoodOwner(img, table, k)
    ensures b in OwnedBelow(img, table, NUM_OWNERS) <==> 0 <= b < NUM_SECTORS && bits[b]
  {
    hide Owned, GoodOwner, OwnedBelow, UniqueNames;
    OwnedBelowMember(img, table, NUM_OWNERS, b);
    if b in OwnedBelow(img, table, NUM_OWNERS) {
      var k :| 0 <= k < NUM_OWNERS && b in Owned(img, table, k);
      MarkedMeansOwned(img, table, bits, k, b);
    }
  }

  lemma FreePlusUsed(bits: seq<bool>, used: set<int>)
    requires forall b :: b in used <==> 0 <= b < |bits| && bits[b]
    ensures CountClear(bits) + |used| == |bits|
  {
    CountClearIsCard(bits);
    hide CountClear, Range;
    var clear := set b | 0 <= b < |bits| && !bits[b];
    assert clear + used == Range(|bits|) && clear !! used;
  }

  /** Free and used sectors always add up to the whole disk, file by file. */
  lemma SectorsConserved(img: Image)
    requires Consistent(img)
    ensures forall k | 0 <= k < NUM_OWNERS :: GoodOwner(img, DirIn(img), k)
    ensures CountClear(BitsIn(img)) + TotalCost(img, DirIn(img), NUM_OWNERS) == NUM_SECTORS
  {
    hide DirIn, BitsIn, CountClear, Sound, GoodOwner, OwnedBelow, TotalCost;
    var table, bits := DirIn(img), BitsIn(img);
    OwnedBelowCard(img, table, bits, NUM_OWNERS);
    var used := OwnedBelow(img, table, NUM_OWNERS);
    forall b: int
      ensures b in used <==> 0 <= b < |bits| && bits[b]
    {
      UsedMeansMarked(img, table, bits, b);
    }
    FreePlusUsed(bits, used);
  }

  // ---- what one call undoes ----

  ghost predicate WrittenTo(img: Image, img': Image, name: CString) {
    exists position, data :: Rewritten(img, img', name, position, data)
  }

  /** A file that is created, written any number of times and removed leaves no trace: the names, headers
      and contents of all files and the set of free sectors are what they were. */
  lemma {:induction false} TemporaryFile(imgs: seq<Image>, name: CString, size: int)
    requires |imgs| >= 3 && Created(imgs[0], imgs[1], name, size)
    requires forall i | 1 <= i < |imgs| - 2 :: WrittenTo(imgs[i], imgs[i + 1], name)
    requires Removed(imgs[|imgs| - 2], imgs[|imgs| - 1], name)
    ensures Catalog(imgs[|imgs| - 1]) == Catalog(imgs[0])
    ensures BitsIn(imgs[|imgs| - 1]) == BitsIn(imgs[0])
  {
    hide Consistent, Catalog, BitsIn;
    SystemSizes(imgs[0]);
    SystemSizes(imgs[1]);
    SystemSizes(imgs[|imgs| - 1]);
    WritesKeepPlace(imgs[1..|imgs| - 1], name);
    var before, last := Catalog(imgs[1])[name], Catalog(imgs[|imgs| - 2])[name];
    assert imgs[1..|imgs| - 1][0] == imgs[1] && imgs[1..|imgs| - 1][|imgs| - 3] == imgs[|imgs| - 2];
    assert Sectors(before) == Sectors(last);
    SameBits(BitsIn(imgs[0]), BitsIn(imgs[|imgs| - 1]), BitsIn(imgs[1]), Sectors(before));
  }

  lemma SameBits(bits: seq<bool>, bits': seq<bool>, full: seq<bool>, taken: set<int>)
    requires Marked(bits, full, taken) && Marked(bits', full, taken)
    ensures bits == bits'
  {
    assert forall b | 0 <= b < |bits| :: full[b] == (bits[b] || b in taken) && full[b] == (bits'[b] || b in taken);
    forall b | 0 <= b < |bits|
      ensures bits[b] == bits'[b]
    {
      if b in taken {
        assert !bits[b] && !bits'[b];
      }
    }
  }

  /** Writing to a file moves nothing: it keeps its header and its sectors, and all others keep everything. */
  lemma {:induction false} WritesKeepPlace(imgs: seq<Image>, name: CString)
    requires |imgs| >= 1 && Consistent(imgs[0]) && name in Catalog(imgs[0])
    requires forall i | 0 <= i < |imgs| - 1 :: WrittenTo(imgs[i], imgs[i + 1], name)
    ensures var last := imgs[|imgs| - 1];
            && Consistent(last) && name in Catalog(last) && BitsIn(last) == BitsIn(imgs[0])
            && Catalog(last) - {name} == Catalog(imgs[0]) - {name}
            && Catalog(last)[name].sector == Catalog(imgs[0])[name].sector
            && Catalog(last)[name].header == Catalog(imgs[0])[name].header
  {
    hide Consistent, Catalog, BitsIn;
    if |imgs| > 1 {
      var init := imgs[..|imgs| - 1];
      forall i | 0 <= i < |init| - 1
        ensures WrittenTo(init[i], init[i + 1], name)
      {
        assert init[i] == imgs[i] && init[i + 1] == imgs[i + 1];
      }
      WritesKeepPlace(init, name);
      var i := |imgs| - 2;
      var position, data :| Rewritten(imgs[i], imgs[i + 1], name, position, data);
    }
  }
}
