/** The swap area: pages leave main memory for it and come back. */
module BackingStores {
  import opened Bytes
  import opened BitMaps
  import opened Maps
  import opened Sequences
  import opened Translation

  const NO_PHYSICAL_PAGE: int32 := -1

  type Page = s: seq<byte> | |s| == PAGE_SIZE witness seq<byte>(PAGE_SIZE, _ => 0)

  function Blank(): Page { seq<byte>(PAGE_SIZE, _ => 0) }

  function Frame(memory: seq<byte>, f: int): Page
    requires |memory| == MEMORY_SIZE && 0 <= f < NUM_PHYS_PAGES
  {
    memory[f * PAGE_SIZE..f * PAGE_SIZE + PAGE_SIZE]
  }

  function WithFrame(memory: seq<byte>, f: int, page: Page): (r: seq<byte>)
    requires |memory| == MEMORY_SIZE && 0 <= f < NUM_PHYS_PAGES
    ensures |r| == MEMORY_SIZE
  {
    memory[..f * PAGE_SIZE] + page + memory[f * PAGE_SIZE + PAGE_SIZE..]
  }

  lemma FrameOfWithFrame(memory: seq<byte>, f: int, g: int, page: Page)
    requires |memory| == MEMORY_SIZE && 0 <= f < NUM_PHYS_PAGES && 0 <= g < NUM_PHYS_PAGES
    ensures Frame(WithFrame(memory, f, page), g) == if g == f then page else Frame(memory, g)
  {
  }

  predicate Resident(e: TranslationEntry) {
    0 <= e.physicalPage < NUM_PHYS_PAGES
  }

  datatype Content = Lost | Held(bytes: Page)

  /** The page entries, the main memory and the table of stored pages. */
  datatype Swap = Swap(entries: seq<TranslationEntry>, memory: seq<byte>, store: map<nat, Page>)

  type SwapState = s: Swap | |s.memory| == MEMORY_SIZE witness Swap([], seq<byte>(MEMORY_SIZE, _ => 0), map[])

  /** A page is its frame while it has one, and what the store holds for it otherwise. */
  function ContentOf(s: SwapState, p: nat): Content
    requires p < |s.entries|
  {
    if Resident(s.entries[p]) then Held(Frame(s.memory, s.entries[p].physicalPage))
    else if p in s.store then Held(s.store[p])
    else Lost
  }

  /** No two pages share a frame, and of the managed pages the store has exactly those without a frame. */
  ghost predicate SwapSound(s: SwapState, managed: set<nat>) {
    && (forall p <- managed :: p < |s.entries|)
    && (forall p, q | 0 <= p < q < |s.entries| && Resident(s.entries[p]) && Resident(s.entries[q]) ::
          s.entries[p].physicalPage != s.entries[q].physicalPage)
    && (forall p <- s.store :: p in managed)
    && (forall p <- managed :: p in s.store <==> !Resident(s.entries[p]))
  }

  function PutOut(e: TranslationEntry): TranslationEntry {
    e.(physicalPage := NO_PHYSICAL_PAGE, use := true, valid := true)
  }

  function PutIn(e: TranslationEntry, f: int32): TranslationEntry {
    e.(physicalPage := f, use := true, valid := true)
  }

  /** A page that may be written keeps its content on the way out; a read-only one is dropped and no longer managed. */
  ghost function StillManaged(s: SwapState, managed: set<nat>, out: nat): set<nat>
    requires out < |s.entries|
  {
    if s.entries[out].readOnly then managed - {out} else managed
  }

  ghost predicate ContentsKept(s: SwapState, s': SwapState, pages: set<nat>) {
    && |s'.entries| == |s.entries|
    && forall p <- pages :: p < |s.entries| && ContentOf(s', p) == ContentOf(s, p)
  }

  function StoredOut(s: SwapState, out: nat): map<nat, Page>
    requires out < |s.entries| && Resident(s.entries[out])
  {
    if s.entries[out].readOnly then s.store else s.store[out := Frame(s.memory, s.entries[out].physicalPage)]
  }

  /** The page brought in takes the frame of the page put out. */
  function Exchanged(s: SwapState, into: nat, out: nat): SwapState
    requires into < |s.entries| && out < |s.entries| && Resident(s.entries[out]) && into in s.store
  {
    var f := s.entries[out].physicalPage;
    Swap(s.entries[into := PutIn(s.entries[into], f)][out := PutOut(s.entries[out])],
         WithFrame(s.memory, f, s.store[into]),
         StoredOut(s, out) - {into})
  }

  /** The page put out leaves its frame blank, unless it is read-only. */
  function PutAway(s: SwapState, out: nat): SwapState
    requires out < |s.entries| && Resident(s.entries[out])
  {
    Swap(s.entries[out := PutOut(s.entries[out])],
         if s.entries[out].readOnly then s.memory else WithFrame(s.memory, s.entries[out].physicalPage, Blank()),
         StoredOut(s, out))
  }

  /** An entry after the exchange or the write-out: valid and used, with the frame f, or with none. */
  predicate Moved(e: TranslationEntry, e': TranslationEntry, f: int) {
    e' == TranslationEntry(e.virtualPage, e'.physicalPage, true, e.readOnly, true, e.dirty) && e'.physicalPage == f
  }

  /** What a page holds while it has a frame is what its addresses show through the page table. */
  lemma ContentIsSeen(s: SwapState, p: nat, k: nat)
    requires p < |s.entries| && Injective(s.entries) && s.entries[p].valid && k < 128
    ensures ContentOf(s, p).Held? && p * 128 + k in Virtual(s.entries, s.memory)
    ensures ContentOf(s, p).bytes[k] == Virtual(s.entries, s.memory)[p * 128 + k]
      == s.memory[s.entries[p].physicalPage * 128 + k]
  {
    assert (p * PAGE_SIZE + k) / PAGE_SIZE == p && (p * PAGE_SIZE + k) % PAGE_SIZE == k;
    assert Mapped(s.entries, p * 128 + k);
  }

  /** The exchange, byte for byte. */
  lemma ExchangedIs(s: SwapState, into: nat, out: nat, a: int)
    requires into < |s.entries| && out < |s.entries| && into != out
    requires Resident(s.entries[out]) && into in s.store && 0 <= a < 32 * 128
    ensures var n, f := Exchanged(s, into, out), s.entries[out].physicalPage;
      && |n.entries| == |s.entries|
      && Moved(s.entries[into], n.entries[into], f) && Moved(s.entries[out], n.entries[out], -1)
      && (forall p | 0 <= p < |s.entries| && p != into && p != out :: n.entries[p] == s.entries[p])
    ensures var n, f := Exchanged(s, into, out), s.entries[out].physicalPage;
      n.memory[a] == if f * 128 <= a < f * 128 + 128 then s.store[into][a - f * 128] else s.memory[a]
    ensures var n, f := Exchanged(s, into, out), s.entries[out].physicalPage;
      n.store
      == (if s.entries[out].readOnly then s.store else s.store[out := s.memory[f * 128..f * 128 + 128]]) - {into}
  {
  }

  /** The write-out, byte for byte: the frame is blanked if its content was kept. */
  lemma PutAwayIs(s: SwapState, out: nat, a: int)
    requires out < |s.entries| && Resident(s.entries[out]) && 0 <= a < 32 * 128
    ensures var n, f := PutAway(s, out), s.entries[out].physicalPage;
      && |n.entries| == |s.entries| && Moved(s.entries[out], n.entries[out], -1)
      && (forall p | 0 <= p < |s.entries| && p != out :: n.entries[p] == s.entries[p])
      && (if s.entries[out].readOnly then n.memory == s.memory && n.store == s.store
          else
            && n.memory[a] == (if f * 128 <= a < f * 128 + 128 then 0 else s.memory[a])
            && n.store == s.store[out := s.memory[f * 128..f * 128 + 128]])
  {
  }

  lemma FramesOfWithFrame(memory: seq<byte>, f: int, page: Page)
    requires |memory| == MEMORY_SIZE && 0 <= f < NUM_PHYS_PAGES
    ensures forall g | 0 <= g < NUM_PHYS_PAGES ::
      Frame(WithFrame(memory, f, page), g) == if g == f then page else Frame(memory, g)
  {
    forall g | 0 <= g < NUM_PHYS_PAGES
      ensures Frame(WithFrame(memory, f, page), g) == if g == f then page else Frame(memory, g)
    {
      FrameOfWithFrame(memory, f, g, page);
    }
  }

  /** Exchanging two pages conserves every page's content exactly when the one put out may be written; a read-only
      one is lost. */
  lemma PageInConserves(s: SwapState, managed: set<nat>, into: nat, out: nat)
    requires SwapSound(s, managed) && into in managed && out in managed
    requires !Resident(s.entries[into]) && Resident(s.entries[out])
    ensures SwapSound(Exchanged(s, into, out), StillManaged(s, managed, out))
    ensures ContentsKept(s, Exchanged(s, into, out), StillManaged(s, managed, out))
    ensures ContentsKept(s, Exchanged(s, into, out), managed) <==> !s.entries[out].readOnly
  {
    ExchangedSound(s, managed, into, out);
    forall p <- managed
      ensures ContentOf(Exchanged(s, into, out), p) ==
        if p == out && s.entries[out].readOnly then Lost else ContentOf(s, p)
    {
      ExchangedContent(s, managed, into, out, p);
    }
    assert ContentOf(s, out) != Lost;
    hide SwapSound, ContentOf;
  }

  lemma ExchangedContent(s: SwapState, managed: set<nat>, into: nat, out: nat, p: nat)
    requires SwapSound(s, managed) && into in managed && out in managed && p in managed
    requires !Resident(s.entries[into]) && Resident(s.entries[out])
    ensures ContentOf(Exchanged(s, into, out), p) ==
      if p == out && s.entries[out].readOnly then Lost else ContentOf(s, p)
  {
    ExchangedSound(s, managed, into, out);
    FramesOfWithFrame(s.memory, s.entries[out].physicalPage, s.store[into]);
    hide Frame, WithFrame, SwapSound;
  }

  lemma ExchangedSound(s: SwapState, managed: set<nat>, into: nat, out: nat)
    requires SwapSound(s, managed) && into in managed && out in managed
    requires !Resident(s.entries[into]) && Resident(s.entries[out])
    ensures SwapSound(Exchanged(s, into, out), StillManaged(s, managed, out))
    ensures forall p <- managed | p != into && p != out :: p in s.store <==> p in Exchanged(s, into, out).store
    ensures forall p <- managed | p != out && Resident(s.entries[p]) ::
      s.entries[p].physicalPage != s.entries[out].physicalPage
  {
    hide Frame, WithFrame;
  }

  lemma PageOutConserves(s: SwapState, managed: set<nat>, out: nat)
    requires SwapSound(s, managed) && out in managed && Resident(s.entries[out])
    ensures SwapSound(PutAway(s, out), StillManaged(s, managed, out))
    ensures ContentsKept(s, PutAway(s, out), StillManaged(s, managed, out))
    ensures ContentsKept(s, PutAway(s, out), managed) <==> !s.entries[out].readOnly
  {
    FramesOfWithFrame(s.memory, s.entries[out].physicalPage, Blank());
    hide Frame, WithFrame, Blank;
    assert ContentOf(s, out) != Lost;
  }

  class BackingStore {
    const entries: array<TranslationEntry>
    const mainMemory: array<byte>
    const physicalPageMap: BitMap
    const backingStore: Map<nat, Page>

    ghost predicate Valid()
      reads this, backingStore
    {
      && backingStore.Valid() && physicalPageMap.Valid() && physicalPageMap.numBits == NUM_PHYS_PAGES
      && mainMemory.Length == MEMORY_SIZE
      && Apart(entries, mainMemory, physicalPageMap.words, backingStore.keys, backingStore.objects)
    }

    static ghost predicate Apart(a: object, b: object, c: object, d: object, e: object) {
      a != b && a != c && a != d && a != e && b != c && b != d && b != e && c != d && c != e && d != e
    }

    ghost function Stored(): map<nat, Page>
      requires backingStore.Valid()
      reads this, backingStore, backingStore.keys, backingStore.objects
    {
      Table(backingStore.Keys(), backingStore.Objects())
    }

    /** The map's keys are unique. */
    ghost predicate Tidy()
      requires backingStore.Valid()
      reads this, backingStore, backingStore.keys
    {
      Distinct(backingStore.Keys())
    }

    ghost function Now(): SwapState
      requires Valid()
      reads this, entries, mainMemory, backingStore, backingStore.keys, backingStore.objects
    {
      Swap(entries[..], mainMemory[..], Stored())
    }

    /** The arrays of the store are the old ones, or new ones. */
    twostate predicate SameArrays()
      reads backingStore
    {
      (backingStore.keys == old(backingStore.keys) && backingStore.objects == old(backingStore.objects))
      || (fresh(backingStore.keys) && fresh(backingStore.objects))
    }

    constructor (entries: array<TranslationEntry>, mainMemory: array<byte>, physicalPageMap: BitMap)
      requires mainMemory.Length == MEMORY_SIZE && physicalPageMap.Valid() && physicalPageMap.numBits == NUM_PHYS_PAGES
      requires entries as object != mainMemory && entries as object != physicalPageMap.words
      requires mainMemory as object != physicalPageMap.words
      ensures Valid() && Tidy() && Stored() == map[]
      ensures this.entries == entries && this.mainMemory == mainMemory && this.physicalPageMap == physicalPageMap
    {
      this.entries, this.mainMemory, this.physicalPageMap := entries, mainMemory, physicalPageMap;
      backingStore := new Map<nat, Page>();
    }

    /** memcpy from a frame into a new buffer. */
    method CopyFrame(f: int) returns (buffer: Page)
      requires mainMemory.Length == MEMORY_SIZE && 0 <= f < NUM_PHYS_PAGES
      ensures buffer == Frame(mainMemory[..], f)
    {
      buffer := mainMemory[f * PAGE_SIZE..f * PAGE_SIZE + PAGE_SIZE];
    }

    /** memcpy from a buffer over a frame. */
    method FillFrame(f: int, page: Page)
      requires mainMemory.Length == MEMORY_SIZE && 0 <= f < NUM_PHYS_PAGES
      modifies mainMemory
      ensures mainMemory[..] == WithFrame(old(mainMemory[..]), f, page)
    {
      forall k | 0 <= k < PAGE_SIZE {
        mainMemory[f * PAGE_SIZE + k] := page[k];
      }
    }

    /** Keeps the frame's bytes under the page's key. */
    method Keep(page: nat, buffer: Page)
      requires Valid() && Tidy() && page !in Stored()
      modifies backingStore, backingStore.keys, backingStore.objects
      ensures Valid() && Tidy() && Stored() == old(Stored())[page := buffer]
      ensures entries[..] == old(entries[..]) && mainMemory[..] == old(mainMemory[..])
      ensures SameArrays()
    {
      InsertTable(backingStore.Keys(), backingStore.Objects(), page, buffer);
      hide Table, Distinct;
      backingStore.Insert(page, buffer);
    }

    method Lookup(page: nat) returns (buffer: Page)
      requires Valid() && page in Stored()
      ensures buffer == Stored()[page]
    {
      var index := backingStore.Find(page);
      buffer := backingStore.objects[index];
    }

    method Drop(page: nat)
      requires Valid() && Tidy() && page in Stored()
      modifies backingStore`count, backingStore.keys, backingStore.objects
      ensures Valid() && Tidy() && Stored() == old(Stored()) - {page}
      ensures entries[..] == old(entries[..]) && mainMemory[..] == old(mainMemory[..])
    {
      RemoveTable(backingStore.Keys(), backingStore.Objects(), page);
      hide Table, Distinct;
      backingStore.Remove(page);
    }

    /** Takes a page's bytes out of the store. */
    method Remove(page: nat) returns (buffer: Page)
      requires Valid() && Tidy() && page in Stored()
      modifies backingStore`count, backingStore.keys, backingStore.objects
      ensures Valid() && Tidy() && buffer == old(Stored())[page] && Stored() == old(Stored()) - {page}
    {
      hide Table, Distinct;
      buffer := Lookup(page);
      Drop(page);
    }

    /** The frame of a page that may be written goes to the store. */
    method StoreOut(out: nat, f: int)
      requires Valid() && Tidy() && out < entries.Length && out !in Stored() && 0 <= f < NUM_PHYS_PAGES
      modifies backingStore, backingStore.keys, backingStore.objects
      ensures Valid() && Tidy()
      ensures Stored() == if entries[out].readOnly then old(Stored())
        else old(Stored())[out := Frame(mainMemory[..], f)]
      ensures entries[..] == old(entries[..]) && mainMemory[..] == old(mainMemory[..])
      ensures SameArrays()
    {
      hide Table, Distinct, Frame;
      if !entries[out].readOnly {
        var buffer := CopyFrame(f);
        Keep(out, buffer);
      }
    }

    /** A frame is filled from the store, which gives the page up. */
    method BringIn(into: nat, f: int)
      requires Valid() && Tidy() && into in Stored() && 0 <= f < NUM_PHYS_PAGES
      modifies mainMemory, backingStore`count, backingStore.keys, backingStore.objects
      ensures Valid() && Tidy() && Stored() == old(Stored()) - {into}
      ensures entries[..] == old(entries[..])
      ensures mainMemory[..] == WithFrame(old(mainMemory[..]), f, old(Stored())[into])
    {
      hide Table, Distinct, WithFrame;
      var src := Lookup(into);
      FillFrame(f, src);
      Drop(into);
    }

    /** The page table's part of an exchange. */
    method HandOver(into: nat, out: nat) returns (f: int32)
      requires into < entries.Length && out < entries.Length && into != out && 0 <= entries[out].physicalPage
      modifies entries
      ensures f == old(entries[out]).physicalPage
      ensures entries[..] == old(entries[..])[into := PutIn(old(entries[into]), f)][out := PutOut(old(entries[out]))]
    {
      f := entries[out].physicalPage;
      entries[into] := PutIn(entries[into], f);
      entries[out] := PutOut(entries[out]);
    }

    /** What the exchange does to entries, memory and store. */
    method Exchange(into: nat, out: nat)
      requires Valid() && Tidy() && into < entries.Length && out < entries.Length
      requires Resident(entries[out]) && into in Stored() && out !in Stored()
      modifies entries, mainMemory, backingStore, backingStore.keys, backingStore.objects
      ensures Valid() && Tidy() && SameArrays() && Now() == Exchanged(old(Now()), into, out)
    {
      hide Table, Distinct, Frame, WithFrame;
      ghost var s := Now();
      var f := HandOver(into, out);
      StoreOut(out, f);
      assert Stored() == StoredOut(s, out);
      BringIn(into, f);
    }

    /** The page put out gives its frame to the page brought in. */
    method PageIn(into: nat, out: nat, ghost managed: set<nat>)
      requires Valid() && Tidy() && SwapSound(Now(), managed)
      requires into in managed && out in managed && into < entries.Length && out < entries.Length
      requires !Resident(entries[into]) && Resident(entries[out])
      modifies entries, mainMemory, backingStore, backingStore.keys, backingStore.objects
      ensures Valid() && Tidy() && SameArrays()
      ensures into in old(Stored()) && Now() == Exchanged(old(Now()), into, out)
      ensures Moved(old(entries[into]), entries[into], old(entries[out]).physicalPage)
      ensures Moved(old(entries[out]), entries[out], -1)
      ensures SwapSound(Now(), StillManaged(old(Now()), managed, out))
      ensures ContentsKept(old(Now()), Now(), StillManaged(old(Now()), managed, out))
    {
      PageInConserves(Now(), managed, into, out);
      assert into in Now().store && out !in Now().store;
      hide Table, Distinct, SwapSound, ContentsKept, Exchanged, StillManaged;
      Exchange(into, out);
    }

    /** The page's frame is given up, and blanked if its content went to the store. */
    method PageOut(out: nat, ghost managed: set<nat>)
      requires Valid() && Tidy() && SwapSound(Now(), managed)
      requires out in managed && out < entries.Length && Resident(entries[out])
      modifies entries, mainMemory, physicalPageMap.words, backingStore, backingStore.keys, backingStore.objects
      ensures Valid() && Tidy() && SameArrays()
      ensures Now() == PutAway(old(Now()), out) && Moved(old(entries[out]), entries[out], -1)
      ensures physicalPageMap.Bits() == old(physicalPageMap.Bits())[old(entries[out]).physicalPage := false]
      ensures SwapSound(Now(), StillManaged(old(Now()), managed, out))
      ensures ContentsKept(old(Now()), Now(), StillManaged(old(Now()), managed, out))
    {
      ghost var s := Now();
      PageOutConserves(s, managed, out);
      assert out !in s.store;
      hide Table, Distinct, SwapSound, ContentsKept, Frame, WithFrame, StillManaged, BitsOf, Blank;
      var f := entries[out].physicalPage;
      physicalPageMap.Clear(f);
      entries[out] := PutOut(entries[out]);
      StoreOut(out, f);
      if !entries[out].readOnly {
        FillFrame(f, Blank());
      }
      assert Now() == PutAway(s, out);
    }

    /** Any sequence of exchanges of pages that may be written conserves every page's content. */
    method ExchangeAll(pairs: seq<(nat, nat)>, ghost managed: set<nat>)
      requires Valid() && Tidy() && SwapSound(Now(), managed)
      requires forall p <- managed :: p < entries.Length && !entries[p].readOnly
      requires forall pair <- pairs :: pair.0 in managed && pair.1 in managed
      modifies entries, mainMemory, backingStore, backingStore.keys, backingStore.objects
      ensures Valid() && Tidy() && SwapSound(Now(), managed) && ContentsKept(old(Now()), Now(), managed)
    {
      ghost var first := Now();
      hide Table, Distinct, Frame, WithFrame, SwapSound, StoredOut, Resident, Valid;
      for i := 0 to |pairs|
        invariant Valid() && Tidy() && SameArrays() && SwapSound(Now(), managed)
        invariant Writable(Now(), managed) && ContentsKept(first, Now(), managed)
      {
        var into, out := pairs[i].0, pairs[i].1;
        assert pairs[i] in pairs;
        if !Resident(entries[into]) && Resident(entries[out]) {
          ghost var before := Now();
          PageIn(into, out, managed);
          KeptTwice(first, before, Now(), managed);
          ExchangedWritable(before, managed, into, out);
        }
      }
    }
  }

  ghost predicate Writable(s: SwapState, pages: set<nat>) {
    forall p <- pages :: p < |s.entries| && !s.entries[p].readOnly
  }

  lemma ExchangedWritable(s: SwapState, pages: set<nat>, into: nat, out: nat)
    requires Writable(s, pages) && into in pages && out in pages && Resident(s.entries[out]) && into in s.store
    ensures StillManaged(s, pages, out) == pages && Writable(Exchanged(s, into, out), pages)
  {
    hide WithFrame, Frame;
  }

  lemma KeptTwice(s: SwapState, s': SwapState, s'': SwapState, pages: set<nat>)
    requires ContentsKept(s, s', pages) && ContentsKept(s', s'', pages)
    ensures ContentsKept(s, s'', pages)
  {
    hide ContentOf;
  }
}
