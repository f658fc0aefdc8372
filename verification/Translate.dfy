/** Address translation and the simulated main memory. */
module Translation {
  import opened Bytes

  const PAGE_SIZE := 128
  const NUM_PHYS_PAGES := 32
  const MEMORY_SIZE := NUM_PHYS_PAGES * PAGE_SIZE
  const TLB_SIZE := 4

  datatype TranslationEntry = TranslationEntry(
    virtualPage: int32, physicalPage: int32, valid: bool, readOnly: bool, use: bool, dirty: bool)

  datatype ExceptionType =
    NoException | PageFaultException | ReadOnlyException | BusErrorException | AddressErrorException

  predicate AccessSize(size: int) {
    size == 1 || size == 2 || size == 4
  }

  predicate Aligned(virtAddr: int32, size: int) {
    (size == 4 ==> ToWord(virtAddr) % 4 == 0) && (size == 2 ==> ToWord(virtAddr) % 2 == 0)
  }

  function Vpn(virtAddr: int32): nat {
    ToWord(virtAddr) / PAGE_SIZE
  }

  function Offset(virtAddr: int32): nat {
    ToWord(virtAddr) % PAGE_SIZE
  }

  /** The checks made on an entry once it has been found, and the address it yields. */
  function UseEntry(e: TranslationEntry, virtAddr: int32, writing: bool): (r: (ExceptionType, int)) {
    if e.readOnly && writing then (ReadOnlyException, 0)
    else if ToWord(e.physicalPage) >= NUM_PHYS_PAGES then (BusErrorException, 0)
    else (NoException, e.physicalPage * PAGE_SIZE + Offset(virtAddr))
  }

  function Touch(e: TranslationEntry, writing: bool): TranslationEntry {
    e.(use := true, dirty := e.dirty || writing)
  }

  /** Translation by a linear page table. */
  function ByTable(table: seq<TranslationEntry>, virtAddr: int32, size: int, writing: bool): (ExceptionType, int) {
    if !Aligned(virtAddr, size) || Vpn(virtAddr) >= |table| then (AddressErrorException, 0)
    else if !table[Vpn(virtAddr)].valid then (PageFaultException, 0)
    else UseEntry(table[Vpn(virtAddr)], virtAddr, writing)
  }

  /** The first valid TLB entry for a virtual page, or |tlb|. */
  function Hit(tlb: seq<TranslationEntry>, vpn: int): (i: nat)
    ensures i <= |tlb|
    ensures i < |tlb| ==> tlb[i].valid && tlb[i].virtualPage == vpn
    ensures forall j | 0 <= j < i :: !(tlb[j].valid && tlb[j].virtualPage == vpn)
  {
    if tlb == [] || (tlb[0].valid && tlb[0].virtualPage == vpn) then 0
    else
      var i := 1 + Hit(tlb[1..], vpn);
      assert forall j | 1 <= j < i :: tlb[j] == tlb[1..][j - 1];
      i
  }

  lemma HitIs(tlb: seq<TranslationEntry>, vpn: int, i: nat)
    requires i <= |tlb| && (i < |tlb| ==> tlb[i].valid && tlb[i].virtualPage == vpn)
    requires forall j | 0 <= j < i :: !(tlb[j].valid && tlb[j].virtualPage == vpn)
    ensures Hit(tlb, vpn) == i
  {
  }

  /** Translation by an associative TLB. */
  function ByTlb(tlb: seq<TranslationEntry>, virtAddr: int32, size: int, writing: bool): (ExceptionType, int) {
    if !Aligned(virtAddr, size) then (AddressErrorException, 0)
    else
      var i := Hit(tlb, Vpn(virtAddr));
      if i == |tlb| then (PageFaultException, 0) else UseEntry(tlb[i], virtAddr, writing)
  }

  /** Every valid TLB entry copies the page-table entry of its page. */
  ghost predicate Coherent(tlb: seq<TranslationEntry>, table: seq<TranslationEntry>) {
    forall i | 0 <= i < |tlb| && tlb[i].valid ::
      && 0 <= tlb[i].virtualPage < |table|
      && var e := table[tlb[i].virtualPage];
      e.valid && e.physicalPage == tlb[i].physicalPage && e.readOnly == tlb[i].readOnly
  }

  /** On a hit the TLB says what the page table says, errors included. */
  lemma TlbAgrees(tlb: seq<TranslationEntry>, table: seq<TranslationEntry>, virtAddr: int32, size: int, writing: bool)
    requires Coherent(tlb, table)
    ensures Hit(tlb, Vpn(virtAddr)) < |tlb| ==>
              ByTlb(tlb, virtAddr, size, writing) == ByTable(table, virtAddr, size, writing)
    ensures Hit(tlb, Vpn(virtAddr)) == |tlb| && Aligned(virtAddr, size) ==>
              ByTlb(tlb, virtAddr, size, writing) == (PageFaultException, 0)
  {
    var vpn := Vpn(virtAddr);
    var i := Hit(tlb, vpn);
    hide Hit, Vpn, Aligned, Offset, ToWord;
    if i < |tlb| {
      assert 0 <= vpn < |table| && table[vpn].valid;
      SameUse(tlb[i], table[vpn], virtAddr, writing);
      hide UseEntry;
    }
  }

  lemma SameUse(e: TranslationEntry, f: TranslationEntry, virtAddr: int32, writing: bool)
    requires e.physicalPage == f.physicalPage && e.readOnly == f.readOnly
    ensures UseEntry(e, virtAddr, writing) == UseEntry(f, virtAddr, writing)
  {
  }

  /** Recording a use keeps the TLB coherent. */
  lemma TouchKeepsCoherent(tlb: seq<TranslationEntry>, table: seq<TranslationEntry>, i: nat, writing: bool)
    requires Coherent(tlb, table) && i < |tlb|
    ensures Coherent(tlb[i := Touch(tlb[i], writing)], table)
  {
  }

  /** An aligned access never leaves its page, so the bounds assertion in Translate cannot fail. */
  lemma AccessInBounds(virtAddr: int32, size: int)
    requires AccessSize(size) && Aligned(virtAddr, size)
    ensures Offset(virtAddr) + size <= PAGE_SIZE
  {
    var w := ToWord(virtAddr);
    if size == 4 {
      WordsInPage(w / PAGE_SIZE, w % PAGE_SIZE, w / 4);
    } else if size == 2 {
      HalvesInPage(w / PAGE_SIZE, w % PAGE_SIZE, w / 2);
    }
  }

  lemma WordsInPage(page: int, offset: int, k: int)
    requires page * PAGE_SIZE + offset == 4 * k && offset < PAGE_SIZE
    ensures offset + 4 <= PAGE_SIZE
  {
    var m := k - 32 * page;
    assert offset == 4 * m;
    assert m <= 31;
  }

  lemma HalvesInPage(page: int, offset: int, k: int)
    requires page * PAGE_SIZE + offset == 2 * k && offset < PAGE_SIZE
    ensures offset + 2 <= PAGE_SIZE
  {
    var m := k - 64 * page;
    assert offset == 2 * m;
    assert m <= 63;
  }

  // ---- values in memory: the host is little endian, so words are stored as they are ----

  /** The bytes an access of the given size stores. */
  function ValueBytes(value: int32, size: int): (b: seq<byte>)
    requires AccessSize(size)
    ensures |b| == size
  {
    EncodeWord(ToWord(value))[..size]
  }

  /** What reading the bytes yields: a signed char, an unsigned short or an int. */
  function BytesValue(b: seq<byte>): int32
    requires AccessSize(|b|)
  {
    if |b| == 1 then (if b[0] as int < 0x80 then b[0] as int else b[0] as int - 0x100)
    else if |b| == 2 then b[0] as int + 0x100 * b[1] as int
    else FromWord(DecodeWord(b))
  }

  /** What a load of the same size makes of it: all of a word, the low half unsigned, the low byte signed. */
  lemma ValueRoundTrip(value: int32, size: int)
    requires AccessSize(size)
    ensures var loaded := BytesValue(ValueBytes(value, size));
      && (size == 4 ==> loaded == value)
      && (size == 2 ==> 0 <= loaded < 0x1_0000 && (loaded - value) % 0x1_0000 == 0)
      && (size == 1 ==> -0x80 <= loaded < 0x80 && (loaded - value) % 0x100 == 0)
  {
    if size == 4 {
      WordSurvives(value);
    } else if size == 2 {
      HalfSurvives(value);
    } else {
      ByteSurvives(value);
    }
  }

  lemma WordSurvives(value: int32)
    ensures BytesValue(ValueBytes(value, 4)) == value
  {
    WordRoundTrip(ToWord(value));
    assert ValueBytes(value, 4) == EncodeWord(ToWord(value));
    hide ValueBytes, EncodeWord, DecodeWord;
  }

  lemma HalfSurvives(value: int32)
    ensures var loaded := BytesValue(ValueBytes(value, 2));
      0 <= loaded < 0x1_0000 && (loaded - value) % 0x1_0000 == 0
  {
    var w, b := ToWord(value), ValueBytes(value, 2);
    assert b[0] as int == w % 0x100 && b[1] as int == w / 0x100 % 0x100;
    hide ValueBytes, EncodeWord;
    LowHalf(w);
    var k: int := (if value < 0 then 0x1_0000 else 0) - (w / 0x1_0000) as int;
    assert BytesValue(b) - value == 0x1_0000 * k;
    WholeHalves(k);
  }

  lemma WholeHalves(k: int)
    ensures (0x1_0000 * k) % 0x1_0000 == 0
  {
  }

  lemma ByteSurvives(value: int32)
    ensures var loaded := BytesValue(ValueBytes(value, 1));
      -0x80 <= loaded < 0x80 && (loaded - value) % 0x100 == 0
  {
    var w, b := ToWord(value), ValueBytes(value, 1);
    assert b[0] as int == w % 0x100;
    hide ValueBytes, EncodeWord;
    var k: int := (if value < 0 then 0x100_0000 else 0) - (w / 0x100) as int - if b[0] as int < 0x80 then 0 else 1;
    assert BytesValue(b) - value == 0x100 * k;
    WholeBytes(k);
  }

  lemma WholeBytes(k: int)
    ensures (0x100 * k) % 0x100 == 0
  {
  }

  lemma LowHalf(w: word)
    ensures w % 0x1_0000 == w % 0x100 + 0x100 * (w / 0x100 % 0x100)
  {
  }

  // ---- virtual memory as a flat map ----

  /** Every valid page has a frame of its own. */
  ghost predicate Injective(table: seq<TranslationEntry>) {
    && (forall p | 0 <= p < |table| && table[p].valid :: 0 <= table[p].physicalPage < NUM_PHYS_PAGES)
    && (forall p, q | 0 <= p < q < |table| && table[p].valid && table[q].valid ::
          table[p].physicalPage != table[q].physicalPage)
  }

  predicate Mapped(table: seq<TranslationEntry>, a: int) {
    0 <= a < |table| * PAGE_SIZE && table[a / PAGE_SIZE].valid
  }

  ghost function Physical(table: seq<TranslationEntry>, a: int): int
    requires Mapped(table, a)
  {
    table[a / PAGE_SIZE].physicalPage * PAGE_SIZE + a % PAGE_SIZE
  }

  /** The flat memory that a program sees through its page table. */
  ghost function Virtual(table: seq<TranslationEntry>, memory: seq<byte>): (v: map<int, byte>)
    requires |memory| == MEMORY_SIZE && Injective(table)
  {
    map a | 0 <= a < |table| * PAGE_SIZE && Mapped(table, a) :: memory[Physical(table, a)]
  }

  /** v with the given bytes stored from address a on. */
  ghost function Store(v: map<int, byte>, a: int, b: seq<byte>): map<int, byte> {
    map x | x in v :: if a <= x < a + |b| then b[x - a] else v[x]
  }

  /** A store through the page table is a store to the flat memory. */
  lemma StoreIsFlat(table: seq<TranslationEntry>, memory: seq<byte>, virtAddr: int32, b: seq<byte>, memory': seq<byte>)
    requires |memory| == |memory'| == MEMORY_SIZE && Injective(table) && Mapped(table, ToWord(virtAddr))
    requires |b| > 0 && Offset(virtAddr) + |b| <= PAGE_SIZE
    requires var at := Physical(table, ToWord(virtAddr));
             memory' == memory[..at] + b + memory[at + |b|..]
    ensures Virtual(table, memory') == Store(Virtual(table, memory), ToWord(virtAddr), b)
  {
    var a, at := ToWord(virtAddr), Physical(table, ToWord(virtAddr));
    assert a % PAGE_SIZE == Offset(virtAddr);
    StoreHitsPage(table, a, a, |b|);
    forall p | 0 <= p < MEMORY_SIZE
      ensures memory'[p] == if at <= p < at + |b| then b[p - at] else memory[p]
    {
      StoredAt(memory, at, b, p);
    }
    hide ToWord, Offset, Physical, Mapped, Injective, Virtual, Store;
    StoreBytes(table, memory, a, b, memory');
  }

  lemma StoreBytes(table: seq<TranslationEntry>, memory: seq<byte>, a: int, b: seq<byte>, memory': seq<byte>)
    requires |memory| == |memory'| == MEMORY_SIZE && Injective(table) && Mapped(table, a)
    requires |b| > 0 && a % PAGE_SIZE + |b| <= PAGE_SIZE
    requires var at := Physical(table, a);
      forall p | 0 <= p < MEMORY_SIZE :: memory'[p] == if at <= p < at + |b| then b[p - at] else memory[p]
    ensures Virtual(table, memory') == Store(Virtual(table, memory), a, b)
  {
    hide Physical, Mapped, Injective;
    forall x | 0 <= x < |table| * PAGE_SIZE && Mapped(table, x)
      ensures 0 <= Physical(table, x) < MEMORY_SIZE
      ensures memory'[Physical(table, x)] == if a <= x < a + |b| then b[x - a] else memory[Physical(table, x)]
    {
      StoreHitsPage(table, a, x, |b|);
    }
  }

  lemma StoredAt(memory: seq<byte>, at: int, b: seq<byte>, p: int)
    requires 0 <= at && at + |b| <= |memory| && 0 <= p < |memory|
    ensures (memory[..at] + b + memory[at + |b|..])[p] == if at <= p < at + |b| then b[p - at] else memory[p]
  {
  }

  lemma StoreHitsPage(table: seq<TranslationEntry>, a: int, x: int, n: nat)
    requires Injective(table) && Mapped(table, a) && Mapped(table, x)
    requires n > 0 && a % PAGE_SIZE + n <= PAGE_SIZE
    ensures a <= x < a + n <==> Physical(table, a) <= Physical(table, x) < Physical(table, a) + n
    ensures a <= x < a + n ==> Physical(table, x) == Physical(table, a) + (x - a)
    ensures 0 <= Physical(table, a) && Physical(table, a) + n <= MEMORY_SIZE
    ensures 0 <= Physical(table, x) < MEMORY_SIZE
  {
  }

  /** The n bytes of v from address a on. */
  ghost function Fetch(v: map<int, byte>, a: int, n: nat): (b: seq<byte>)
    ensures |b| == n
  {
    seq(n, i requires 0 <= i < n => if a + i in v then v[a + i] else 0)
  }

  /** A load through the page table is a load from the flat memory. */
  lemma LoadIsFlat(table: seq<TranslationEntry>, memory: seq<byte>, virtAddr: int32, n: nat)
    requires |memory| == MEMORY_SIZE && Injective(table) && Mapped(table, ToWord(virtAddr))
    requires n > 0 && Offset(virtAddr) + n <= PAGE_SIZE
    ensures var a, at := ToWord(virtAddr), Physical(table, ToWord(virtAddr));
            && 0 <= at && at + n <= MEMORY_SIZE
            && (forall x | a <= x < a + n :: x in Virtual(table, memory))
            && memory[at..at + n] == Fetch(Virtual(table, memory), a, n)
  {
    var a, at := ToWord(virtAddr), Physical(table, ToWord(virtAddr));
    assert forall x | a <= x < a + n ::
        x / PAGE_SIZE == a / PAGE_SIZE && Mapped(table, x) && Physical(table, x) == at + (x - a);
  }

  /** A successful translation by the page table yields the address of the mapped byte. */
  lemma TranslatedIsPhysical(table: seq<TranslationEntry>, virtAddr: int32, size: int, writing: bool)
    requires Injective(table) && AccessSize(size) && ByTable(table, virtAddr, size, writing).0 == NoException
    ensures Mapped(table, ToWord(virtAddr)) && Offset(virtAddr) + size <= PAGE_SIZE
    ensures ByTable(table, virtAddr, size, writing).1 == Physical(table, ToWord(virtAddr))
  {
    assert Aligned(virtAddr, size);
    AccessInBounds(virtAddr, size);
    hide Aligned;
    var a, e := ToWord(virtAddr), table[Vpn(virtAddr)];
    hide ToWord;
    assert a / PAGE_SIZE == Vpn(virtAddr) && a % PAGE_SIZE == Offset(virtAddr);
  }

  /** Reading back what was just written, with the same size. */
  lemma ReadBack(v: map<int, byte>, a: int, b: seq<byte>)
    requires forall x | a <= x < a + |b| :: x in v
    ensures Fetch(Store(v, a, b), a, |b|) == b
  {
  }

  /** Spaces that share no frame do not see each other's stores. */
  lemma StoreIsPrivate(table: seq<TranslationEntry>, other: seq<TranslationEntry>, memory: seq<byte>, virtAddr: int32,
                       b: seq<byte>, memory': seq<byte>)
    requires |memory| == |memory'| == MEMORY_SIZE && Injective(table) && Injective(other)
    requires forall p, q | 0 <= p < |table| && 0 <= q < |other| && table[p].valid && other[q].valid ::
               table[p].physicalPage != other[q].physicalPage
    requires Mapped(table, ToWord(virtAddr)) && |b| > 0 && Offset(virtAddr) + |b| <= PAGE_SIZE
    requires var at := Physical(table, ToWord(virtAddr));
             memory' == memory[..at] + b + memory[at + |b|..]
    ensures Virtual(other, memory') == Virtual(other, memory)
  {
    forall x | 0 <= x < |other| * PAGE_SIZE && Mapped(other, x)
      ensures memory'[Physical(other, x)] == memory[Physical(other, x)]
    {
      assert table[ToWord(virtAddr) / PAGE_SIZE].physicalPage != other[x / PAGE_SIZE].physicalPage;
    }
  }

  // ---- the machine as a flat memory ----

  /** What the machine looks addresses up in: its page table, or its TLB. */
  datatype Lookup = Linear(entries: seq<TranslationEntry>) | Tlb(entries: seq<TranslationEntry>)

  function Find(l: Lookup, virtAddr: int32, size: int, writing: bool): (ExceptionType, int) {
    if l.Linear? then ByTable(l.entries, virtAddr, size, writing) else ByTlb(l.entries, virtAddr, size, writing)
  }

  /** A successful translation sets use and dirty bits in the one entry it went through. */
  function Used(l: Lookup, virtAddr: int32, size: int, writing: bool): Lookup {
    var i := if l.Linear? then Vpn(virtAddr) else Hit(l.entries, Vpn(virtAddr));
    if Find(l, virtAddr, size, writing).0 == NoException && i < |l.entries|
    then l.(entries := l.entries[i := Touch(l.entries[i], writing)])
    else l
  }

  /** The entry that an address goes through: the one its page number selects, or the first that matches it. */
  ghost predicate Through(l: Lookup, virtAddr: int32, i: int) {
    && 0 <= i < |l.entries|
    && var page := ToWord(virtAddr) / 128;
    if l.Linear? then i == page
    else
      && l.entries[i].valid && l.entries[i].virtualPage == page
      && forall j | 0 <= j < i :: !(l.entries[j].valid && l.entries[j].virtualPage == page)
  }

  /** One entry has its use bit set, and its dirty bit if writing; all else is as it was. */
  ghost predicate Recorded(l: Lookup, l': Lookup, virtAddr: int32, writing: bool) {
    && l'.Linear? == l.Linear? && |l'.entries| == |l.entries| && (exists i :: Through(l, virtAddr, i))
    && forall i | 0 <= i < |l.entries| ::
      var e := l.entries[i];
      l'.entries[i] == if Through(l, virtAddr, i)
        then TranslationEntry(e.virtualPage, e.physicalPage, e.valid, e.readOnly, true, e.dirty || writing)
        else e
  }

  lemma UsedRecords(l: Lookup, virtAddr: int32, size: int, writing: bool)
    ensures if Find(l, virtAddr, size, writing).0 == NoException
      then Recorded(l, Used(l, virtAddr, size, writing), virtAddr, writing)
      else Used(l, virtAddr, size, writing) == l
  {
    if Find(l, virtAddr, size, writing).0 == NoException {
      var at := if l.Linear? then Vpn(virtAddr) else Hit(l.entries, Vpn(virtAddr));
      assert at < |l.entries|;
      hide Find, UseEntry, Aligned;
      assert Through(l, virtAddr, at);
      forall i | Through(l, virtAddr, i)
        ensures i == at
      {
      }
    }
  }

  /**
   * What translation answers, in plain terms: a misaligned address or one behind the page
   * table is an address error, an entry that is not valid or not found a page fault; the entry
   * found decides the rest.
   */
  lemma FindIs(l: Lookup, virtAddr: int32, size: int, writing: bool)
    requires AccessSize(size)
    ensures var (w, exception) := (ToWord(virtAddr), Find(l, virtAddr, size, writing).0);
      && (exception == AddressErrorException <==> w % size != 0 || (l.Linear? && |l.entries| <= w / 128))
      && (exception == PageFaultException <==>
            w % size == 0 && if l.Linear? then w / 128 < |l.entries| && !l.entries[w / 128].valid
                             else forall i :: !Through(l, virtAddr, i))
    ensures ToWord(virtAddr) % size == 0 ==> forall i | Through(l, virtAddr, i) && l.entries[i].valid ::
      var e := l.entries[i];
      Find(l, virtAddr, size, writing) ==
        if e.readOnly && writing then (ReadOnlyException, 0)
        else if 0 <= e.physicalPage < 32 then (NoException, e.physicalPage * 128 + ToWord(virtAddr) % 128)
        else (BusErrorException, 0)
  {
    var at := if l.Linear? then Vpn(virtAddr) else Hit(l.entries, Vpn(virtAddr));
    assert at < |l.entries| ==> Through(l, virtAddr, at);
    forall i | Through(l, virtAddr, i)
      ensures i == at
    {
    }
  }

  /** Equal but for use and dirty bits. */
  ghost predicate SameEntries(entries: seq<TranslationEntry>, entries': seq<TranslationEntry>) {
    && |entries| == |entries'|
    && forall i | 0 <= i < |entries| ::
      entries'[i].(use := entries[i].use, dirty := entries[i].dirty) == entries[i]
  }

  ghost predicate SameLookup(l: Lookup, l': Lookup) {
    l.Linear? == l'.Linear? && SameEntries(l.entries, l'.entries)
  }

  lemma UsedKeepsLookup(l: Lookup, l': Lookup, virtAddr: int32, size: int, writing: bool)
    requires SameLookup(l, l')
    ensures SameLookup(l, Used(l', virtAddr, size, writing))
  {
    hide ByTable, ByTlb, Vpn;
  }

  lemma {:induction false} SameHit(tlb: seq<TranslationEntry>, tlb': seq<TranslationEntry>, vpn: int)
    requires SameEntries(tlb, tlb')
    ensures Hit(tlb, vpn) == Hit(tlb', vpn)
  {
    if tlb != [] {
      SameHit(tlb[1..], tlb'[1..], vpn);
    }
  }

  /** Use and dirty bits do not matter to translation. */
  lemma SameFind(l: Lookup, l': Lookup, virtAddr: int32, size: int, writing: bool)
    requires SameLookup(l, l')
    ensures Find(l, virtAddr, size, writing) == Find(l', virtAddr, size, writing)
  {
    SameHit(l.entries, l'.entries, Vpn(virtAddr));
    hide Vpn, Aligned, Offset, ToWord, Hit;
  }

  /** Nor to the memory that is seen through a table. */
  lemma SameVirtual(table: seq<TranslationEntry>, table': seq<TranslationEntry>, memory: seq<byte>)
    requires SameEntries(table, table') && |memory| == MEMORY_SIZE && Injective(table)
    ensures Injective(table') && Virtual(table', memory) == Virtual(table, memory)
  {
    assert forall i | 0 <= i < |table| ::
      table'[i].valid == table[i].valid && table'[i].physicalPage == table[i].physicalPage;
    hide SameEntries;
  }

  /** The machine looks up in the table itself, or in a TLB that copies entries of it. */
  ghost predicate Backed(l: Lookup, table: seq<TranslationEntry>) {
    if l.Linear? then l.entries == table else Coherent(l.entries, table)
  }

  lemma FoundIsMapped(l: Lookup, table: seq<TranslationEntry>, virtAddr: int32, size: int, writing: bool)
    requires Backed(l, table) && Injective(table) && AccessSize(size)
    requires Find(l, virtAddr, size, writing).0 == NoException
    ensures Mapped(table, ToWord(virtAddr)) && Offset(virtAddr) + size <= PAGE_SIZE
    ensures Find(l, virtAddr, size, writing).1 == Physical(table, ToWord(virtAddr))
  {
    if l.Tlb? {
      TlbAgrees(l.entries, table, virtAddr, size, writing);
    }
    hide Coherent, Injective, UseEntry, Aligned, Hit;
    assert ByTable(table, virtAddr, size, writing) == Find(l, virtAddr, size, writing);
    TranslatedIsPhysical(table, virtAddr, size, writing);
  }

  type Size = n: int | AccessSize(n) witness 1

  datatype Access = Load(addr: int32, size: Size) | Save(addr: int32, size: Size, value: int32)

  datatype Outcome = Fault(exception: ExceptionType) | Loaded(value: int32) | Saved

  /** What an access does to a flat memory. */
  ghost function FlatNext(l: Lookup, v: map<int, byte>, op: Access): map<int, byte> {
    if op.Save? && Find(l, op.addr, op.size, true).0 == NoException
    then Store(v, ToWord(op.addr), ValueBytes(op.value, op.size))
    else v
  }

  /** What an access of a flat memory yields. */
  ghost function FlatOutcome(l: Lookup, v: map<int, byte>, op: Access): Outcome {
    var exception := Find(l, op.addr, op.size, op.Save?).0;
    if exception != NoException then Fault(exception)
    else if op.Save? then Saved
    else Loaded(BytesValue(Fetch(v, ToWord(op.addr), op.size)))
  }

  ghost function FlatMemory(l: Lookup, v: map<int, byte>, ops: seq<Access>): map<int, byte> {
    if ops == [] then v else FlatNext(l, FlatMemory(l, v, ops[..|ops| - 1]), ops[|ops| - 1])
  }

  ghost function FlatOutcomes(l: Lookup, v: map<int, byte>, ops: seq<Access>): (outcomes: seq<Outcome>)
    ensures |outcomes| == |ops|
  {
    if ops == [] then []
    else
      var before, op := ops[..|ops| - 1], ops[|ops| - 1];
      FlatOutcomes(l, v, before) + [FlatOutcome(l, FlatMemory(l, v, before), op)]
  }

  /** A successful load at its physical address is a load from the flat memory. */
  lemma LoadStep(l: Lookup, table: seq<TranslationEntry>, memory: seq<byte>, addr: int32, size: Size)
    requires |memory| == MEMORY_SIZE && Backed(l, table) && Injective(table)
    requires Find(l, addr, size, false).0 == NoException
    ensures var at := Find(l, addr, size, false).1;
      0 <= at <= at + size <= MEMORY_SIZE && memory[at..at + size] == Fetch(Virtual(table, memory), ToWord(addr), size)
  {
    hide Backed, Find, Virtual, Fetch, Physical, Mapped, Injective;
    FoundIsMapped(l, table, addr, size, false);
    LoadIsFlat(table, memory, addr, size);
  }

  /** What a load yields, from the bytes at its physical address. */
  lemma LoadOutcome(l: Lookup, table: seq<TranslationEntry>, memory: seq<byte>, op: Access)
    requires |memory| == MEMORY_SIZE && Backed(l, table) && Injective(table) && op.Load?
    ensures var (exception, at) := Find(l, op.addr, op.size, false);
      if exception != NoException then FlatOutcome(l, Virtual(table, memory), op) == Fault(exception)
      else
        && 0 <= at && at + op.size <= MEMORY_SIZE
        && FlatOutcome(l, Virtual(table, memory), op) == Loaded(BytesValue(memory[at..at + op.size]))
    ensures FlatNext(l, Virtual(table, memory), op) == Virtual(table, memory)
  {
    hide Backed, Find, Virtual, Fetch, Injective, BytesValue;
    if Find(l, op.addr, op.size, false).0 == NoException {
      LoadStep(l, table, memory, op.addr, op.size);
    }
  }

  /** A successful store at its physical address is a store to the flat memory. */
  lemma SaveStep(l: Lookup, table: seq<TranslationEntry>, memory: seq<byte>, addr: int32, size: Size, value: int32,
      memory': seq<byte>)
    requires |memory| == |memory'| == MEMORY_SIZE && Backed(l, table) && Injective(table)
    requires Find(l, addr, size, true).0 == NoException
    requires var at := Find(l, addr, size, true).1;
      0 <= at && at + size <= MEMORY_SIZE && memory' == memory[..at] + ValueBytes(value, size) + memory[at + size..]
    ensures Virtual(table, memory') == Store(Virtual(table, memory), ToWord(addr), ValueBytes(value, size))
  {
    hide Backed, Find, Virtual, Store, Physical, Mapped, Injective, ValueBytes;
    FoundIsMapped(l, table, addr, size, true);
    StoreIsFlat(table, memory, addr, ValueBytes(value, size), memory');
  }

  /** A read at any address after a write at any address, through the entries as the write left them. */
  lemma ReadAfterWrite(l: Lookup, table: seq<TranslationEntry>, memory: seq<byte>, memory': seq<byte>,
                       wAddr: int32, wSize: Size, value: int32, rAddr: int32, rSize: Size)
    requires |memory| == |memory'| == MEMORY_SIZE && Backed(l, table) && Injective(table)
    requires Find(l, wAddr, wSize, true).0 == NoException
    requires var at := Find(l, wAddr, wSize, true).1;
      0 <= at && at + wSize <= MEMORY_SIZE && memory' == memory[..at] + ValueBytes(value, wSize) + memory[at + wSize..]
    requires Find(Used(l, wAddr, wSize, true), rAddr, rSize, false).0 == NoException
    ensures var at := Find(Used(l, wAddr, wSize, true), rAddr, rSize, false).1;
      0 <= at <= at + rSize <= MEMORY_SIZE
      && memory'[at..at + rSize]
         == Fetch(Store(Virtual(table, memory), ToWord(wAddr), ValueBytes(value, wSize)), ToWord(rAddr), rSize)
  {
    assert SameLookup(l, l);
    hide Backed, Find, Used, SameLookup, Virtual, Store, Fetch, Injective, ValueBytes;
    UsedKeepsLookup(l, l, wAddr, wSize, true);
    SameFind(l, Used(l, wAddr, wSize, true), rAddr, rSize, false);
    SaveStep(l, table, memory, wAddr, wSize, value, memory');
    LoadStep(l, table, memory', rAddr, rSize);
  }

  // ---- use and dirty bits over a run ----

  /** The access succeeded, through entry i. */
  ghost predicate WentThrough(l: Lookup, op: Access, outcome: Outcome, i: int) {
    !outcome.Fault? && Through(l, op.addr, i)
  }

  ghost predicate UsedBy(l: Lookup, ops: seq<Access>, outcomes: seq<Outcome>, i: int)
    requires |ops| == |outcomes|
  {
    exists j | 0 <= j < |ops| :: WentThrough(l, ops[j], outcomes[j], i)
  }

  ghost predicate WrittenBy(l: Lookup, ops: seq<Access>, outcomes: seq<Outcome>, i: int)
    requires |ops| == |outcomes|
  {
    exists j | 0 <= j < |ops| :: ops[j].Save? && WentThrough(l, ops[j], outcomes[j], i)
  }

  /** An entry is used, or dirty, exactly when it was at first or some access, or store, went through it. */
  ghost predicate BitsFollow(l: Lookup, l': Lookup, ops: seq<Access>, outcomes: seq<Outcome>)
    requires |ops| == |outcomes|
  {
    && |l.entries| == |l'.entries|
    && forall i | 0 <= i < |l.entries| ::
      && (l'.entries[i].use <==> l.entries[i].use || UsedBy(l, ops, outcomes, i))
      && (l'.entries[i].dirty <==> l.entries[i].dirty || WrittenBy(l, ops, outcomes, i))
  }

  lemma SameThrough(l: Lookup, l': Lookup, virtAddr: int32, i: int)
    requires SameLookup(l, l')
    ensures Through(l, virtAddr, i) <==> Through(l', virtAddr, i)
  {
  }

  lemma BitsFollowOneMore(l: Lookup, now: Lookup, next: Lookup, ops: seq<Access>, outcomes: seq<Outcome>,
      op: Access, outcome: Outcome)
    requires |ops| == |outcomes| && SameLookup(l, now) && BitsFollow(l, now, ops, outcomes)
    requires if outcome.Fault? then next == now else Recorded(now, next, op.addr, op.Save?)
    ensures BitsFollow(l, next, ops + [op], outcomes + [outcome])
  {
    hide UsedBy, WrittenBy;
    forall i | 0 <= i < |l.entries|
      ensures next.entries[i].use <==> l.entries[i].use || UsedBy(l, ops + [op], outcomes + [outcome], i)
      ensures next.entries[i].dirty <==> l.entries[i].dirty || WrittenBy(l, ops + [op], outcomes + [outcome], i)
    {
      SameThrough(l, now, op.addr, i);
      OneMoreWent(l, ops, outcomes, op, outcome, i);
      hide SameLookup, Through;
    }
  }

  lemma OneMoreWent(l: Lookup, ops: seq<Access>, outcomes: seq<Outcome>, op: Access, outcome: Outcome, i: int)
    requires |ops| == |outcomes|
    ensures UsedBy(l, ops + [op], outcomes + [outcome], i)
      <==> UsedBy(l, ops, outcomes, i) || WentThrough(l, op, outcome, i)
    ensures WrittenBy(l, ops + [op], outcomes + [outcome], i)
      <==> WrittenBy(l, ops, outcomes, i) || (op.Save? && WentThrough(l, op, outcome, i))
  {
    hide WentThrough;
    var ops', outcomes' := ops + [op], outcomes + [outcome];
    assert forall j | 0 <= j < |ops| :: ops'[j] == ops[j] && outcomes'[j] == outcomes[j];
    assert ops'[|ops|] == op && outcomes'[|ops|] == outcome;
  }

  class Machine {
    const mainMemory: array<byte>
    var pageTable: array?<TranslationEntry>
    var tlb: array?<TranslationEntry>

    ghost predicate Valid()
      reads this
    {
      && mainMemory.Length == MEMORY_SIZE
      && (tlb == null) != (pageTable == null)
      && (tlb != null ==> tlb.Length == 4)
    }

    /** What the machine looks addresses up in, in its present state. */
    ghost function Now(): Lookup
      requires Valid()
      reads this, pageTable, tlb
    {
      if tlb == null then Linear(pageTable[..]) else Tlb(tlb[..])
    }

    constructor ()
      ensures fresh(mainMemory) && mainMemory.Length == MEMORY_SIZE && pageTable == null && tlb == null
      ensures forall i | 0 <= i < MEMORY_SIZE :: mainMemory[i] == 0
    {
      mainMemory := new byte[MEMORY_SIZE](_ => 0);
      pageTable, tlb := null, null;
    }

    method SearchTlb(vpn: int) returns (at: nat)
      requires Valid() && tlb != null
      ensures at == Hit(tlb[..], vpn)
    {
      at := TLB_SIZE;
      for i := 0 to TLB_SIZE
        invariant at == TLB_SIZE
        invariant forall j | 0 <= j < i :: !(tlb[j].valid && tlb[j].virtualPage == vpn)
      {
        if tlb[i].valid && tlb[i].virtualPage == vpn {
          at := i;
          break;
        }
      }
      HitIs(tlb[..], vpn, at);
    }

    /** On success exactly one entry changes, in its use and dirty bits; otherwise nothing does. */
    method Translate(virtAddr: int32, size: int, writing: bool) returns (exception: ExceptionType, physAddr: int)
      requires Valid() && AccessSize(size)
      modifies pageTable, tlb
      ensures Valid() && (exception, physAddr) == Find(old(Now()), virtAddr, size, writing)
      ensures exception == NoException ==> 0 <= physAddr && physAddr + size <= MEMORY_SIZE
      ensures Now() == Used(old(Now()), virtAddr, size, writing)
      ensures if exception == NoException then Recorded(old(Now()), Now(), virtAddr, writing) else Now() == old(Now())
    {
      UsedRecords(Now(), virtAddr, size, writing);
      hide Recorded;
      physAddr := 0;
      if (size == 4 && ToWord(virtAddr) % 4 != 0) || (size == 2 && ToWord(virtAddr) % 2 != 0) {
        return AddressErrorException, 0;
      }
      var vpn := ToWord(virtAddr) / PAGE_SIZE;
      var entries: array<TranslationEntry> := if tlb == null then pageTable else tlb;
      var at := 0;
      if tlb == null {
        if vpn >= pageTable.Length {
          return AddressErrorException, 0;
        } else if !pageTable[vpn].valid {
          return PageFaultException, 0;
        }
        at := vpn;
      } else {
        at := SearchTlb(vpn);
        if at == TLB_SIZE {
          return PageFaultException, 0;
        }
      }
      exception, physAddr := UseFound(entries, at, virtAddr, writing);
      if exception == NoException {
        AccessInBounds(virtAddr, size);
        assert physAddr >= 0 && physAddr + size <= MEMORY_SIZE;
      }
    }

    /** The checks on the entry found, and the marks left in it. */
    method UseFound(entries: array<TranslationEntry>, at: nat, virtAddr: int32, writing: bool)
        returns (exception: ExceptionType, physAddr: int)
      requires at < entries.Length
      modifies entries
      ensures (exception, physAddr) == UseEntry(old(entries[at]), virtAddr, writing)
      ensures entries[..] ==
        if exception == NoException then old(entries[..])[at := Touch(old(entries[at]), writing)] else old(entries[..])
      ensures exception == NoException ==>
        0 <= physAddr - Offset(virtAddr) && physAddr - Offset(virtAddr) + PAGE_SIZE <= MEMORY_SIZE
    {
      physAddr := 0;
      var entry := entries[at];
      if entry.readOnly && writing {
        return ReadOnlyException, 0;
      }
      var pageFrame := ToWord(entry.physicalPage);
      if pageFrame >= NUM_PHYS_PAGES {
        return BusErrorException, 0;
      }
      entries[at] := entries[at].(use := true);
      if writing {
        entries[at] := entries[at].(dirty := true);
      }
      physAddr := pageFrame * PAGE_SIZE + ToWord(virtAddr) % PAGE_SIZE;
      return NoException, physAddr;
    }

    method ReadMem(addr: int32, size: int) returns (exception: ExceptionType, value: int32)
      requires Valid() && AccessSize(size) && mainMemory as object != pageTable && mainMemory as object != tlb
      modifies pageTable, tlb
      ensures Valid() && exception == Find(old(Now()), addr, size, false).0
      ensures exception == NoException ==>
                var at := Find(old(Now()), addr, size, false).1;
                0 <= at && at + size <= MEMORY_SIZE && value == BytesValue(mainMemory[..][at..at + size])
      ensures mainMemory[..] == old(mainMemory[..]) && Now() == Used(old(Now()), addr, size, false)
      ensures if exception == NoException then Recorded(old(Now()), Now(), addr, false) else Now() == old(Now())
    {
      hide Find, Used, BytesValue, Recorded;
      var physicalAddress;
      exception, physicalAddress := Translate(addr, size, false);
      value := 0;
      if exception != NoException {
        return;
      }
      value := BytesValue(mainMemory[physicalAddress..physicalAddress + size]);
      assert mainMemory[..][physicalAddress..physicalAddress + size]
        == mainMemory[physicalAddress..physicalAddress + size];
    }

    method WriteMem(addr: int32, size: int, value: int32) returns (exception: ExceptionType)
      requires Valid() && AccessSize(size) && mainMemory as object != pageTable && mainMemory as object != tlb
      modifies pageTable, tlb, mainMemory
      ensures Valid() && exception == Find(old(Now()), addr, size, true).0
      ensures exception == NoException ==>
                var at := Find(old(Now()), addr, size, true).1;
                0 <= at && at + size <= MEMORY_SIZE
                && mainMemory[..] == old(mainMemory[..at]) + ValueBytes(value, size) + old(mainMemory[at + size..])
      ensures exception != NoException ==> mainMemory[..] == old(mainMemory[..])
      ensures Now() == Used(old(Now()), addr, size, true)
      ensures if exception == NoException then Recorded(old(Now()), Now(), addr, true) else Now() == old(Now())
    {
      hide Find, Used, ValueBytes, Recorded;
      var physicalAddress;
      exception, physicalAddress := Translate(addr, size, true);
      if exception != NoException {
        return;
      }
      var bytes := ValueBytes(value, size);
      forall i | 0 <= i < size {
        mainMemory[physicalAddress + i] := bytes[i];
      }
    }

    method PerformLoad(op: Access, ghost first: Lookup, ghost table: seq<TranslationEntry>) returns (outcome: Outcome)
      requires op.Load?
      requires Valid() && mainMemory as object != pageTable && mainMemory as object != tlb
      requires SameLookup(first, Now()) && Backed(first, table) && Injective(table)
      modifies pageTable, tlb, mainMemory
      ensures Valid() && SameLookup(first, Now())
      ensures outcome == FlatOutcome(first, Virtual(table, old(mainMemory[..])), op)
      ensures Virtual(table, mainMemory[..]) == FlatNext(first, Virtual(table, old(mainMemory[..])), op)
      ensures if outcome.Fault? then Now() == old(Now()) else Recorded(old(Now()), Now(), op.addr, op.Save?)
    {
      LoadOutcome(first, table, mainMemory[..], op);
      SameFind(first, Now(), op.addr, op.size, false);
      UsedKeepsLookup(first, Now(), op.addr, op.size, false);
      hide Machine.Valid, Machine.Now, FlatOutcome, FlatNext, Recorded;
      hide Find, Used, SameLookup, Backed, Virtual, BytesValue, Injective;
      var exception, value := ReadMem(op.addr, op.size);
      outcome := if exception == NoException then Loaded(value) else Fault(exception);
    }

    method PerformSave(op: Access, ghost first: Lookup, ghost table: seq<TranslationEntry>) returns (outcome: Outcome)
      requires op.Save?
      requires Valid() && mainMemory as object != pageTable && mainMemory as object != tlb
      requires SameLookup(first, Now()) && Backed(first, table) && Injective(table)
      modifies pageTable, tlb, mainMemory
      ensures Valid() && SameLookup(first, Now())
      ensures outcome == FlatOutcome(first, Virtual(table, old(mainMemory[..])), op)
      ensures Virtual(table, mainMemory[..]) == FlatNext(first, Virtual(table, old(mainMemory[..])), op)
      ensures if outcome.Fault? then Now() == old(Now()) else Recorded(old(Now()), Now(), op.addr, op.Save?)
    {
      SameFind(first, Now(), op.addr, op.size, true);
      UsedKeepsLookup(first, Now(), op.addr, op.size, true);
      hide Machine.Valid, Machine.Now, ToWord, Recorded;
      hide Find, Used, SameLookup, Backed, Virtual, Fetch, Store, ValueBytes, BytesValue, Injective;
      ghost var memory := mainMemory[..];
      var exception := WriteMem(op.addr, op.size, op.value);
      outcome := if exception == NoException then Saved else Fault(exception);
      if exception == NoException {
        SaveStep(first, table, memory, op.addr, op.size, op.value, mainMemory[..]);
      }
    }

    /** One access by a program. */
    method Perform(op: Access, ghost first: Lookup, ghost table: seq<TranslationEntry>) returns (outcome: Outcome)
      requires Valid() && mainMemory as object != pageTable && mainMemory as object != tlb
      requires SameLookup(first, Now()) && Backed(first, table) && Injective(table)
      modifies pageTable, tlb, mainMemory
      ensures Valid() && SameLookup(first, Now())
      ensures outcome == FlatOutcome(first, Virtual(table, old(mainMemory[..])), op)
      ensures Virtual(table, mainMemory[..]) == FlatNext(first, Virtual(table, old(mainMemory[..])), op)
      ensures if outcome.Fault? then Now() == old(Now()) else Recorded(old(Now()), Now(), op.addr, op.Save?)
    {
      hide Machine.Valid, FlatOutcome, FlatNext, SameLookup, Backed, Virtual, Injective, Recorded;
      if op.Load? {
        outcome := PerformLoad(op, first, table);
      } else {
        outcome := PerformSave(op, first, table);
      }
    }

    /**
     * Main theorem: any sequence of loads and stores, through the page table or through a
     * coherent TLB, yields what a flat memory yields, faults included, and leaves the memory
     * seen through the table as the flat memory ends. An entry ends up used, or dirty, exactly
     * when it was so at first or a successful access, or store, went through it.
     */
    method PerformAll(ops: seq<Access>, ghost table: seq<TranslationEntry>) returns (outcomes: seq<Outcome>)
      requires Valid() && mainMemory as object != pageTable && mainMemory as object != tlb
      requires Backed(Now(), table) && Injective(table)
      modifies pageTable, tlb, mainMemory
      ensures Valid() && SameLookup(old(Now()), Now())
      ensures outcomes == FlatOutcomes(old(Now()), Virtual(table, old(mainMemory[..])), ops)
      ensures Virtual(table, mainMemory[..]) == FlatMemory(old(Now()), Virtual(table, old(mainMemory[..])), ops)
      ensures |outcomes| == |ops| && BitsFollow(old(Now()), Now(), ops, outcomes)
      ensures pageTable != null ==>
        Injective(pageTable[..]) && Virtual(pageTable[..], mainMemory[..]) == Virtual(table, mainMemory[..])
    {
      ghost var first, v := Now(), Virtual(table, mainMemory[..]);
      assert first.Linear? ==> first.entries == table;
      hide Find, Used, Backed, Virtual, FlatNext, FlatOutcome, Injective, Recorded;
      outcomes := [];
      assert BitsFollow(first, first, ops[..0], outcomes);
      hide BitsFollow;
      for i := 0 to |ops|
        invariant Valid() && SameLookup(first, Now())
        invariant outcomes == FlatOutcomes(first, v, ops[..i])
        invariant Virtual(table, mainMemory[..]) == FlatMemory(first, v, ops[..i])
        invariant |outcomes| == i && BitsFollow(first, Now(), ops[..i], outcomes)
      {
        assert ops[..i + 1][..i] == ops[..i] && ops[..i + 1] == ops[..i] + [ops[i]];
        ghost var now := Now();
        var outcome := Perform(ops[i], first, table);
        BitsFollowOneMore(first, now, Now(), ops[..i], outcomes, ops[i], outcome);
        outcomes := outcomes + [outcome];
      }
      assert ops[..|ops|] == ops;
      if pageTable != null {
        SameVirtual(table, pageTable[..], mainMemory[..]);
      }
    }
  }
}
