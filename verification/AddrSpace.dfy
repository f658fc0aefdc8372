/** The program loader: code and initialised data packed over whatever frames were free. */
module AddrSpaces {
  import opened Bytes
  import opened DiskImage
  import opened BitMaps
  import opened FileHeaders
  import opened OpenFiles
  import opened Translation

  const USER_STACK_SIZE := 1024

  lemma SliceOfSlice(f: seq<byte>, a: int, b: int, m: int, n: int)
    requires 0 <= a <= b <= |f| && 0 <= m <= n <= b - a
    ensures f[a..b][m..n] == f[a + m..a + n]
  {
    var piece, whole := f[a..b], f[a + m..a + n];
    assert |piece[m..n]| == |whole|;
    forall k | 0 <= k < n - m
      ensures piece[m..n][k] == whole[k]
    {
    }
  }

  datatype Segment = Segment(virtualAddr: int32, inFileAddr: int32, size: int32)

  datatype NoffHeader = NoffHeader(code: Segment, initData: Segment, uninitData: Segment) {
    /** The executable holds both segments that are loaded from it. */
    ghost predicate FitsIn(file: seq<byte>) {
      && code.size >= 0 && initData.size >= 0 && uninitData.size >= 0
      && code.inFileAddr >= 0 && initData.inFileAddr >= 0
      && code.inFileAddr + code.size <= |file| && initData.inFileAddr + initData.size <= |file|
    }

    function NumPages(): int
      requires code.size + initData.size + uninitData.size >= 0
    {
      DivRoundUp(code.size + initData.size + uninitData.size + USER_STACK_SIZE, PAGE_SIZE)
    }

    /** The pages hold all three segments and 1024 bytes of stack, with less than a page to spare. */
    lemma RoomForStack()
      requires code.size >= 0 && initData.size >= 0 && uninitData.size >= 0
      ensures var size := code.size + initData.size + uninitData.size + 1024;
        size <= NumPages() * 128 < size + 128
    {
    }

    /** The bytes of the program in the order they are laid out. */
    ghost function Program(file: seq<byte>): (p: seq<byte>)
      requires FitsIn(file)
      ensures |p| == code.size + initData.size
    {
      file[code.inFileAddr..code.inFileAddr + code.size]
      + file[initData.inFileAddr..initData.inFileAddr + initData.size]
    }

    /** How much initialised data shares the last page of the code. */
    function MergedSize(): int
      requires code.size >= 0 && initData.size >= 0
    {
      if code.size % PAGE_SIZE == 0 then 0
      else if initData.size < PAGE_SIZE - code.size % PAGE_SIZE then initData.size
      else PAGE_SIZE - code.size % PAGE_SIZE
    }

    /** The pages counted for the rest of the data are exactly those it needs. */
    lemma PagesLeft(pageNum: int)
      requires code.size >= 0 && initData.size >= 0
      requires var rest := initData.size - if code.size % PAGE_SIZE == 0 then 0 else PAGE_SIZE - code.size % PAGE_SIZE;
               pageNum == DivRoundUp(if rest < 0 then 0 else rest, PAGE_SIZE)
      ensures 0 <= MergedSize() <= initData.size && pageNum == DivRoundUp(initData.size - MergedSize(), PAGE_SIZE)
      ensures 0 <= pageNum && (pageNum == 0 ==> MergedSize() == initData.size)
    {
    }

    /** Data page i starts where the pages before it end, and lies within the space. */
    lemma NextDataPage(i: int, pageNum: int)
      requires code.size >= 0 && initData.size >= 0 && uninitData.size >= 0
      requires pageNum == DivRoundUp(initData.size - MergedSize(), PAGE_SIZE) && 0 <= i < pageNum
      ensures (DivRoundUp(code.size, PAGE_SIZE) + i) * PAGE_SIZE == code.size + MergedSize() + i * PAGE_SIZE
      ensures DivRoundUp(code.size, PAGE_SIZE) + i < NumPages()
      ensures MergedSize() + i * PAGE_SIZE < initData.size
      ensures i + 1 < pageNum ==> MergedSize() + (i + 1) * PAGE_SIZE < initData.size
      ensures i + 1 == pageNum ==> MergedSize() + (i + 1) * PAGE_SIZE >= initData.size
    {
    }

    lemma CodePiece(file: seq<byte>, m: int, n: int)
      requires FitsIn(file) && 0 <= m && 0 <= n && m + n <= code.size
      ensures Program(file)[m..m + n] == file[code.inFileAddr + m..code.inFileAddr + m + n]
    {
      var c := file[code.inFileAddr..code.inFileAddr + code.size];
      assert Program(file)[m..m + n] == c[m..m + n];
      SliceOfSlice(file, code.inFileAddr, code.inFileAddr + code.size, m, m + n);
    }

    lemma DataPiece(file: seq<byte>, m: int, n: int)
      requires FitsIn(file) && 0 <= m && 0 <= n && m + n <= initData.size
      ensures Program(file)[code.size + m..code.size + m + n]
        == file[initData.inFileAddr + m..initData.inFileAddr + m + n]
    {
      var c := file[code.inFileAddr..code.inFileAddr + code.size];
      var d := file[initData.inFileAddr..initData.inFileAddr + initData.size];
      assert (c + d)[|c| + m..|c| + m + n] == d[m..m + n];
      SliceOfSlice(file, initData.inFileAddr, initData.inFileAddr + initData.size, m, m + n);
    }
  }

  ghost predicate GoodFrames(f: seq<int>) {
    && (forall i | 0 <= i < |f| :: 0 <= f[i] < NUM_PHYS_PAGES)
    && (forall i, j | 0 <= i < j < |f| :: f[i] != f[j])
  }

  /** The pages held in the given frames, one after the other. */
  ghost function Space(memory: seq<byte>, frames: seq<int>): (s: seq<byte>)
    requires |memory| == MEMORY_SIZE && GoodFrames(frames)
    ensures |s| == |frames| * PAGE_SIZE
  {
    seq(|frames| * PAGE_SIZE, k requires 0 <= k < |frames| * PAGE_SIZE =>
      memory[frames[k / PAGE_SIZE] * PAGE_SIZE + k % PAGE_SIZE])
  }

  /** Memory outside the given frames is untouched. */
  ghost predicate OthersKept(memory: seq<byte>, memory': seq<byte>, frames: seq<int>)
    requires |memory| == |memory'| == MEMORY_SIZE
  {
    forall a | 0 <= a < MEMORY_SIZE && a / PAGE_SIZE !in frames :: memory'[a] == memory[a]
  }

  /** The first m bytes of a program, and zeros after them. */
  ghost function Partial(program: seq<byte>, m: nat, total: nat): (s: seq<byte>)
    requires m <= |program| && m <= total
    ensures |s| == total
  {
    program[..m] + seq(total - m, _ => 0)
  }

  lemma PartialMore(program: seq<byte>, m: nat, n: nat, total: nat)
    requires m + n <= |program| && m + n <= total
    ensures Splice(Partial(program, m, total), m, program[m..m + n]) == Partial(program, m + n, total)
  {
  }

  /** Writing inside one frame is writing inside the corresponding page of the space. */
  lemma WriteInPage(memory: seq<byte>, memory': seq<byte>, frames: seq<int>, page: int, offset: int, data: seq<byte>)
    requires |memory| == |memory'| == MEMORY_SIZE && GoodFrames(frames)
    requires 0 <= page < |frames| && 0 <= offset && offset + |data| <= PAGE_SIZE
    requires var at := frames[page] * PAGE_SIZE + offset;
             memory' == memory[..at] + data + memory[at + |data|..]
    ensures Space(memory', frames) == Splice(Space(memory, frames), page * PAGE_SIZE + offset, data)
    ensures OthersKept(memory, memory', frames)
  {
    var at := frames[page] * PAGE_SIZE + offset;
    var after := Splice(Space(memory, frames), page * PAGE_SIZE + offset, data);
    forall k | 0 <= k < |frames| * PAGE_SIZE
      ensures Space(memory', frames)[k] == after[k]
    {
      PageArithmetic(frames, page, offset, |data|, k);
    }
    forall a | 0 <= a < MEMORY_SIZE && a / PAGE_SIZE !in frames
      ensures memory'[a] == memory[a]
    {
      assert frames[page] in frames;
    }
  }

  lemma PageArithmetic(frames: seq<int>, page: int, offset: int, n: int, k: int)
    requires GoodFrames(frames) && 0 <= page < |frames| && 0 <= k < |frames| * PAGE_SIZE
    requires 0 <= offset && 0 <= n && offset + n <= PAGE_SIZE
    ensures var at, b := frames[page] * PAGE_SIZE + offset, frames[k / PAGE_SIZE] * PAGE_SIZE + k % PAGE_SIZE;
            && 0 <= b < MEMORY_SIZE
            && (at <= b < at + n <==> page * PAGE_SIZE + offset <= k < page * PAGE_SIZE + offset + n)
            && (at <= b < at + n ==> b - at == k - (page * PAGE_SIZE + offset))
            && (b < at + n && !(at <= b) <==> b < at)
  {
    var q := k / PAGE_SIZE;
    if q < page {
      assert frames[q] != frames[page];
    } else if page < q {
      assert frames[page] != frames[q];
    }
  }

  /** The entry of page i as the loader leaves it. */
  predicate FreshEntry(e: TranslationEntry, i: int) {
    e.virtualPage == i && e.valid && !e.readOnly && !e.use && !e.dirty
  }

  class AddrSpace {
    const machine: Machine
    const pageTable: array<TranslationEntry>
    const numPages: nat

    ghost predicate Valid()
      reads pageTable
    {
      && pageTable.Length == numPages && machine.mainMemory.Length == MEMORY_SIZE
      && (forall i | 0 <= i < numPages :: FreshEntry(pageTable[i], i))
      && GoodFrames(FramesOf(pageTable[..]))
    }

    /** Loads a program into free frames. The two conditions on pages are the assertions of the original. */
    constructor (executable: OpenFile, noffH: NoffHeader, machine: Machine, physicalPageMap: BitMap)
      requires executable.Valid() && noffH.FitsIn(executable.Content())
      requires machine.mainMemory.Length == MEMORY_SIZE
      requires physicalPageMap.Valid() && physicalPageMap.numBits == NUM_PHYS_PAGES
      requires noffH.NumPages() <= NUM_PHYS_PAGES && noffH.NumPages() <= CountClear(physicalPageMap.Bits())
      requires machine.mainMemory as object != executable.hdr.dataSectors
      requires physicalPageMap.words as object != executable.hdr.dataSectors
      requires physicalPageMap.words as object != machine.mainMemory
      modifies machine.mainMemory, physicalPageMap.words
      ensures Valid() && fresh(pageTable) && this.machine == machine && numPages == noffH.NumPages()
      ensures var size := noffH.code.size + noffH.initData.size + noffH.uninitData.size + 1024;
              size <= numPages * 128 < size + 128
      ensures pageTable.Length == numPages
      ensures forall i | 0 <= i < numPages ::
        var e := pageTable[i]; e.virtualPage == i && e.valid && !e.readOnly && !e.use && !e.dirty
      ensures var frames := FramesOf(pageTable[..]);
              && Space(machine.mainMemory[..], frames)
                 == Partial(noffH.Program(old(executable.Content())), noffH.code.size + noffH.initData.size,
                            numPages * PAGE_SIZE)
              && OthersKept(old(machine.mainMemory[..]), machine.mainMemory[..], frames)
              && Marked(old(physicalPageMap.Bits()), physicalPageMap.Bits(), FrameSet(frames, numPages))
    {
      hide Flat, Space, Partial, OthersKept, GoodFrames, Marked, BitsOf, CountClear, Header.Good, FramesOf,
        NoffHeader.Program;
      noffH.RoomForStack();
      this.machine := machine;
      numPages := noffH.NumPages();
      pageTable := new TranslationEntry[noffH.NumPages()](i => TranslationEntry(0, 0, false, false, false, false));
      new;
      ghost var memory0 := machine.mainMemory[..];
      ghost var content := executable.Content();
      AllocateFrames(physicalPageMap, noffH.Program(content));
      ghost var memory1 := machine.mainMemory[..];
      var pageCount, dataMerge := LoadCode(executable, noffH);
      ghost var memory2 := machine.mainMemory[..];
      LoadData(executable, noffH, pageCount, dataMerge);
      KeptTwice(memory0, memory1, memory2, FramesOf(pageTable[..]));
      KeptTwice(memory0, memory2, machine.mainMemory[..], FramesOf(pageTable[..]));
    }

    /** Sets up the translation: a zeroed frame of its own for every page. */
    method AllocateFrames(physicalPageMap: BitMap, ghost program: seq<byte>)
      requires pageTable.Length == numPages && machine.mainMemory.Length == MEMORY_SIZE
      requires physicalPageMap.Valid() && physicalPageMap.numBits == NUM_PHYS_PAGES
      requires numPages <= NUM_PHYS_PAGES && numPages <= CountClear(physicalPageMap.Bits())
      requires pageTable as object != machine.mainMemory && pageTable as object != physicalPageMap.words
      requires physicalPageMap.words as object != machine.mainMemory
      modifies pageTable, machine.mainMemory, physicalPageMap.words
      ensures Valid()
      ensures Space(machine.mainMemory[..], FramesOf(pageTable[..])) == Partial(program, 0, numPages * PAGE_SIZE)
      ensures OthersKept(old(machine.mainMemory[..]), machine.mainMemory[..], FramesOf(pageTable[..]))
      ensures Marked(old(physicalPageMap.Bits()), physicalPageMap.Bits(), FrameSet(FramesOf(pageTable[..]), numPages))
    {
      hide Space, Partial, OthersKept, GoodFrames, Marked, BitsOf, CountClear, FrameSet;
      ghost var memory, bits := machine.mainMemory[..], physicalPageMap.Bits();
      NoFrames(memory, bits, program, FramesOf(pageTable[..]));
      for i := 0 to numPages
        invariant machine.mainMemory.Length == MEMORY_SIZE
        invariant forall j | 0 <= j < i :: FreshEntry(pageTable[j], j)
        invariant GoodFrames(FramesOf(pageTable[..])[..i])
        invariant Space(machine.mainMemory[..], FramesOf(pageTable[..])[..i]) == Partial(program, 0, i * PAGE_SIZE)
        invariant OthersKept(memory, machine.mainMemory[..], FramesOf(pageTable[..])[..i])
        invariant Marked(bits, physicalPageMap.Bits(), FrameSet(FramesOf(pageTable[..]), i))
        invariant CountClear(physicalPageMap.Bits()) == CountClear(bits) - i
      {
        ghost var frames, memory1, bits1 := FramesOf(pageTable[..]), machine.mainMemory[..], physicalPageMap.Bits();
        CountClearZero(bits1);
        var frame := physicalPageMap.Find();
        CountClearMark(bits1, frame);
        pageTable[i] := TranslationEntry(i, frame, true, false, false, false);
        assert FramesOf(pageTable[..]) == frames[i := frame];
        forall a | frame * PAGE_SIZE <= a < (frame + 1) * PAGE_SIZE {
          machine.mainMemory[a] := 0;
        }
        OneMoreFrame(bits, bits1, frames, i, frame);
        OneMorePage(memory, memory1, machine.mainMemory[..], frames[..i], frame, program);
        assert FramesOf(pageTable[..]) == frames[i := frame];
        assert FramesOf(pageTable[..])[..i + 1] == frames[..i] + [frame];
      }
      assert FramesOf(pageTable[..])[..numPages] == FramesOf(pageTable[..]);
    }

    /** The space holds the first m bytes of the program and zeros after them. */
    ghost predicate Holds(program: seq<byte>, m: int)
      requires Valid() && m <= |program|
      reads pageTable, machine.mainMemory
    {
      0 <= m <= numPages * PAGE_SIZE &&
      Space(machine.mainMemory[..], FramesOf(pageTable[..])) == Partial(program, m, numPages * PAGE_SIZE)
    }

    /** Copies the code; dataMerge tells that it ended within a page. */
    method LoadCode(executable: OpenFile, noffH: NoffHeader) returns (pageCount: int, dataMerge: bool)
      requires Valid() && executable.Valid() && noffH.FitsIn(executable.Content()) && numPages == noffH.NumPages()
      requires machine.mainMemory as object != executable.hdr.dataSectors
      requires machine.mainMemory as object != pageTable
      requires Holds(noffH.Program(executable.Content()), 0)
      modifies machine.mainMemory
      ensures pageCount == DivRoundUp(noffH.code.size, PAGE_SIZE) && (dataMerge <==> noffH.code.size % PAGE_SIZE != 0)
      ensures Holds(noffH.Program(old(executable.Content())), noffH.code.size)
      ensures OthersKept(old(machine.mainMemory[..]), machine.mainMemory[..], FramesOf(pageTable[..]))
    {
      hide Flat, OthersKept, GoodFrames, FramesOf, Holds, NoffHeader.Program, Header.Good;
      ghost var file := executable.Content();
      ghost var program, frames, memory := noffH.Program(file), FramesOf(pageTable[..]), machine.mainMemory[..];
      KeptAtFirst(memory, frames);
      var codeSize := noffH.code.size;
      var byteCount := 0;
      pageCount, dataMerge := 0, false;
      var pageNum := DivRoundUp(codeSize, PAGE_SIZE);
      for i := 0 to pageNum
        invariant pageCount == i && byteCount == i * PAGE_SIZE
        invariant dataMerge <==> i * PAGE_SIZE > codeSize
        invariant Holds(program, if dataMerge then codeSize else i * PAGE_SIZE)
        invariant OthersKept(memory, machine.mainMemory[..], frames)
      {
        var numBytes := PAGE_SIZE;
        var page := pageCount;
        pageCount := pageCount + 1;
        var position := noffH.code.inFileAddr + byteCount;
        byteCount := byteCount + PAGE_SIZE;
        if byteCount > codeSize {
          numBytes := codeSize % PAGE_SIZE;
          dataMerge := true;
        }
        ghost var memory1 := machine.mainMemory[..];
        noffH.CodePiece(file, i * PAGE_SIZE, numBytes);
        ReadPiece(executable, page, 0, numBytes, position, program, i * PAGE_SIZE);
        KeptTwice(memory, memory1, machine.mainMemory[..], frames);
      }
    }

    /** Copies the initialised data that fits in the page where the code ends. */
    method MergeData(executable: OpenFile, noffH: NoffHeader, pageCount: int, dataMerge: bool) returns (byteCount: int)
      requires Valid() && executable.Valid() && noffH.FitsIn(executable.Content()) && numPages == noffH.NumPages()
      requires machine.mainMemory as object != executable.hdr.dataSectors
      requires machine.mainMemory as object != pageTable
      requires pageCount == DivRoundUp(noffH.code.size, PAGE_SIZE) && (dataMerge <==> noffH.code.size % PAGE_SIZE != 0)
      requires Holds(noffH.Program(executable.Content()), noffH.code.size)
      modifies machine.mainMemory
      ensures byteCount == noffH.MergedSize()
      ensures Holds(noffH.Program(old(executable.Content())), noffH.code.size + byteCount)
      ensures OthersKept(old(machine.mainMemory[..]), machine.mainMemory[..], FramesOf(pageTable[..]))
    {
      hide Flat, OthersKept, GoodFrames, FramesOf, Holds, NoffHeader.Program;
      KeptAtFirst(machine.mainMemory[..], FramesOf(pageTable[..]));
      var codeSize, dataSize := noffH.code.size, noffH.initData.size;
      byteCount := 0;
      if dataMerge && dataSize != 0 {
        var position := noffH.initData.inFileAddr;
        var numBytes := PAGE_SIZE - codeSize % PAGE_SIZE;
        if numBytes > dataSize {
          numBytes := dataSize;
        }
        noffH.DataPiece(executable.Content(), 0, numBytes);
        ReadPiece(executable, pageCount - 1, codeSize % PAGE_SIZE, numBytes, position,
                  noffH.Program(executable.Content()), codeSize);
        byteCount := byteCount + numBytes;
      }
    }

    /** Copies the initialised data, which begins in the page where the code ends. */
    method LoadData(executable: OpenFile, noffH: NoffHeader, pageCount0: int, dataMerge: bool)
      requires Valid() && executable.Valid() && noffH.FitsIn(executable.Content()) && numPages == noffH.NumPages()
      requires machine.mainMemory as object != executable.hdr.dataSectors
      requires machine.mainMemory as object != pageTable
      requires pageCount0 == DivRoundUp(noffH.code.size, PAGE_SIZE) && (dataMerge <==> noffH.code.size % PAGE_SIZE != 0)
      requires Holds(noffH.Program(executable.Content()), noffH.code.size)
      modifies machine.mainMemory
      ensures Holds(noffH.Program(old(executable.Content())), noffH.code.size + noffH.initData.size)
      ensures OthersKept(old(machine.mainMemory[..]), machine.mainMemory[..], FramesOf(pageTable[..]))
    {
      hide Flat, OthersKept, GoodFrames, FramesOf, Holds, NoffHeader.Program, NoffHeader.MergedSize, DivRoundUp;
      hide Header.Good;
      ghost var file := executable.Content();
      ghost var program, frames, memory := noffH.Program(file), FramesOf(pageTable[..]), machine.mainMemory[..];
      var codeSize, dataSize := noffH.code.size, noffH.initData.size;
      var pageCount := pageCount0;
      var pageNum: int := dataSize;
      if dataMerge {
        pageNum := pageNum - (PAGE_SIZE - codeSize % PAGE_SIZE);
      }
      if pageNum < 0 {
        pageNum := 0;
      }
      pageNum := DivRoundUp(pageNum, PAGE_SIZE);
      var byteCount := MergeData(executable, noffH, pageCount, dataMerge);
      noffH.PagesLeft(pageNum);
      for i := 0 to pageNum
        invariant byteCount == noffH.MergedSize() + i * PAGE_SIZE
        invariant pageCount == pageCount0 + i
        invariant i == pageNum ==> byteCount >= dataSize
        invariant Holds(program, codeSize + if byteCount < dataSize then byteCount else dataSize)
        invariant OthersKept(memory, machine.mainMemory[..], frames)
      {
        var page := pageCount;
        pageCount := pageCount + 1;
        var position := noffH.initData.inFileAddr + byteCount;
        ghost var m, memory1 := byteCount, machine.mainMemory[..];
        byteCount := byteCount + PAGE_SIZE;
        var numBytes := PAGE_SIZE;
        if byteCount > dataSize {
          numBytes := dataSize - (byteCount - PAGE_SIZE);
        }
        noffH.NextDataPage(i, pageNum);
        noffH.DataPiece(file, m, numBytes);
        ReadPiece(executable, page, 0, numBytes, position, program, codeSize + m);
        KeptTwice(memory, memory1, machine.mainMemory[..], frames);
      }
    }

    /** Reads a piece of the executable that belongs at byte m of the space, within one page. */
    method ReadPiece(executable: OpenFile, page: int, offset: int, numBytes: int, position: int,
                     ghost program: seq<byte>, ghost m: nat)
      requires Valid() && executable.Valid() && machine.mainMemory as object != executable.hdr.dataSectors
      requires machine.mainMemory as object != pageTable
      requires 0 <= page < numPages && 0 <= offset && 0 <= numBytes && offset + numBytes <= PAGE_SIZE
      requires page * PAGE_SIZE + offset == m && m + numBytes <= |program|
      requires 0 <= position && position + numBytes <= executable.hdr.numBytes
      requires executable.Content()[position..position + numBytes] == program[m..m + numBytes]
      requires Holds(program, m)
      modifies machine.mainMemory
      ensures Holds(program, m + numBytes)
      ensures OthersKept(old(machine.mainMemory[..]), machine.mainMemory[..], FramesOf(pageTable[..]))
    {
      hide Flat, Space, Partial, OthersKept, GoodFrames;
      ghost var before, frames := machine.mainMemory[..], FramesOf(pageTable[..]);
      FrameRange(frames, page);
      var place := pageTable[page].physicalPage * PAGE_SIZE + offset;
      var n := executable.ReadAt(machine.mainMemory, place, numBytes, position);
      var data := Slice(executable.Content(), position, n);
      assert data == program[m..m + numBytes];
      WriteInPage(before, machine.mainMemory[..], frames, page, offset, data);
      PartialMore(program, m, numBytes, numPages * PAGE_SIZE);
    }
  }

  ghost function FramesOf(table: seq<TranslationEntry>): (f: seq<int>)
    ensures |f| == |table|
  {
    seq(|table|, i requires 0 <= i < |table| => table[i].physicalPage)
  }

  lemma FrameRange(frames: seq<int>, page: int)
    requires GoodFrames(frames) && 0 <= page < |frames|
    ensures 0 <= frames[page] < NUM_PHYS_PAGES
  {
  }

  ghost function FrameSet(frames: seq<int>, n: int): set<int>
    requires 0 <= n <= |frames|
  {
    set i | 0 <= i < n :: frames[i]
  }

  lemma KeptAtFirst(memory: seq<byte>, frames: seq<int>)
    requires |memory| == MEMORY_SIZE
    ensures OthersKept(memory, memory, frames)
  {
  }

  lemma KeptTwice(memory: seq<byte>, memory1: seq<byte>, memory2: seq<byte>, frames: seq<int>)
    requires |memory| == |memory1| == |memory2| == MEMORY_SIZE
    requires OthersKept(memory, memory1, frames) && OthersKept(memory1, memory2, frames)
    ensures OthersKept(memory, memory2, frames)
  {
  }

  lemma NoFrames(memory: seq<byte>, bits: seq<bool>, program: seq<byte>, frames: seq<int>)
    requires |memory| == MEMORY_SIZE
    ensures GoodFrames(frames[..0]) && Space(memory, frames[..0]) == Partial(program, 0, 0)
    ensures OthersKept(memory, memory, frames[..0]) && Marked(bits, bits, FrameSet(frames, 0))
  {
  }

  lemma OneMoreFrame(bits: seq<bool>, bits1: seq<bool>, frames: seq<int>, i: int, frame: int)
    requires 0 <= i < |frames| && GoodFrames(frames[..i]) && Marked(bits, bits1, FrameSet(frames, i))
    requires |bits| == NUM_PHYS_PAGES && 0 <= frame < NUM_PHYS_PAGES && !bits1[frame]
    ensures Marked(bits, bits1[frame := true], FrameSet(frames[i := frame], i + 1))
    ensures frame !in frames[..i] && GoodFrames(frames[..i] + [frame])
  {
    var more := frames[i := frame];
    assert forall j | 0 <= j < i :: more[j] == frames[j];
    assert more[i] == frame;
    assert FrameSet(more, i + 1) == FrameSet(frames, i) + {frame};
    forall j | 0 <= j < i
      ensures frames[j] != frame
    {
      assert frames[j] in FrameSet(frames, i);
    }
  }

  lemma OneMorePage(memory: seq<byte>, memory1: seq<byte>, memory2: seq<byte>, frames: seq<int>, frame: int,
      program: seq<byte>)
    requires |memory| == |memory1| == |memory2| == MEMORY_SIZE
    requires GoodFrames(frames) && GoodFrames(frames + [frame])
    requires Space(memory1, frames) == Partial(program, 0, |frames| * PAGE_SIZE) && OthersKept(memory, memory1, frames)
    requires forall a | 0 <= a < MEMORY_SIZE ::
      memory2[a] == if frame * PAGE_SIZE <= a < (frame + 1) * PAGE_SIZE then 0 else memory1[a]
    ensures Space(memory2, frames + [frame]) == Partial(program, 0, (|frames| + 1) * PAGE_SIZE)
    ensures OthersKept(memory, memory2, frames + [frame])
  {
    var more := frames + [frame];
    forall k | 0 <= k < |more| * PAGE_SIZE
      ensures Space(memory2, more)[k] == 0
    {
      if k / PAGE_SIZE < |frames| {
        assert more[k / PAGE_SIZE] == frames[k / PAGE_SIZE] && more[k / PAGE_SIZE] != more[|frames|];
        assert Space(memory1, frames)[k] == 0;
      }
    }
    forall a | 0 <= a < MEMORY_SIZE && a / PAGE_SIZE !in more
      ensures memory2[a] == memory[a]
    {
      assert frame in more;
      assert a / PAGE_SIZE !in frames;
    }
  }

  /** Main theorem: through its page table a freshly loaded program sees its code, then its initialised data,
      then zeros, whatever the sizes and wherever the frames are. */
  lemma LoadedImage(table: seq<TranslationEntry>, memory: seq<byte>, program: seq<byte>, a: int)
    requires |memory| == MEMORY_SIZE && |program| <= |table| * PAGE_SIZE
    requires (forall i | 0 <= i < |table| :: table[i].valid) && GoodFrames(FramesOf(table))
    requires Space(memory, FramesOf(table)) == Partial(program, |program|, |table| * PAGE_SIZE)
    requires 0 <= a < |table| * PAGE_SIZE
    ensures Injective(table) && a in Virtual(table, memory)
    ensures Virtual(table, memory)[a] == if a < |program| then program[a] else 0
  {
    var frames := FramesOf(table);
    assert forall i | 0 <= i < |table| :: frames[i] == table[i].physicalPage;
    assert Injective(table);
    assert Mapped(table, a);
    assert Space(memory, frames)[a] == memory[Physical(table, a)];
    assert Partial(program, |program|, |table| * PAGE_SIZE)[a] == if a < |program| then program[a] else 0;
  }

  /** Byte a of a freshly loaded space: from the code, from the initialised data, or zero. */
  lemma LoadedByte(table: seq<TranslationEntry>, memory: seq<byte>, noffH: NoffHeader, file: seq<byte>, a: int)
    requires |memory| == MEMORY_SIZE && noffH.FitsIn(file) && |table| == noffH.NumPages()
    requires (forall i | 0 <= i < |table| :: table[i].valid) && GoodFrames(FramesOf(table))
    requires Space(memory, FramesOf(table))
             == Partial(noffH.Program(file), noffH.code.size + noffH.initData.size, |table| * PAGE_SIZE)
    requires 0 <= a < |table| * 128
    ensures Injective(table) && a in Virtual(table, memory)
    ensures Virtual(table, memory)[a] ==
      if a < noffH.code.size then file[noffH.code.inFileAddr + a]
      else if a < noffH.code.size + noffH.initData.size then file[noffH.initData.inFileAddr + (a - noffH.code.size)]
      else 0
  {
    noffH.RoomForStack();
    hide Virtual, Space, Partial, GoodFrames, FramesOf, Injective, NoffHeader.NumPages;
    LoadedImage(table, memory, noffH.Program(file), a);
  }

  /** When the linker placed the segments contiguously from address 0, each lies at its virtual address. */
  lemma SegmentsInPlace(table: seq<TranslationEntry>, memory: seq<byte>, noffH: NoffHeader, file: seq<byte>, j: int)
    requires |memory| == MEMORY_SIZE && noffH.FitsIn(file) && |table| == noffH.NumPages()
    requires (forall i | 0 <= i < |table| :: table[i].valid) && GoodFrames(FramesOf(table))
    requires Space(memory, FramesOf(table))
             == Partial(noffH.Program(file), noffH.code.size + noffH.initData.size, |table| * PAGE_SIZE)
    requires noffH.code.virtualAddr == 0 && noffH.initData.virtualAddr == noffH.code.size
    ensures Injective(table)
    ensures 0 <= j < noffH.code.size ==>
              var a := noffH.code.virtualAddr + j;
              a in Virtual(table, memory) && Virtual(table, memory)[a] == file[noffH.code.inFileAddr + j]
    ensures 0 <= j < noffH.initData.size ==>
              var a := noffH.initData.virtualAddr + j;
              a in Virtual(table, memory) && Virtual(table, memory)[a] == file[noffH.initData.inFileAddr + j]
  {
    noffH.RoomForStack();
    hide Virtual, Space, Partial, GoodFrames, FramesOf, Injective, NoffHeader.NumPages, NoffHeader.Program;
    LoadedByte(table, memory, noffH, file, 0);
    if 0 <= j < noffH.code.size {
      LoadedByte(table, memory, noffH, file, j);
    }
    if 0 <= j < noffH.initData.size {
      LoadedByte(table, memory, noffH, file, noffH.code.size + j);
    }
  }

  /** The uninitialised segment behind them, the last 1024 bytes and all between are mapped and zero. */
  lemma ZerosInPlace(table: seq<TranslationEntry>, memory: seq<byte>, noffH: NoffHeader, file: seq<byte>, j: int)
    requires |memory| == MEMORY_SIZE && noffH.FitsIn(file) && |table| == noffH.NumPages()
    requires (forall i | 0 <= i < |table| :: table[i].valid) && GoodFrames(FramesOf(table))
    requires Space(memory, FramesOf(table))
             == Partial(noffH.Program(file), noffH.code.size + noffH.initData.size, |table| * PAGE_SIZE)
    requires noffH.uninitData.virtualAddr == noffH.code.size + noffH.initData.size
    ensures Injective(table)
    ensures var size := noffH.uninitData.virtualAddr + noffH.uninitData.size + 1024;
            size <= |table| * 128 < size + 128
    ensures noffH.uninitData.virtualAddr <= j < |table| * 128 ==>
              j in Virtual(table, memory) && Virtual(table, memory)[j] == 0
  {
    noffH.RoomForStack();
    hide Virtual, Space, Partial, GoodFrames, FramesOf, Injective, NoffHeader.NumPages, NoffHeader.Program;
    LoadedByte(table, memory, noffH, file, 0);
    if noffH.uninitData.virtualAddr <= j < |table| * 128 {
      LoadedByte(table, memory, noffH, file, j);
    }
  }
}
