/** What a loaded process can reach: its address map, its writable pages, and why no two processes share any. */
module AddressSpace {
  import opened Words
  import opened HeapTable
  import opened HeapRuns
  import opened Kheap
  import opened PageTables
  import opened Paging
  import opened PagingChunks

  const PROGRAM_VIRTUAL := 0x40_0000
  const STACK_SIZE := 1024 * 16
  const STACK_VIRTUAL_START := 0x3F_F000
  const STACK_VIRTUAL_END := 0x3F_B000
  const PROGRAM_PAGE := 0x400
  const STACK_PAGE := 0x3FB
  const STACK_PAGES := 4
  const USER_READ := 5
  const USER_WRITE := 7

  /** The memory of one process: its page structure, program image and stack, by address. */
  datatype Space = Space(chunk: u32, ptr: u32, size: u32, stack: u32)

  /** A page-aligned live allocation of n blocks inside the heap. */
  predicate Allocation(live: Extents, p: u32, n: nat) {
    && p % PAGE == 0 && IsHeapFrame(p / PAGE) && n >= 1 && p / PAGE + n <= HEAP_FRAME + HEAP_BLOCKS
    && p / PAGE - HEAP_FRAME in live && live[p / PAGE - HEAP_FRAME] == n
  }

  predicate IsProgramPage(s: Space, p: nat) { PROGRAM_PAGE <= p < PROGRAM_PAGE + BlocksFor(s.size) }

  predicate IsStackPage(p: nat) { STACK_PAGE <= p < STACK_PAGE + STACK_PAGES }

  /** The entry of page p: program and stack pages on their allocations, every other page on itself, read-only. */
  function EntryOf(s: Space, p: nat): nat {
    if IsProgramPage(s, p) then s.ptr + PAGE * (p - PROGRAM_PAGE) + USER_WRITE
    else if IsStackPage(p) then s.stack + PAGE * (p - STACK_PAGE) + USER_WRITE
    else PAGE * p + USER_READ
  }

  /** The page structure in memory maps the task's 2^20 pages as intended. */
  ghost predicate Loaded(m: seq<byte>, live: Extents, s: Space) {
    && |m| == RAM_BYTES && s.chunk / PAGE < FRAMES
    && s.chunk % PAGE == 0 && Chunk(m, live, s.chunk / PAGE)
    && 0 < s.size <= 0xffff_f000
    && Allocation(live, s.ptr, BlocksFor(s.size)) && Allocation(live, s.stack, STACK_PAGES)
    && s.ptr != s.stack && WritableStarts(s) !! ChunkBlocks(m, s.chunk / PAGE)
    && (forall p: nat :: p < FRAMES ==> View(m, s.chunk / PAGE)[p] == EntryOf(s, p))
    && (forall i: nat :: i < ENTRIES ==> Word(FrameOf(m, DirOf(m, s.chunk / PAGE)), i) % PAGE == USER_WRITE)
  }

  /** Everything a process holds stays as it is while only free blocks are written and taken. */
  lemma LoadedPreserved(m: seq<byte>, live: Extents, m': seq<byte>, live': Extents, s: Space)
    requires |m| == |m'| == RAM_BYTES && Loaded(m, live, s)
    requires Grown(live, live') && Preserved(live, m, m')
    ensures Loaded(m', live', s)
  {
    ChunkPreserved(m, live, m', live', s.chunk / PAGE);
    hide Word, FrameOf, Chunk, View, DirOf, Grown, Preserved, EntryOf, ChunkBlocks;
    assert s.ptr / PAGE - HEAP_FRAME in live && s.stack / PAGE - HEAP_FRAME in live;
    GrownAt(live, live', s.ptr / PAGE - HEAP_FRAME);
    GrownAt(live, live', s.stack / PAGE - HEAP_FRAME);
  }

  lemma GrownAt(live: Extents, live': Extents, b: nat)
    requires Grown(live, live') && b in live
    ensures b in live' && live'[b] == live[b]
  {
  }

  // ---------------------------------------------------------------- writable pages

  /** Bit 1 of a 32-bit entry. */
  predicate WritableEntry(e: nat) { BitAnd(e, WRITEABLE) != 0 }

  lemma WritableBit(e: nat)
    ensures WritableEntry(e) <==> e / 2 % 2 == 1
  {
    assert BitAnd(e / 2, 1) == e / 2 % 2;
  }

  /**
    A page can be written to when both its directory and its table entry allow it (Intel SDM, Vol. 3A, section 4.6).
  */
  ghost predicate Writable(m: seq<byte>, c: nat, p: nat)
    requires |m| == RAM_BYTES && c < FRAMES && p < FRAMES
  {
    WritableEntry(Word(FrameOf(m, DirOf(m, c)), p / ENTRIES)) && WritableEntry(View(m, c)[p])
  }

  /** The three flag bits of an aligned address and its flags. */
  lemma FlagBits(e: nat, f: nat)
    requires e >= f && (e - f) % PAGE == 0 && (f == USER_READ || f == USER_WRITE)
    ensures e % 2 == 1 && e / 4 % 2 == 1 && (e / 2 % 2 == 1 <==> f == USER_WRITE)
  {
    var q := (e - f) / PAGE;
    assert e == 8 * (512 * q) + f;
    OddParts(e, 512 * q, f);
  }

  lemma OddParts(e: nat, q: nat, f: nat)
    requires e == 8 * q + f && (f == 5 || f == 7)
    ensures e % 2 == 1 && e / 4 % 2 == 1 && (e / 2 % 2 == 1 <==> f == 7)
  {
    assert e == 2 * (4 * q + f / 2) + 1 && e / 4 == 2 * q + 1;
    assert e / 2 == 2 * (2 * q + f / 4) + f / 2 % 2;
  }

  lemma WritableFlags(a: nat, f: nat)
    requires a % PAGE == 0 && (f == USER_READ || f == USER_WRITE)
    ensures WritableEntry(a + f) <==> f == USER_WRITE
  {
    FlagBits(a + f, f);
    WritableBit(a + f);
    hide WritableEntry;
  }

  /** The writable pages of a task are exactly its program and its stack pages. */
  lemma WritablePagesExact(m: seq<byte>, live: Extents, s: Space, p: nat)
    requires Loaded(m, live, s) && p < FRAMES
    ensures Writable(m, s.chunk / PAGE, p) <==> IsProgramPage(s, p) || IsStackPage(p)
  {
    hide Word, FrameOf, Chunk, View, DirOf, WritableEntry;
    var e := Word(FrameOf(m, DirOf(m, s.chunk / PAGE)), p / ENTRIES);
    assert e % PAGE == USER_WRITE;
    WritableFlags(e - USER_WRITE, USER_WRITE);
    var f := if IsProgramPage(s, p) || IsStackPage(p) then USER_WRITE else USER_READ;
    assert EntryOf(s, p) % PAGE == f;
    WritableFlags(EntryOf(s, p) - f, f);
  }

  // ---------------------------------------------------------------- readable frames

  /** Present, and open to user code. */
  predicate ReadableEntry(e: nat) { BitAnd(e, PRESENT) != 0 && BitAnd(e, ACCESS_FROM_ALL) != 0 }

  lemma ReadableBits(e: nat)
    ensures ReadableEntry(e) <==> e % 2 == 1 && e / 4 % 2 == 1
  {
    assert BitAnd(e, 1) == e % 2;
    assert BitAnd(e / 4, 1) == e / 4 % 2;
    assert BitAnd(e / 2, 2) == 2 * BitAnd(e / 2 / 2, 1) && e / 2 / 2 == e / 4;
    assert BitAnd(e, 4) == 2 * BitAnd(e / 2, 2);
  }

  lemma ReadableFlags(a: nat, f: nat)
    requires a % PAGE == 0 && (f == USER_READ || f == USER_WRITE)
    ensures ReadableEntry(a + f)
  {
    FlagBits(a + f, f);
    ReadableBits(a + f);
    hide ReadableEntry;
  }

  /** Some page of the map leads a user to frame f. */
  ghost predicate CanRead(m: seq<byte>, c: nat, f: nat)
    requires |m| == RAM_BYTES && c < FRAMES
  {
    exists p: nat :: p < FRAMES && ReadsAt(m, c, p, f)
  }

  ghost predicate ReadsAt(m: seq<byte>, c: nat, p: nat, f: nat)
    requires |m| == RAM_BYTES && c < FRAMES && p < FRAMES
  {
    && ReadableEntry(Word(FrameOf(m, DirOf(m, c)), p / ENTRIES)) && ReadableEntry(View(m, c)[p])
    && View(m, c)[p] / PAGE == f
  }

  /** Frame f is one of the process's own program or stack. */
  predicate OwnFrame(s: Space, f: nat) {
    s.ptr / PAGE <= f < s.ptr / PAGE + BlocksFor(s.size) || s.stack / PAGE <= f < s.stack / PAGE + STACK_PAGES
  }

  /** Every page of a loaded process is readable. */
  lemma LoadedReads(m: seq<byte>, live: Extents, s: Space, p: nat)
    requires Loaded(m, live, s) && p < FRAMES
    ensures ReadsAt(m, s.chunk / PAGE, p, EntryOf(s, p) / PAGE)
  {
    hide Word, FrameOf, Chunk, View, DirOf, ReadableEntry;
    var e := Word(FrameOf(m, DirOf(m, s.chunk / PAGE)), p / ENTRIES);
    assert e % PAGE == USER_WRITE;
    ReadableFlags(e - USER_WRITE, USER_WRITE);
    var f := if IsProgramPage(s, p) || IsStackPage(p) then USER_WRITE else USER_READ;
    assert EntryOf(s, p) % PAGE == f;
    ReadableFlags(EntryOf(s, p) - f, f);
  }

  /**
   A process reads its own frames, and every other frame whose number is not that of one of its program or stack pages:
   the identity map keeps it from writing to others, not from reading them.
   */
  lemma ReadableExact(m: seq<byte>, live: Extents, s: Space, f: nat)
    requires Loaded(m, live, s) && f < FRAMES
    ensures CanRead(m, s.chunk / PAGE, f) <==> OwnFrame(s, f) || !(IsProgramPage(s, f) || IsStackPage(f))
  {
    hide Word, FrameOf, Chunk, View, DirOf, ReadableEntry, ChunkBlocks;
    var c := s.chunk / PAGE;
    if p: nat :| p < FRAMES && ReadsAt(m, c, p, f) {
      assert View(m, c)[p] == EntryOf(s, p);
      PageOfEntry(s, p);
    }
    if OwnFrame(s, f) || !(IsProgramPage(s, f) || IsStackPage(f)) {
      var p := PageOfFrame(s, f);
      PageOfEntry(s, p);
      LoadedReads(m, live, s, p);
    }
  }

  /** The frame that page p of a process lies on. */
  lemma PageOfEntry(s: Space, p: nat)
    requires s.ptr % PAGE == 0 && s.stack % PAGE == 0
    ensures EntryOf(s, p) / PAGE ==
            if IsProgramPage(s, p) then s.ptr / PAGE + (p - PROGRAM_PAGE)
            else if IsStackPage(p) then s.stack / PAGE + (p - STACK_PAGE) else p
  {
    hide BlocksFor;
    if IsProgramPage(s, p) {
      EntryFrame(s.ptr + PAGE * (p - PROGRAM_PAGE), USER_WRITE);
    } else if IsStackPage(p) {
      EntryFrame(s.stack + PAGE * (p - STACK_PAGE), USER_WRITE);
    } else {
      EntryFrame(PAGE * p, USER_READ);
    }
  }

  /** A page that leads to frame f, if there is one. */
  function PageOfFrame(s: Space, f: nat): (p: nat)
    ensures s.ptr / PAGE <= f < s.ptr / PAGE + BlocksFor(s.size) ==>
        IsProgramPage(s, p) && p - PROGRAM_PAGE == f - s.ptr / PAGE
  {
    if s.ptr / PAGE <= f < s.ptr / PAGE + BlocksFor(s.size) then PROGRAM_PAGE + (f - s.ptr / PAGE)
    else if s.stack / PAGE <= f < s.stack / PAGE + STACK_PAGES then STACK_PAGE + (f - s.stack / PAGE)
    else f
  }

  /** The physical address that the two-level walk of chunk c gives to a virtual one. */
  function Translate(m: seq<byte>, c: nat, va: u32): (a: nat)
    requires |m| == RAM_BYTES && c < FRAMES
    ensures a < RAM_BYTES
  {
    ByteOfPage(View(m, c)[va / PAGE], va)
  }

  /** The byte of the frame of entry e that address va selects. */
  function ByteOfPage(e: u32, va: u32): (a: nat)
    ensures a < RAM_BYTES
  {
    e / PAGE * PAGE + va % PAGE
  }

  /** Program bytes, stack bytes and all others, through the walk. */
  lemma TranslateLoaded(m: seq<byte>, live: Extents, s: Space, va: u32)
    requires Loaded(m, live, s)
    ensures Translate(m, s.chunk / PAGE, va) ==
            if PROGRAM_VIRTUAL <= va < PROGRAM_VIRTUAL + PAGE * BlocksFor(s.size) then s.ptr + (va - PROGRAM_VIRTUAL)
            else if STACK_VIRTUAL_END <= va < STACK_VIRTUAL_START then s.stack + (va - STACK_VIRTUAL_END)
            else va
  {
    hide Word, FrameOf, Chunk, View, DirOf;
    var p := va / PAGE;
    assert View(m, s.chunk / PAGE)[p] == EntryOf(s, p);
    if IsProgramPage(s, p) {
      EntryFrame(s.ptr + PAGE * (p - PROGRAM_PAGE), USER_WRITE);
    } else if IsStackPage(p) {
      EntryFrame(s.stack + PAGE * (p - STACK_PAGE), USER_WRITE);
    } else {
      EntryFrame(PAGE * p, USER_READ);
    }
  }

  lemma EntryFrame(a: nat, f: nat)
    requires a % PAGE == 0 && f < PAGE
    ensures (a + f) / PAGE * PAGE == a && (a + f) / PAGE == a / PAGE
  {
  }

  /** The page below 0x600000, where the kernel stack of a system call ends. */
  const KERNEL_STACK_PAGE := 0x5FF

  /** Map c leads to the kernel stack where the kernel left it. */
  ghost predicate KernelStackMapped(m: seq<byte>, c: nat)
    requires |m| == RAM_BYTES && c < FRAMES
  {
    View(m, c)[KERNEL_STACK_PAGE] / PAGE == KERNEL_STACK_PAGE
  }

  /** The map of a process does so exactly when its program has at most 511 pages. */
  lemma KernelStackExact(m: seq<byte>, live: Extents, s: Space)
    requires Loaded(m, live, s)
    ensures KernelStackMapped(m, s.chunk / PAGE) <==> BlocksFor(s.size) <= 511
  {
    hide Word, FrameOf, Chunk, View, DirOf, ChunkBlocks, BlocksFor;
    assert View(m, s.chunk / PAGE)[KERNEL_STACK_PAGE] == EntryOf(s, KERNEL_STACK_PAGE);
    PageOfEntry(s, KERNEL_STACK_PAGE);
  }

  // ---------------------------------------------------------------- isolation

  /** The starts of the two allocations a process can write to. */
  function WritableStarts(s: Space): set<int> {
    {s.ptr / PAGE - HEAP_FRAME, s.stack / PAGE - HEAP_FRAME}
  }

  /** The live allocation that a writable page of s lies in, and its block. */
  function OwnerOf(s: Space, p: nat): int {
    if IsProgramPage(s, p) then s.ptr / PAGE - HEAP_FRAME else s.stack / PAGE - HEAP_FRAME
  }

  lemma WritableFrameOwned(m: seq<byte>, live: Extents, s: Space, p: nat)
    requires Loaded(m, live, s) && p < FRAMES && Writable(m, s.chunk / PAGE, p)
    ensures var f := View(m, s.chunk / PAGE)[p] / PAGE;
      && OwnerOf(s, p) >= 0 && f >= HEAP_FRAME && Covers(live, OwnerOf(s, p), f - HEAP_FRAME)
      && OwnerOf(s, p) in WritableStarts(s)
  {
    WritablePagesExact(m, live, s, p);
    hide Word, FrameOf, Chunk, View, DirOf, Writable;
    assert View(m, s.chunk / PAGE)[p] == EntryOf(s, p);
    if IsProgramPage(s, p) {
      FrameInAllocation(live, s.ptr, BlocksFor(s.size), p - PROGRAM_PAGE);
    } else {
      FrameInAllocation(live, s.stack, STACK_PAGES, p - STACK_PAGE);
    }
  }

  lemma FrameInAllocation(live: Extents, a: u32, n: nat, i: nat)
    requires Allocation(live, a, n) && i < n
    ensures (a + PAGE * i + USER_WRITE) / PAGE == a / PAGE + i
    ensures Covers(live, a / PAGE - HEAP_FRAME, a / PAGE + i - HEAP_FRAME)
  {
    EntryFrame(a + PAGE * i, USER_WRITE);
  }

  /** Every page of the kernel's own map lies on the frame of its number. */
  ghost predicate IdentityFrames(m: seq<byte>, c: nat)
    requires |m| == RAM_BYTES && c < FRAMES
  {
    forall q: nat :: q < FRAMES ==> View(m, c)[q] / PAGE == q
  }

  /**
    Processes that hold different allocations: all loaded, none sharing a program, a stack or a page-structure block.
  */
  ghost predicate AllLoaded(m: seq<byte>, live: Extents, spaces: seq<Space>) {
    && |m| == RAM_BYTES
    && (forall i: nat :: i < |spaces| ==> Loaded(m, live, spaces[i]))
    && (forall i: nat, j: nat :: i < j < |spaces| ==> Apart(m, spaces[i], spaces[j]))
  }

  ghost predicate Apart(m: seq<byte>, s: Space, r: Space)
    requires |m| == RAM_BYTES
  {
    && WritableStarts(s) !! WritableStarts(r)
    && s.chunk / PAGE < FRAMES && r.chunk / PAGE < FRAMES
    && ChunkBlocks(m, s.chunk / PAGE) !! ChunkBlocks(m, r.chunk / PAGE)
    && WritableStarts(s) !! ChunkBlocks(m, r.chunk / PAGE) && WritableStarts(r) !! ChunkBlocks(m, s.chunk / PAGE)
  }

  /** No writable frame of one process is a writable frame of another, nor part of any process's page structure. */
  lemma Isolation(t: Table, m: seq<byte>, live: Extents, spaces: seq<Space>, i: nat, p: nat)
    requires Decodes(t, live) && AllLoaded(m, live, spaces)
    requires i < |spaces| && p < FRAMES && Writable(m, spaces[i].chunk / PAGE, p)
    ensures var f := View(m, spaces[i].chunk / PAGE)[p] / PAGE;
      && IsHeapFrame(f)
      && (forall j: nat, q: nat :: j < |spaces| && j != i && q < FRAMES && Writable(m, spaces[j].chunk / PAGE, q) ==>
            View(m, spaces[j].chunk / PAGE)[q] / PAGE != f)
      && (forall j: nat :: j < |spaces| ==> f - HEAP_FRAME !in ChunkBlocks(m, spaces[j].chunk / PAGE))
  {
    hide Word, FrameOf, Chunk, View, DirOf, Writable, Decodes, ChunkBlocks;
    var s := spaces[i];
    var f := View(m, s.chunk / PAGE)[p] / PAGE;
    WritableFrameOwned(m, live, s, p);
    var a := OwnerOf(s, p);
    forall j: nat, q: nat | j < |spaces| && j != i && q < FRAMES && Writable(m, spaces[j].chunk / PAGE, q)
      ensures View(m, spaces[j].chunk / PAGE)[q] / PAGE != f
    {
      WritableFrameOwned(m, live, spaces[j], q);
      var b := OwnerOf(spaces[j], q);
      assert Apart(m, spaces[if i < j then i else j], spaces[if i < j then j else i]);
      if View(m, spaces[j].chunk / PAGE)[q] / PAGE == f {
        ExtentsDisjoint(t, live, a, b, f - HEAP_FRAME);
      }
    }
    forall j: nat | j < |spaces| ensures f - HEAP_FRAME !in ChunkBlocks(m, spaces[j].chunk / PAGE) {
      ChunkHolds1026Blocks(m, live, spaces[j].chunk / PAGE);
      if j != i {
        assert Apart(m, spaces[if i < j then i else j], spaces[if i < j then j else i]);
      }
      if f - HEAP_FRAME in ChunkBlocks(m, spaces[j].chunk / PAGE) {
        assert Covers(live, f - HEAP_FRAME, f - HEAP_FRAME);
        ExtentsDisjoint(t, live, a, f - HEAP_FRAME, f - HEAP_FRAME);
      }
    }
  }

  /** The blocks of a loaded process are all live. */
  lemma SpaceIsLive(m: seq<byte>, live: Extents, s: Space, b: int)
    requires Loaded(m, live, s) && (b in WritableStarts(s) || b in ChunkBlocks(m, s.chunk / PAGE))
    ensures 0 <= b && b in live
  {
    hide Word, FrameOf, Chunk, View, DirOf, ChunkBlocks;
    ChunkHolds1026Blocks(m, live, s.chunk / PAGE);
  }

  /** All processes stay loaded and apart while only free blocks are written and taken. */
  lemma AllLoadedPreserved(m: seq<byte>, live: Extents, m': seq<byte>, live': Extents, spaces: seq<Space>)
    requires |m'| == RAM_BYTES && AllLoaded(m, live, spaces) && Grown(live, live') && Preserved(live, m, m')
    ensures AllLoaded(m', live', spaces)
  {
    hide Word, FrameOf, Chunk, View, DirOf, Preserved, Grown, Loaded, ChunkBlocks, WritableStarts;
    forall i: nat | i < |spaces| ensures Loaded(m', live', spaces[i]) {
      LoadedPreserved(m, live, m', live', spaces[i]);
    }
    forall i: nat, j: nat | i < j < |spaces| ensures Apart(m', spaces[i], spaces[j]) {
      assert Apart(m, spaces[i], spaces[j]);
      LoadedFacts(m, live, spaces[i]);
      LoadedFacts(m, live, spaces[j]);
      ChunkPreserved(m, live, m', live', spaces[i].chunk / PAGE);
      ChunkPreserved(m, live, m', live', spaces[j].chunk / PAGE);
    }
  }

  /** A process made only of new blocks joins the others. */
  lemma AllLoadedGrows(m: seq<byte>, live: Extents, m': seq<byte>, live': Extents, spaces: seq<Space>, s: Space)
    requires |m'| == RAM_BYTES && AllLoaded(m, live, spaces) && Grown(live, live') && Preserved(live, m, m')
    requires Loaded(m', live', s)
    requires forall b: nat | b in WritableStarts(s) || b in ChunkBlocks(m', s.chunk / PAGE) :: b !in live
    ensures AllLoaded(m', live', spaces + [s])
  {
    hide Word, FrameOf, Chunk, View, DirOf, Preserved, Grown, Loaded, ChunkBlocks, WritableStarts;
    AllLoadedPreserved(m, live, m', live', spaces);
    LoadedFacts(m', live', s);
    forall i: nat | i < |spaces| ensures Apart(m', spaces[i], s) {
      LoadedFacts(m, live, spaces[i]);
      ChunkPreserved(m, live, m', live', spaces[i].chunk / PAGE);
      forall b: int | b in WritableStarts(spaces[i]) || b in ChunkBlocks(m, spaces[i].chunk / PAGE)
        ensures 0 <= b && b in live {
        SpaceIsLive(m, live, spaces[i], b);
      }
    }
  }

  lemma LoadedFacts(m: seq<byte>, live: Extents, s: Space)
    requires Loaded(m, live, s)
    ensures |m| == RAM_BYTES && s.chunk / PAGE < FRAMES && Chunk(m, live, s.chunk / PAGE)
  {
  }

  // ---------------------------------------------------------------- with the kernel's own map

  /** The kernel's page structure maps every page to the frame of its number. */
  ghost predicate KernelMap(m: seq<byte>, live: Extents, kc: u32) {
    |m| == RAM_BYTES && kc % PAGE == 0 && kc / PAGE < FRAMES && Chunk(m, live, kc / PAGE)
      && IdentityFrames(m, kc / PAGE)
  }

  /** The kernel's page structure shares no block with a process. */
  ghost predicate KernelApart(m: seq<byte>, kc: u32, s: Space)
    requires |m| == RAM_BYTES && kc / PAGE < FRAMES
  {
    && s.chunk / PAGE < FRAMES && WritableStarts(s) !! ChunkBlocks(m, kc / PAGE)
    && ChunkBlocks(m, s.chunk / PAGE) !! ChunkBlocks(m, kc / PAGE)
  }

  /** All maps in use: the kernel's and those of the processes, none sharing a block. */
  ghost predicate MapsApart(m: seq<byte>, live: Extents, kc: u32, spaces: seq<Space>) {
    && KernelMap(m, live, kc) && AllLoaded(m, live, spaces)
    && forall i: nat :: i < |spaces| ==> KernelApart(m, kc, spaces[i])
  }

  lemma KernelMapPreserved(m: seq<byte>, live: Extents, m': seq<byte>, live': Extents, kc: u32)
    requires |m'| == RAM_BYTES && KernelMap(m, live, kc) && Grown(live, live') && Preserved(live, m, m')
    ensures KernelMap(m', live', kc) && ChunkBlocks(m', kc / PAGE) == ChunkBlocks(m, kc / PAGE)
  {
    hide Chunk, View, ChunkFrames, ChunkBlocks, Preserved, Grown;
    ChunkPreserved(m, live, m', live', kc / PAGE);
  }

  lemma MapsApartPreserved(m: seq<byte>, live: Extents, m': seq<byte>, live': Extents, kc: u32, spaces: seq<Space>)
    requires |m'| == RAM_BYTES && MapsApart(m, live, kc, spaces) && Grown(live, live') && Preserved(live, m, m')
    ensures MapsApart(m', live', kc, spaces)
  {
    assert |m| == RAM_BYTES && kc / PAGE < FRAMES;
    hide Preserved, Grown, Loaded, ChunkBlocks, WritableStarts, KernelMap, AllLoaded, Chunk;
    KernelMapPreserved(m, live, m', live', kc);
    AllLoadedPreserved(m, live, m', live', spaces);
    forall i: nat | i < |spaces| ensures KernelApart(m', kc, spaces[i]) {
      assert KernelApart(m, kc, spaces[i]);
      LoadedAt(m, live, spaces, i);
      ChunkPreserved(m, live, m', live', spaces[i].chunk / PAGE);
    }
  }

  lemma LoadedAt(m: seq<byte>, live: Extents, spaces: seq<Space>, i: nat)
    requires AllLoaded(m, live, spaces) && i < |spaces|
    ensures |m| == RAM_BYTES && spaces[i].chunk / PAGE < FRAMES && Chunk(m, live, spaces[i].chunk / PAGE)
  {
    hide Loaded;
    LoadedFacts(m, live, spaces[i]);
  }

  lemma KernelBlocksLive(m: seq<byte>, live: Extents, kc: u32, b: int)
    requires KernelMap(m, live, kc) && b in ChunkBlocks(m, kc / PAGE)
    ensures b >= 0 && b in live
  {
    hide Chunk, ChunkBlocks, View;
    ChunkHolds1026Blocks(m, live, kc / PAGE);
  }

  lemma MapsApartGrows(m: seq<byte>, live: Extents, m': seq<byte>, live': Extents, kc: u32, spaces: seq<Space>,
    s: Space)
    requires |m'| == RAM_BYTES && MapsApart(m, live, kc, spaces) && Grown(live, live') && Preserved(live, m, m')
    requires Loaded(m', live', s)
    requires forall b: nat | b in WritableStarts(s) || b in ChunkBlocks(m', s.chunk / PAGE) :: b !in live
    ensures MapsApart(m', live', kc, spaces + [s])
  {
    MapsApartPreserved(m, live, m', live', kc, spaces);
    LoadedFacts(m', live', s);
    hide Preserved, Grown, Loaded, ChunkBlocks, WritableStarts, KernelMap, AllLoaded, Chunk;
    AllLoadedGrows(m, live, m', live', spaces, s);
    KernelMapPreserved(m, live, m', live', kc);
    forall b: int | b in ChunkBlocks(m, kc / PAGE) ensures b >= 0 && b in live {
      KernelBlocksLive(m, live, kc, b);
    }
    assert KernelApart(m', kc, s);
  }

  /** No process can write to the kernel's page structure. */
  lemma KernelIsolation(t: Table, m: seq<byte>, live: Extents, kc: u32, spaces: seq<Space>, i: nat, p: nat)
    requires Decodes(t, live) && MapsApart(m, live, kc, spaces)
    requires i < |spaces| && spaces[i].chunk / PAGE < FRAMES && p < FRAMES && Writable(m, spaces[i].chunk / PAGE, p)
    ensures View(m, spaces[i].chunk / PAGE)[p] / PAGE - HEAP_FRAME !in ChunkBlocks(m, kc / PAGE)
  {
    hide Word, FrameOf, View, DirOf, Writable, Decodes, ChunkBlocks, Loaded, Chunk, IdentityFrames;
    var s := spaces[i];
    var f := View(m, s.chunk / PAGE)[p] / PAGE;
    WritableFrameOwned(m, live, s, p);
    assert KernelApart(m, kc, s);
    ChunkHolds1026Blocks(m, live, kc / PAGE);
    if f - HEAP_FRAME in ChunkBlocks(m, kc / PAGE) {
      assert Covers(live, f - HEAP_FRAME, f - HEAP_FRAME);
      ExtentsDisjoint(t, live, OwnerOf(s, p), f - HEAP_FRAME, f - HEAP_FRAME);
    }
  }
}
