/** `paging_new_4gb` and `paging_free_4gb`: 1026 one-block allocations taken and given back. */
module PagingChunks {
  import opened Words
  import opened HeapTable
  import opened HeapRuns
  import opened Heap
  import opened Kheap
  import opened PageTables
  import opened Paging

  // ---------------------------------------------------------------- blocks added one by one

  /** live is live0 and the one-block allocations fs, all new and all different. */
  ghost predicate Added(live0: Extents, live: Extents, fs: seq<nat>) {
    && Grown(live0, live) && AllSingle(live, fs) && Distinct(fs)
    && (forall i :: 0 <= i < |fs| ==> fs[i] - HEAP_FRAME !in live0)
    && (forall s | s in live :: s in live0 || s + HEAP_FRAME in fs)
  }

  lemma DistinctAppend(fs: seq<nat>, f: nat)
    requires Distinct(fs) && f !in fs
    ensures Distinct(fs + [f])
  {
  }

  lemma SingleAppend(live: Extents, fs: seq<nat>, f: nat)
    requires AllSingle(live, fs) && IsHeapFrame(f) && f - HEAP_FRAME !in live
    ensures AllSingle(live[f - HEAP_FRAME := 1], fs + [f]) && f !in fs
  {
    forall i | 0 <= i < |fs + [f]| ensures Single(live[f - HEAP_FRAME := 1], (fs + [f])[i]) {
      assert i < |fs| ==> Single(live, fs[i]);
    }
  }

  lemma AddOne(live0: Extents, live: Extents, fs: seq<nat>, f: nat)
    requires Added(live0, live, fs) && IsHeapFrame(f) && f - HEAP_FRAME !in live
    ensures Added(live0, live[f - HEAP_FRAME := 1], fs + [f])
  {
    SingleAppend(live, fs, f);
    DistinctAppend(fs, f);
    hide Distinct, AllSingle;
    var live', fs' := live[f - HEAP_FRAME := 1], fs + [f];
    forall s | s in live' ensures s in live0 || s + HEAP_FRAME in fs' {
      assert f in fs' && (s != f - HEAP_FRAME ==> s in live);
    }
  }

  lemma AddedSingle(live0: Extents, live: Extents, fs: seq<nat>)
    requires Added(live0, live, fs)
    ensures AllSingle(live, fs) && Distinct(fs) && Grown(live0, live)
  {
  }

  /** Taking the added blocks away again gives the allocations back exactly. */
  lemma RemoveAdded(live0: Extents, live: Extents, fs: seq<nat>)
    requires Added(live0, live, fs)
    ensures live - BlocksOf(fs) == live0
  {
    hide BlocksOf, AllSingle, Distinct;
    forall s: nat ensures s in live - BlocksOf(fs) <==> s in live0 {
      BlocksOfMember(fs, s);
      if s in live && s !in live0 {
        var i :| 0 <= i < |fs| && fs[i] == s + HEAP_FRAME;
      }
    }
  }

  // ---------------------------------------------------------------- paging_new_4gb

  /** A `kzalloc` of at most one page: some free block becomes a live one-block allocation. */
  method KzallocPage(k: Machine, size: u32) returns (p: u32)
    requires k.Valid() && 0 < size <= PAGE && FreeBlocks(k.heap.entries[..]) > 0
    modifies k.heap, k.heap.entries, k.ram
    ensures k.Valid() && k.heap.spill == old(k.heap.spill)
    ensures p % PAGE == 0 && IsHeapFrame(p / PAGE) && p / PAGE - HEAP_FRAME !in old(k.heap.live)
    ensures !Held(old(k.heap.live), p / PAGE) && p / PAGE == HEAP_FRAME + StartBlock(old(k.heap.entries[..]), 1)
    ensures k.heap.live == old(k.heap.live)[p / PAGE - HEAP_FRAME := 1]
    ensures FreeBlocks(k.heap.entries[..]) == FreeBlocks(old(k.heap.entries[..])) - 1
    ensures RoomLeft(old(k.heap.entries[..]), k.heap.entries[..], 1)
    ensures OnlyFrame(old(k.ram[..]), k.ram[..], p / PAGE)
    ensures Preserved(old(k.heap.live), old(k.ram[..]), k.ram[..])
  {
    hide FreeBlocks, Fits, LastTaken, Served, Decodes, RoomLeft, Preserved, Held, StartBlock;
    ghost var t, m := k.heap.entries[..], k.ram[..];
    OneBlockHonest(t, size);
    p := k.Kzalloc(size);
    PageServed(t, old(k.heap.live), k.heap.entries[..], k.heap.live, size, p);
    OnePageWritten(m, k.ram[..], p, size);
  }

  /** A request of at most a page is one block, served exactly when a block is free. */
  lemma OneBlockHonest(t: Table, size: u32)
    requires 0 < size <= PAGE
    ensures BlocksFor(size) == 1 && Honest(t, BlocksFor(size))
    ensures Fits(t, BlocksFor(size)) <==> FreeBlocks(t) > 0
  {
    BlocksForExact(size);
    OneBlockFits(t);
    if !LastTaken(t) {
      assert FreeRun(t, |t| - 1, 1);
    }
  }

  /** A served one-block request takes one free block that was held by nobody. */
  lemma PageServed(t: Table, live: Extents, t': Table, live': Extents, size: u32, p: u32)
    requires |t| == HEAP_BLOCKS && Decodes(t, live) && 0 < size <= PAGE && Served(t, live, t', live', size, p)
    ensures p % PAGE == 0 && IsHeapFrame(p / PAGE) && p / PAGE - HEAP_FRAME !in live && !Held(live, p / PAGE)
    ensures live' == live[p / PAGE - HEAP_FRAME := 1] && p / PAGE == HEAP_FRAME + StartBlock(t, 1)
    ensures FreeBlocks(t') == FreeBlocks(t) - 1 && RoomLeft(t, t', 1)
  {
    hide FreeBlocks, Decodes, RoomLeft, StartBlock;
    BlocksForExact(size);
    assert BlocksFor(size) == 1;
    var s := (p - HEAP_ADDRESS) / PAGE;
    assert FreeRun(t, s, 1) && p / PAGE == HEAP_FRAME + s;
    OneBlockTaken(t, s);
    FreeIsUncovered(t, live, s);
    RoomAfterMark(t, 1);
  }

  lemma OnePageWritten(m: seq<byte>, m': seq<byte>, p: u32, size: u32)
    requires |m| == |m'| == RAM_BYTES && p % PAGE == 0 && size <= PAGE
    requires forall a :: 0 <= a < RAM_BYTES ==> m'[a] == if p <= a < p + size then 0 else m[a]
    ensures OnlyFrame(m, m', p / PAGE)
  {
    forall g: nat | g != p / PAGE ensures SameFrame(m, m', g) {
      SameOutside(m, m', g, p, p + size);
    }
  }

  /** Table t holds its first n entries for consecutive pages from `offset` on; only t differs from m. */
  ghost predicate Filled(m: seq<byte>, m': seq<byte>, t: nat, offset: nat, flags: byte, n: nat) {
    && |m| == |m'| == RAM_BYTES && t < FRAMES && n <= ENTRIES && OnlyFrame(m, m', t)
    && forall b: nat :: b < n ==> Word(FrameOf(m', t), b) == offset + PAGE * b + flags
  }

  lemma FilledOneMore(m: seq<byte>, m': seq<byte>, m'': seq<byte>, t: nat, offset: nat, flags: byte, n: nat)
    requires n < ENTRIES && Filled(m, m', t, offset, flags, n) && 0 <= offset + PAGE * n + flags < RAM_BYTES
    requires |m''| == RAM_BYTES && WordWritten(m', m'', t, n, offset + PAGE * n + flags)
    ensures Filled(m, m'', t, offset, flags, n + 1)
  {
    hide Word, FrameOf, SameFrame;
    OnlyFrameTrans(m, m', m'', t);
  }

  /** The inner loop of `paging_new_4gb`. */
  method FillTable(k: Machine, t: nat, offset: u32, flags: byte)
    requires k.ram.Length == RAM_BYTES && t < FRAMES && offset % TABLE_SPAN == 0
    modifies k.ram
    ensures Filled(old(k.ram[..]), k.ram[..], t, offset, flags, ENTRIES)
  {
    hide Filled, WordWritten, Word, FrameOf, BitOr;
    var b := 0;
    ghost var m := k.ram[..];
    FilledNone(m, t, offset, flags);
    while b < ENTRIES
      invariant 0 <= b <= ENTRIES
      invariant Filled(m, k.ram[..], t, offset, flags, b)
    {
      ghost var m' := k.ram[..];
      OrFlags(offset + b * PAGE, 0, flags);
      StoreWord(k, t, b, BitOr(offset + b * PAGE, flags));
      FilledOneMore(m, m', k.ram[..], t, offset, flags, b);
      b := b + 1;
    }
  }

  lemma FilledNone(m: seq<byte>, t: nat, offset: nat, flags: byte)
    requires |m| == RAM_BYTES && t < FRAMES
    ensures Filled(m, m, t, offset, flags, 0)
  {
  }

  /** A new page in frame t; nothing that was in use differs. */
  ghost predicate NewPage(k: Machine, t0: Table, live0: Extents, t: nat)
    reads k, k.heap, k.heap.entries
  {
    && k.Valid() && IsHeapFrame(t) && !Held(live0, t) && t - HEAP_FRAME !in live0
    && k.heap.live == live0[t - HEAP_FRAME := 1] && FreeBlocks(k.heap.entries[..]) == FreeBlocks(t0) - 1
  }

  /** The new table of one round of the outer loop, filled. */
  method NewTable(k: Machine, offset: u32, flags: byte) returns (entry: u32)
    requires k.Valid() && FreeBlocks(k.heap.entries[..]) > 0 && offset % TABLE_SPAN == 0
    modifies k.heap, k.heap.entries, k.ram
    ensures entry % PAGE == 0 && NewPage(k, old(k.heap.entries[..]), old(k.heap.live), entry / PAGE)
    ensures k.heap.spill == old(k.heap.spill)
    ensures Filled(old(k.ram[..]), k.ram[..], entry / PAGE, offset, flags, ENTRIES)
  {
    hide Word, FrameOf, OnlyFrame, FreeBlocks, RoomLeft, Preserved;
    ghost var m := k.ram[..];
    entry := KzallocPage(k, 4 * ENTRIES);
    ghost var m1 := k.ram[..];
    FillTable(k, entry / PAGE, offset, flags);
    OnlyFrameTrans(m, m1, k.ram[..], entry / PAGE);
  }

  lemma TableEntered(m: seq<byte>, m': seq<byte>, m'': seq<byte>, d: nat, t: nat, i: nat, flags: byte, v: u32)
    requires t != d && d < FRAMES && i < ENTRIES && Filled(m, m', t, TABLE_SPAN * i, flags, ENTRIES)
    requires |m''| == RAM_BYTES && WordWritten(m', m'', d, i, v)
    ensures forall g: nat :: g != t && g != d ==> SameFrame(m, m'', g)
    ensures forall j: nat :: j < ENTRIES && j != i ==> Word(FrameOf(m'', d), j) == Word(FrameOf(m, d), j)
    ensures Word(FrameOf(m'', d), i) == v && HoldsIdentity(m'', t, i, flags)
  {
    hide Word, FrameOf;
    assert SameFrame(m, m', d) && SameFrame(m', m'', t);
    forall g: nat | g != t && g != d ensures SameFrame(m, m'', g) {
      assert SameFrame(m, m', g) && SameFrame(m', m'', g);
    }
  }

  /** One round of the outer loop: a table for directory slot i, entered in directory frame d. */
  method AddTable(k: Machine, d: nat, i: nat, offset: u32, flags: byte) returns (ghost t: nat)
    requires k.Valid() && Single(k.heap.live, d) && i < ENTRIES && offset == TABLE_SPAN * i
    requires FreeBlocks(k.heap.entries[..]) > 0
    modifies k.heap, k.heap.entries, k.ram
    ensures NewPage(k, old(k.heap.entries[..]), old(k.heap.live), t) && k.heap.spill == old(k.heap.spill)
    ensures forall g: nat :: g != t && g != d ==> SameFrame(old(k.ram[..]), k.ram[..], g)
    ensures forall j: nat :: j < ENTRIES && j != i ==>
        Word(FrameOf(k.ram[..], d), j) == Word(FrameOf(old(k.ram[..]), d), j)
    ensures BitOr(flags, WRITEABLE) < PAGE && Word(FrameOf(k.ram[..], d), i) == PAGE * t + BitOr(flags, WRITEABLE)
    ensures HoldsIdentity(k.ram[..], t, i, flags)
  {
    hide Word, FrameOf, Filled, WordWritten, HoldsIdentity, BitOr, FreeBlocks, Held;
    ghost var m := k.ram[..];
    var entry := NewTable(k, offset, flags);
    t := entry / PAGE;
    ghost var m' := k.ram[..];
    OrFlags(entry, 0, flags);
    OrFlags(entry, flags, WRITEABLE);
    StoreWord(k, d, i, BitOr(BitOr(entry, flags), WRITEABLE));
    TableEntered(m, m', k.ram[..], d, t, i, flags, PAGE * t + BitOr(flags, WRITEABLE));
  }

  /** The state after i rounds of the outer loop: i tables entered, each with its 1024 identity entries. */
  ghost predicate Built(m: seq<byte>, live0: Extents, live: Extents, d: nat, tabs: seq<nat>, flags: byte) {
    && |m| == RAM_BYTES && |tabs| <= ENTRIES && IsHeapFrame(d) && BitOr(flags, WRITEABLE) < PAGE
    && Added(live0, live, [d] + tabs)
    && (forall j: nat :: j < |tabs| ==> Word(FrameOf(m, d), j) == PAGE * tabs[j] + BitOr(flags, WRITEABLE))
    && (forall j: nat :: j < |tabs| ==> HoldsIdentity(m, tabs[j], j, flags))
  }

  /** Table frame t maps the 1024 pages of directory slot j to themselves. */
  ghost predicate HoldsIdentity(m: seq<byte>, t: nat, j: nat, flags: byte) {
    |m| == RAM_BYTES && t < FRAMES && forall b: nat :: b < ENTRIES ==>
      Word(FrameOf(m, t), b) == PAGE * (ENTRIES * j + b) + flags
  }

  lemma BuiltStart(m: seq<byte>, live0: Extents, d: nat, flags: byte)
    requires |m| == RAM_BYTES && IsHeapFrame(d) && d - HEAP_FRAME !in live0
    ensures Built(m, live0, live0[d - HEAP_FRAME := 1], d, [], flags)
  {
    OrFlags(0, flags, WRITEABLE);
    AddOne(live0, live0, [], d);
    assert [] + [d] == [d] + [];
  }

  lemma BuiltGrown(m: seq<byte>, live0: Extents, live: Extents, d: nat, tabs: seq<nat>, flags: byte)
    requires Built(m, live0, live, d, tabs, flags)
    ensures Grown(live0, live) && Single(live, d) && d < FRAMES
  {
    AddedSingle(live0, live, [d] + tabs);
    assert Single(live, ([d] + tabs)[0]);
  }

  lemma BuiltOneMore(m: seq<byte>, m': seq<byte>, live0: Extents, live: Extents, d: nat, tabs: seq<nat>, flags: byte,
                     t: nat)
    requires |m'| == RAM_BYTES && |tabs| < ENTRIES && Built(m, live0, live, d, tabs, flags)
    requires IsHeapFrame(t) && t - HEAP_FRAME !in live
    requires forall g: nat :: g != t && g != d ==> SameFrame(m, m', g)
    requires forall j: nat :: j < ENTRIES && j != |tabs| ==> Word(FrameOf(m', d), j) == Word(FrameOf(m, d), j)
    requires Word(FrameOf(m', d), |tabs|) == PAGE * t + BitOr(flags, WRITEABLE)
    requires HoldsIdentity(m', t, |tabs|, flags)
    ensures Built(m', live0, live[t - HEAP_FRAME := 1], d, tabs + [t], flags)
  {
    hide Word, FrameOf, Added;
    AddOne(live0, live, [d] + tabs, t);
    AddedSingle(live0, live, [d] + tabs);
    assert [d] + tabs + [t] == [d] + (tabs + [t]);
    forall j: nat | j < |tabs| ensures HoldsIdentity(m', tabs[j], j, flags) {
      assert Single(live, ([d] + tabs)[j + 1]) && ([d] + tabs)[j + 1] != ([d] + tabs)[0];
      assert SameFrame(m, m', tabs[j]);
    }
  }

  lemma BuiltFrames(m: seq<byte>, live0: Extents, live: Extents, d: nat, tabs: seq<nat>, flags: byte, c: nat)
    requires |tabs| == ENTRIES && Built(m, live0, live, d, tabs, flags)
    requires IsHeapFrame(c) && c - HEAP_FRAME !in live
    ensures var live' := live[c - HEAP_FRAME := 1];
      && Added(live0, live', [d] + tabs + [c]) && Single(live', c) && Single(live', d) && c != d
      && (forall i: nat :: i < ENTRIES ==> Single(live', tabs[i]) && tabs[i] != d && tabs[i] != c)
      && (forall i: nat, j: nat :: i < j < ENTRIES ==> tabs[i] != tabs[j])
  {
    hide Word, FrameOf, Added;
    var live', fs := live[c - HEAP_FRAME := 1], [d] + tabs + [c];
    AddOne(live0, live, [d] + tabs, c);
    AddedSingle(live0, live', fs);
    assert Single(live', fs[0]) && Single(live', fs[ENTRIES + 1]) && fs[0] != fs[ENTRIES + 1];
    forall i: nat | i < ENTRIES ensures Single(live', tabs[i]) && tabs[i] != d && tabs[i] != c {
      assert Single(live', fs[i + 1]) && fs[0] != fs[i + 1] && fs[i + 1] != fs[ENTRIES + 1];
    }
    forall i: nat, j: nat | i < j < ENTRIES ensures tabs[i] != tabs[j] {
      assert fs[i + 1] != fs[j + 1];
    }
  }

  /** What a freshly built structure is: a chunk whose flat map is the identity with the given flags. */
  lemma BuiltIsChunk(m: seq<byte>, m': seq<byte>, live0: Extents, live: Extents, d: nat, tabs: seq<nat>, flags: byte,
                     c: nat)
    requires |m'| == RAM_BYTES && |tabs| == ENTRIES && Built(m, live0, live, d, tabs, flags)
    requires IsHeapFrame(c) && c - HEAP_FRAME !in live
    requires OnlyFrame(m, m', c)
    requires Word(FrameOf(m', c), 0) == PAGE * d
    ensures Chunk(m', live[c - HEAP_FRAME := 1], c) && DirOf(m', c) == d
    ensures ChunkFrames(m', c) == [d] + tabs + [c]
    ensures Added(live0, live[c - HEAP_FRAME := 1], ChunkFrames(m', c))
    ensures forall p: nat :: p < FRAMES ==> View(m', c)[p] == PAGE * p + flags
    ensures forall i: nat :: i < ENTRIES ==> Word(FrameOf(m', d), i) % PAGE == BitOr(flags, WRITEABLE)
  {
    hide Word, FrameOf, Added;
    BuiltFrames(m, live0, live, d, tabs, flags, c);
    assert SameFrame(m, m', d);
    forall i: nat | i < ENTRIES
      ensures Tab(m', d, i) == tabs[i] && Word(FrameOf(m', d), i) % PAGE == BitOr(flags, WRITEABLE)
    {
    }
    assert ChunkFrames(m', c) == [d] + tabs + [c];
    forall p: nat | p < FRAMES ensures PageEntry(m', d, p) == PAGE * p + flags {
      assert SameFrame(m, m', tabs[p / ENTRIES]);
      assert p == ENTRIES * (p / ENTRIES) + p % ENTRIES;
    }
  }

  /** The outer loop of `paging_new_4gb`: all 1024 tables, entered in directory frame d. */
  method BuildTables(k: Machine, d: nat, flags: byte, ghost live0: Extents, ghost m0: seq<byte>)
    returns (ghost tabs: seq<nat>)
    requires k.Valid() && |m0| == RAM_BYTES && FreeBlocks(k.heap.entries[..]) >= 1025
    requires Built(k.ram[..], live0, k.heap.live, d, [], flags) && !Held(live0, d) && Preserved(live0, m0, k.ram[..])
    modifies k.heap, k.heap.entries, k.ram
    ensures k.Valid() && k.heap.spill == old(k.heap.spill)
    ensures FreeBlocks(k.heap.entries[..]) == FreeBlocks(old(k.heap.entries[..])) - 1024
    ensures |tabs| == ENTRIES && Built(k.ram[..], live0, k.heap.live, d, tabs, flags)
    ensures Preserved(live0, m0, k.ram[..])
  {
    hide Word, FrameOf, Chunk, View, Built, Added, ChunkFrames, DirOf, FreeBlocks, Preserved, Held, HoldsIdentity;
    tabs := [];
    var i, offset: u32 := 0, 0;
    while i < ENTRIES
      invariant 0 <= i <= ENTRIES && |tabs| == i && (i < ENTRIES ==> offset == TABLE_SPAN * i)
      invariant k.Valid() && k.heap.spill == old(k.heap.spill)
      invariant FreeBlocks(k.heap.entries[..]) == FreeBlocks(old(k.heap.entries[..])) - i
      invariant Built(k.ram[..], live0, k.heap.live, d, tabs, flags)
      invariant Preserved(live0, m0, k.ram[..])
    {
      ghost var live, m := k.heap.live, k.ram[..];
      BuiltGrown(m, live0, live, d, tabs, flags);
      ghost var t := AddTable(k, d, i, offset, flags);
      BuiltOneMore(m, k.ram[..], live0, live, d, tabs, flags, t);
      NotHeldBefore(live0, live, t);
      PreservedByNew(live0, live, m0, m, k.ram[..], d, t);
      tabs := tabs + [t];
      offset := (offset + ENTRIES * PAGE) % RAM_BYTES;
      i := i + 1;
    }
  }

  /**
   `paging_new_4gb`: an identity map of all 2^20 pages with the given flags, behind a directory whose entries are
   writeable in addition. It takes exactly 1026 blocks and disturbs no held frame. The source does not test its
   allocations, so the blocks must be there.
   */
  method New4gb(k: Machine, flags: byte) returns (p: u32)
    requires k.Valid() && FreeBlocks(k.heap.entries[..]) >= 1026
    modifies k.heap, k.heap.entries, k.ram
    ensures k.Valid() && k.heap.spill == old(k.heap.spill)
    ensures p % PAGE == 0 && Chunk(k.ram[..], k.heap.live, p / PAGE)
    ensures forall q: nat :: q < FRAMES ==> View(k.ram[..], p / PAGE)[q] == PAGE * q + flags
    ensures forall i: nat :: i < ENTRIES ==>
      Word(FrameOf(k.ram[..], DirOf(k.ram[..], p / PAGE)), i) % PAGE == BitOr(flags, WRITEABLE)
    ensures Added(old(k.heap.live), k.heap.live, ChunkFrames(k.ram[..], p / PAGE))
    ensures FreeBlocks(k.heap.entries[..]) == FreeBlocks(old(k.heap.entries[..])) - 1026
    ensures Preserved(old(k.heap.live), old(k.ram[..]), k.ram[..])
  {
    hide Word, FrameOf, Chunk, View, Built, Added, ChunkFrames, DirOf, FreeBlocks, Preserved, Held;
    ghost var live0, m0 := k.heap.live, k.ram[..];
    var directory := KzallocPage(k, 4 * ENTRIES);
    BuiltStart(k.ram[..], live0, directory / PAGE, flags);
    ghost var tabs := BuildTables(k, directory / PAGE, flags, live0, m0);
    ghost var live, m := k.heap.live, k.ram[..];
    BuiltGrown(m, live0, live, directory / PAGE, tabs, flags);
    p := KzallocPage(k, 4);
    ghost var m' := k.ram[..];
    StoreWord(k, p / PAGE, 0, directory);
    OnlyFrameTrans(m, m', k.ram[..], p / PAGE);
    BuiltIsChunk(m, k.ram[..], live0, live, directory / PAGE, tabs, flags, p / PAGE);
    NotHeldBefore(live0, live, p / PAGE);
    PreservedByNew(live0, live, m0, m, k.ram[..], p / PAGE, p / PAGE);
  }

  lemma NotHeldBefore(live0: Extents, live: Extents, f: nat)
    requires Grown(live0, live) && !Held(live, f)
    ensures !Held(live0, f)
  {
    if Held(live0, f) {
      GrownKeepsHeld(live0, live, f);
    }
  }

  /** Changes to frames that were not live at the start keep the frames held then. */
  lemma PreservedByNew(live0: Extents, live: Extents, m0: seq<byte>, m: seq<byte>, m': seq<byte>, d: nat, t: nat)
    requires |m0| == |m| == |m'| == RAM_BYTES
    requires !Held(live0, d) && !Held(live0, t)
    requires Preserved(live0, m0, m)
    requires forall g: nat :: g != t && g != d ==> SameFrame(m, m', g)
    ensures Preserved(live0, m0, m')
  {
    forall f: nat | f < FRAMES && Held(live0, f) ensures SameFrame(m0, m', f) {
      assert SameFrame(m0, m, f) && SameFrame(m, m', f);
    }
  }

  // ---------------------------------------------------------------- paging_free_4gb

  /** In a list without repetition, a frame outside a stretch is not among the blocks of the stretch. */
  lemma Elsewhere(fs: seq<nat>, lo: nat, hi: nat, i: nat)
    requires Distinct(fs) && lo <= hi <= |fs| && i < |fs| && !(lo <= i < hi)
    ensures fs[i] - HEAP_FRAME !in BlocksOf(fs[lo..hi])
  {
    BlocksOfMember(fs[lo..hi], fs[i] - HEAP_FRAME);
    forall j | 0 <= j < hi - lo ensures fs[lo..hi][j] != fs[i] {
      assert fs[lo..hi][j] == fs[lo + j];
    }
  }

  lemma EndsAndMiddle(fs: seq<nat>)
    requires |fs| >= 2
    ensures BlocksOf(fs) == BlocksOf(fs[1..|fs| - 1]) + {fs[0] - HEAP_FRAME, fs[|fs| - 1] - HEAP_FRAME}
  {
    hide BlocksOf;
    var mid, last := fs[1..|fs| - 1], fs[|fs| - 1];
    assert fs == [fs[0]] + mid + [last];
    BlocksOfConcat([fs[0]] + mid, [last]);
    BlocksOfConcat([fs[0]], mid);
    BlocksOfOne(fs[0]);
    BlocksOfOne(last);
  }

  /** One more block taken from what is left of live after a stretch of the list is gone. */
  lemma NextGone(live: Extents, fs: seq<nat>, i: nat)
    requires 1 <= i < |fs|
    ensures live - BlocksOf(fs[1..i]) - {fs[i] - HEAP_FRAME} == live - BlocksOf(fs[1..i + 1])
  {
    hide BlocksOf;
    assert fs[1..i + 1] == fs[1..i] + [fs[i]];
    BlocksOfConcat(fs[1..i], [fs[i]]);
    BlocksOfOne(fs[i]);
  }

  lemma NoneGone(live: Extents, fs: seq<nat>)
    requires |fs| >= 1
    ensures live - BlocksOf(fs[1..1]) == live
  {
  }

  lemma RestGone(live: Extents, fs: seq<nat>)
    requires |fs| >= 2
    ensures live - BlocksOf(fs[1..|fs| - 1]) - {fs[0] - HEAP_FRAME} - {fs[|fs| - 1] - HEAP_FRAME} == live - BlocksOf(fs)
  {
    hide BlocksOf;
    EndsAndMiddle(fs);
  }

  lemma ChunkFramesAre(m: seq<byte>, live: Extents, c: nat)
    requires Chunk(m, live, c)
    ensures c < FRAMES && DirOf(m, c) < FRAMES && Word(FrameOf(m, c), 0) == PAGE * DirOf(m, c)
    ensures var fs := ChunkFrames(m, c);
      && Distinct(fs) && AllSingle(live, fs) && fs[0] == DirOf(m, c) && fs[ENTRIES + 1] == c
      && forall i: nat :: i < ENTRIES ==> fs[i + 1] == Tab(m, DirOf(m, c), i)
  {
  }

  /** The loop of `paging_free_4gb` over the directory. */
  method FreeTables(k: Machine, d: nat, ghost fs: seq<nat>)
    requires k.Valid() && d < FRAMES && |fs| == ENTRIES + 2 && Distinct(fs) && AllSingle(k.heap.live, fs)
    requires forall i: nat :: i < ENTRIES ==> fs[i + 1] == Tab(k.ram[..], d, i)
    modifies k.heap`live, k.heap.entries
    ensures k.Valid() && k.heap.live == old(k.heap.live) - BlocksOf(fs[1..ENTRIES + 1])
  {
    hide Tab, BlocksOf, Cleared, Distinct;
    ghost var live := k.heap.live;
    NoneGone(live, fs);
    var i := 0;
    while i < ENTRIES
      invariant 0 <= i <= ENTRIES && k.Valid()
      invariant k.heap.live == live - BlocksOf(fs[1..i + 1])
    {
      var table := TableAt(k, d, i);
      Elsewhere(fs, 1, i + 1, i + 1);
      assert Single(live, fs[i + 1]);
      k.Kfree(table * PAGE);
      NextGone(live, fs, i + 1);
      i := i + 1;
    }
  }

  /** The two last calls of `paging_free_4gb`, on the first and last frame of a list whose others are gone. */
  method FreeEnds(k: Machine, first: u32, last: u32, ghost live: Extents, ghost fs: seq<nat>)
    requires k.Valid() && |fs| >= 2 && Distinct(fs) && AllSingle(live, fs)
    requires first % PAGE == 0 && first / PAGE == fs[0] && last % PAGE == 0 && last / PAGE == fs[|fs| - 1]
    requires k.heap.live == live - BlocksOf(fs[1..|fs| - 1])
    modifies k.heap`live, k.heap.entries
    ensures k.Valid() && k.heap.live == live - BlocksOf(fs)
  {
    hide BlocksOf, Cleared, Distinct;
    Elsewhere(fs, 1, |fs| - 1, 0);
    Elsewhere(fs, 1, |fs| - 1, |fs| - 1);
    assert Single(live, fs[0]) && Single(live, fs[|fs| - 1]);
    DistinctEnds(fs);
    FrameBlock(fs[0]);
    FrameBlock(fs[|fs| - 1]);
    k.Kfree(first);
    k.Kfree(last);
    RestGone(live, fs);
  }

  /** `paging_free_4gb`: exactly the blocks of the chunk are given back; memory itself is not touched. */
  method Free4gb(k: Machine, p: u32)
    requires k.Valid() && p % PAGE == 0 && Chunk(k.ram[..], k.heap.live, p / PAGE)
    modifies k.heap`live, k.heap.entries
    ensures k.Valid()
    ensures k.heap.live == old(k.heap.live) - ChunkBlocks(k.ram[..], p / PAGE)
  {
    hide Word, FrameOf, Chunk, DirOf, Tab, ChunkFrames, BlocksOf, Cleared, Distinct, AllSingle;
    ghost var live, fs := k.heap.live, ChunkFrames(k.ram[..], p / PAGE);
    ChunkFramesAre(k.ram[..], live, p / PAGE);
    var directory := LoadWord(k, p / PAGE, 0);
    FreeTables(k, directory / PAGE, fs);
    FreeEnds(k, directory, p, live, fs);
  }

  lemma DistinctEnds(fs: seq<nat>)
    requires Distinct(fs) && |fs| >= 2
    ensures fs[0] != fs[|fs| - 1]
  {
  }

  // ---------------------------------------------------------------- whole lives of a structure

  datatype Edit =
    | SetEdit(virt: u32, val: u32)
    | MapEdit(virt: u32, phys: u32, flags: u32)
    | RangeEdit(virt: u32, phys: u32, count: int, flags: u32)
    | ToEdit(virt: u32, phys: u32, physEnd: u32, flags: u32)

  /** What an edit does to a flat map of 2^20 entries; an edit with an unaligned address is refused. */
  function EditFlat(v: seq<u32>, e: Edit): (r: seq<u32>)
    requires |v| == FRAMES
    ensures |r| == FRAMES
  {
    if e.virt % PAGE != 0 then v
    else
      match e
      case SetEdit(virt, val) => v[virt / PAGE := val]
      case MapEdit(virt, phys, flags) => if phys % PAGE != 0 then v else v[virt / PAGE := Or32(phys, flags)]
      case RangeEdit(virt, phys, count, flags) =>
        if count <= 0 || phys % PAGE != 0 then v else MapFlat(v, virt / PAGE, phys, count, flags)
      case ToEdit(virt, phys, physEnd, flags) =>
        if phys % PAGE != 0 || physEnd % PAGE != 0 || physEnd < phys then v
        else MapFlat(v, virt / PAGE, phys, (physEnd - phys) / PAGE, flags)
  }

  /** Every page on the frame of the same number. */
  function IdentityMap(flags: byte): (v: seq<u32>)
    ensures |v| == FRAMES
  {
    seq(FRAMES, q requires 0 <= q < FRAMES => (PAGE * q + flags) % RAM_BYTES)
  }

  function EditsFlat(v: seq<u32>, es: seq<Edit>): (r: seq<u32>)
    requires |v| == FRAMES
    ensures |r| == FRAMES
  {
    if es == [] then v else EditFlat(EditsFlat(v, es[..|es| - 1]), es[|es| - 1])
  }

  /** `paging_set` on the directory of a chunk. */
  method SetThrough(k: Machine, c: nat, virt: u32, val: u32)
    requires k.Valid() && Chunk(k.ram[..], k.heap.live, c)
    modifies k.ram
    ensures Remapped(k, old(k.ram[..]), c,
              if virt % PAGE == 0 then View(old(k.ram[..]), c)[virt / PAGE := val] else View(old(k.ram[..]), c))
  {
    hide Word, FrameOf;
    ghost var m := k.ram[..];
    RemappedStart(k, c);
    ChunkFramesAre(m, k.heap.live, c);
    var word := LoadWord(k, c, 0);
    var _ := Set(k, word / PAGE, virt, val);
    if virt % PAGE == 0 {
      ChunkAfterEntry(m, k.heap.live, k.ram[..], c, virt / PAGE, val);
    }
  }

  method Apply(k: Machine, c: nat, e: Edit)
    requires k.Valid() && Chunk(k.ram[..], k.heap.live, c)
    modifies k.ram
    ensures Remapped(k, old(k.ram[..]), c, EditFlat(View(old(k.ram[..]), c), e))
  {
    hide Word, FrameOf, Chunk, View, DirOf, ChunkFrames, OnlyTables, MapFlat;
    match e
    case SetEdit(virt, val) =>
      SetThrough(k, c, virt, val);
    case MapEdit(virt, phys, flags) =>
      var _ := Map(k, c, virt, phys, flags);
    case RangeEdit(virt, phys, count, flags) =>
      var _ := MapRange(k, c, virt, phys, count, flags);
    case ToEdit(virt, phys, physEnd, flags) =>
      var _ := MapTo(k, c, virt, phys, physEnd, flags);
  }

  method RunEdits(k: Machine, c: nat, edits: seq<Edit>)
    requires k.Valid() && Chunk(k.ram[..], k.heap.live, c)
    modifies k.ram
    ensures Remapped(k, old(k.ram[..]), c, EditsFlat(View(old(k.ram[..]), c), edits))
  {
    hide Word, FrameOf, Chunk, DirOf, Tab, ChunkFrames, OnlyTables, Flat, EditFlat, View;
    ghost var m1 := k.ram[..];
    RemappedStart(k, c);
    var i := 0;
    while i < |edits|
      invariant 0 <= i <= |edits|
      invariant Remapped(k, m1, c, EditsFlat(View(m1, c), edits[..i]))
    {
      ghost var m' := k.ram[..];
      Apply(k, c, edits[i]);
      RemappedTrans(m1, k, c, m');
      assert edits[..i + 1][..i] == edits[..i];
      i := i + 1;
    }
    assert edits[..|edits|] == edits;
  }

  /**
   A whole life: build, any edits whatever, free. Before the structure is freed its map is the identity with the
   edits applied one after another; afterwards the heap table is, byte for byte, what it was, and no frame that was
   held at the start has changed.
   */
  method BuildEditFree(k: Machine, flags: byte, edits: seq<Edit>) returns (ghost view: seq<u32>)
    requires k.Valid() && FreeBlocks(k.heap.entries[..]) >= 1026
    modifies k.heap, k.heap.entries, k.ram
    ensures k.Valid() && k.heap.entries[..] == old(k.heap.entries[..]) && k.heap.spill == old(k.heap.spill)
    ensures view == EditsFlat(IdentityMap(flags), edits)
    ensures Preserved(old(k.heap.live), old(k.ram[..]), k.ram[..])
  {
    hide Word, FrameOf, Chunk, DirOf, Tab, ChunkFrames, OnlyTables, Added, FreeBlocks, Flat, EditFlat, View;
    ghost var live0, m0, t0 := k.heap.live, k.ram[..], k.heap.entries[..];
    var p := New4gb(k, flags);
    ghost var m1, live, t1, c := k.ram[..], k.heap.live, k.heap.entries[..], p / PAGE;
    ghost var start := View(m1, c);
    ChunkFramesAre(m1, live, c);
    RunEdits(k, p / PAGE, edits);
    view := View(k.ram[..], c);
    IsIdentityMap(start, flags);
    TablesWereFree(t1, live0, live, m0, m1, k.ram[..], c);
    Free4gb(k, p);
    RemoveAdded(live0, live, ChunkFrames(m1, c));
    EncodeUnique(t0, k.heap.entries[..], live0);
  }

  lemma IsIdentityMap(v: seq<u32>, flags: byte)
    requires |v| == FRAMES && forall q: nat :: q < FRAMES ==> v[q] == PAGE * q + flags
    ensures v == IdentityMap(flags)
  {
  }

  lemma TablesWereFree(t: Table, live0: Extents, live: Extents, m0: seq<byte>, m: seq<byte>, m': seq<byte>, c: nat)
    requires |m0| == |m| == |m'| == RAM_BYTES && Chunk(m, live, c) && Decodes(t, live)
    requires Added(live0, live, ChunkFrames(m, c)) && Preserved(live0, m0, m) && OnlyTables(m, m', c)
    ensures Preserved(live0, m0, m')
  {
    hide Word, FrameOf, Decodes;
    forall f: nat | f < FRAMES && Held(live0, f) ensures SameFrame(m0, m', f) {
      assert SameFrame(m0, m, f);
      forall i: nat | i < ENTRIES ensures Tab(m, DirOf(m, c), i) != f {
        AddedNotHeld(t, live0, live, ChunkFrames(m, c), i + 1);
      }
      assert SameFrame(m, m', f);
    }
  }

  lemma AddedNotHeld(t: Table, live0: Extents, live: Extents, fs: seq<nat>, i: nat)
    requires Decodes(t, live) && Added(live0, live, fs) && i < |fs|
    ensures !Held(live0, fs[i])
  {
    var b := fs[i] - HEAP_FRAME;
    assert Single(live, fs[i]);
    if Held(live0, fs[i]) {
      var s: nat :| Covers(live0, s, b);
      assert Covers(live, s, b) && Covers(live, b, b);
      ExtentsDisjoint(t, live, s, b, b);
    }
  }
}
