/** From an empty heap to a valid kernel: the disk is mounted, and the kernel's own page structure built. */
module Boot {
  import opened Words
  import opened HeapTable
  import opened HeapRuns
  import opened Heap
  import opened Kheap
  import opened PageTables
  import opened PagingChunks
  import opened AddressSpace
  import opened DiskStream
  import opened FatChain
  import opened FatExact
  import opened FatRead
  import opened FatDirectory
  import opened PathParser
  import opened Files
  import opened Tasks
  import opened Processes
  import opened KernelState

  const EFSNOTUS := 5
  const SIGNATURE: byte := 0x29
  const KERNEL_FLAGS: byte := 7

  /** The blocks for `struct fat_private`, its three streams, and the stream that reads the header, in that order. */
  method TakeStreams(k: Machine) returns (privateAddr: u32, streamAddr: u32, ghost fs: seq<nat>)
    requires k.Valid() && FreeBlocks(k.heap.entries[..]) >= 5
    modifies k.heap, k.heap.entries, k.ram
    ensures k.heap.spill == old(k.heap.spill) && privateAddr % PAGE == streamAddr % PAGE == 0
    ensures |fs| == 5 && fs[0] == privateAddr / PAGE && fs[4] == streamAddr / PAGE
    ensures Took(k, old(k.heap.live), old(k.heap.entries[..]), old(k.ram[..]), fs)
  {
    hide Added, FreeBlocks, RoomLeft, Preserved;
    ghost var live0, t0, m0 := k.heap.live, k.heap.entries[..], k.ram[..];
    TookNothing(k);
    privateAddr := TakePage(k, 256, live0, t0, m0, []);
    fs := [] + [privateAddr / PAGE];
    var i := 0;
    while i < 3
      invariant 0 <= i <= 3 && |fs| == i + 1 && fs[0] == privateAddr / PAGE
      invariant Took(k, live0, t0, m0, fs) && k.heap.spill == old(k.heap.spill)
    {
      var addr := TakePage(k, 8, live0, t0, m0, fs);
      fs := fs + [addr / PAGE];
      i := i + 1;
    }
    streamAddr := TakePage(k, 8, live0, t0, m0, fs);
    fs := fs + [streamAddr / PAGE];
  }

  /** A page taken before is given back. */
  method GiveBack(k: Machine, p: u32)
    requires k.Valid() && p % PAGE == 0 && Single(k.heap.live, p / PAGE)
    modifies k.heap`live, k.heap.entries
    ensures k.Valid() && k.heap.live == old(k.heap.live) - {p / PAGE - HEAP_FRAME}
  {
    FrameBlock(p / PAGE);
    k.Kfree(p);
  }

  /** The first and the last of five blocks taken are live, and different. */
  lemma EndsLive(live0: Extents, live: Extents, fs: seq<nat>)
    requires Added(live0, live, fs) && |fs| == 5
    ensures Single(live, fs[4]) && Single(live - {fs[4] - HEAP_FRAME}, fs[0]) && fs[0] != fs[4]
    ensures fs[0] - HEAP_FRAME !in live0 && fs[4] - HEAP_FRAME !in live0 && Grown(live0, live)
    ensures {fs[4] - HEAP_FRAME, fs[0] - HEAP_FRAME} <= BlocksOf(fs)
  {
    BlocksOfMember(fs, fs[0] - HEAP_FRAME);
    BlocksOfMember(fs, fs[4] - HEAP_FRAME);
    hide BlocksOf;
    assert Single(live, fs[0]) && Single(live, fs[4]);
  }

  /** Both given back, the other three are lost. */
  lemma ThreeLost(live0: Extents, live: Extents, fs: seq<nat>, live': Extents)
    requires Added(live0, live, fs) && |fs| == 5 && live' == live - {fs[4] - HEAP_FRAME} - {fs[0] - HEAP_FRAME}
    ensures var lost := BlocksOf(fs) - {fs[4] - HEAP_FRAME, fs[0] - HEAP_FRAME};
      |lost| == 3 && lost !! live0.Keys && live'.Keys == live0.Keys + lost && Grown(live0, live')
  {
    hide BlocksOf, Added, Single, Grown;
    AddedKeys(live0, live, fs);
    EndsLive(live0, live, fs);
    TwoOfFiveGone(live0, live, BlocksOf(fs), fs[4] - HEAP_FRAME, fs[0] - HEAP_FRAME);
  }

  lemma TwoOfFiveGone(live0: Extents, live: Extents, bs: set<int>, a: int, b: int)
    requires live.Keys == live0.Keys + bs && bs !! live0.Keys && |bs| == 5 && a in bs && b in bs && a != b
    requires Grown(live0, live)
    ensures |bs - {a, b}| == 3 && bs - {a, b} !! live0.Keys
    ensures (live - {a} - {b}).Keys == live0.Keys + (bs - {a, b}) && Grown(live0, live - {a} - {b})
  {
    hide Grown;
    TwoGone(live, a, b);
    KeysLeft(live0, live, bs, {a, b});
    GrownWithout(live0, live, {a, b});
  }

  lemma TwoGone(live: Extents, a: int, b: int)
    ensures live - {a} - {b} == live - {a, b}
  {
  }

  lemma GrownWithout(live0: Extents, live: Extents, gone: set<int>)
    requires Grown(live0, live) && forall b | b in gone :: b !in live0.Keys
    ensures Grown(live0, live - gone)
  {
  }

  /** The way out of a failure: the header stream is closed and `fat_private` freed, but not its streams. */
  method CloseAndFree(k: Machine, streamAddr: u32, privateAddr: u32, ghost live0: Extents, ghost fs: seq<nat>)
    returns (ghost lost: set<int>)
    requires k.Valid() && Added(live0, k.heap.live, fs) && |fs| == 5
    requires privateAddr % PAGE == streamAddr % PAGE == 0 && fs[0] == privateAddr / PAGE && fs[4] == streamAddr / PAGE
    modifies k.heap`live, k.heap.entries
    ensures k.Valid() && Grown(live0, k.heap.live)
    ensures |lost| == 3 && lost !! live0.Keys && k.heap.live.Keys == live0.Keys + lost
  {
    hide Added, BlocksOf, Grown, Decodes, Single;
    ghost var live := k.heap.live;
    EndsLive(live0, live, fs);
    lost := BlocksOf(fs) - {fs[4] - HEAP_FRAME, fs[0] - HEAP_FRAME};
    GiveBack(k, streamAddr);
    GiveBack(k, privateAddr);
    ThreeLost(live0, live, fs, k.heap.live);
  }

  /** What mounting asks of the disk: an end marker in slot n, and visited slots that end their names. */
  ghost predicate Mountable(v: Volume, n: nat) {
    var base := RootSector(v.h) * SECTOR;
    && v.Valid() && EndsAt(v.image, base, n) && LiveCount(v.image, base, n) <= v.h.rootEntries
    && forall i: nat :: i < LiveCount(v.image, base, n) ==> Tame(Slot(v.image, base, i))
  }

  /** A loaded root directory of a mountable disk makes a mounted file system. */
  lemma MountedOf(s: FileSystem, v: Volume, n: nat)
    requires s.k.Valid() && s.fat.Valid() && s.fat.vol == v && s.slots.Length == MAX_FILE_DESCRIPTORS
    requires s.dir.items != s.k.ram && s.dir.items as object != s.k.heap.entries
    requires s.slots as object != s.k.heap.entries
    requires s.slots as object != s.k.ram && s.slots as object != s.dir.items
    requires Mountable(v, n) && RootLoaded(s.dir, v.image, v.h, n)
    ensures s.Mounted()
  {
    hide Tame, LiveCount, EndsAt, Slot, ItemAt, Decodes;
    assert s.OfDisk();
    forall i: nat | i < s.dir.total ensures Tame(ItemAt(s.dir.items[..], i)) {
      LoadedSlot(s.dir, v.image, v.h, n, i);
    }
  }

  /**
   `fat16_resolve` on a disk whose header is read as v.h: the error of a foreign signature, or a mounted file system,
   always so with a run of free blocks long enough, otherwise possibly -EIO. A failure loses the three streams of
   `fat_private`.
   */
  method Resolve(k: Machine, v: Volume, stack: Stack, signature: byte, table: array<FileDescriptor?>, ghost n: nat)
    returns (res: int, fsys: FileSystem?, ghost lost: set<int>)
    requires k.Valid() && Mountable(v, n) && table.Length == MAX_FILE_DESCRIPTORS
    requires table as object != k.heap.entries && table as object != k.ram
    requires RoomFor(k.heap.entries[..], 5 + BlocksFor(v.h.rootEntries * ITEM))
    modifies k.heap, k.heap.entries, k.ram
    ensures k.Valid() && k.heap.spill == old(k.heap.spill)
    ensures Grown(old(k.heap.live), k.heap.live) && Preserved(old(k.heap.live), old(k.ram[..]), k.ram[..])
    ensures res == 0 || res == -EIO || res == -EFSNOTUS
    ensures res == -EFSNOTUS <==> signature != SIGNATURE
    ensures res == 0 ==>
      fsys != null && fresh(fsys) && fsys.Mounted() && fsys.k == k && fsys.fat.vol == v && fsys.slots == table
    ensures Fits(old(k.heap.entries[..]), 5 + BlocksFor(v.h.rootEntries * ITEM)) && v.h.rootEntries > 0 ==>
      (res == 0 <==> signature == SIGNATURE)
    ensures res != 0 ==>
        |lost| == 3 && lost !! old(k.heap.live).Keys && k.heap.live.Keys == old(k.heap.live).Keys + lost
  {
    hide Added, FreeBlocks, RoomLeft, Preserved, Grown, RoomFor, Fits, Honest, Mountable, RootLoaded, BlocksOf, Decodes;
    hide Served, BlocksFor, Distinct, AllSingle;
    ghost var live0, t0, m0 := k.heap.live, k.heap.entries[..], k.ram[..];
    ghost var room := BlocksFor(v.h.rootEntries * ITEM);
    fsys, lost := null, {};
    SinceNow(k);
    RoomSince(k, live0, t0, m0, 0, 5 + room, 5);
    var privateAddr, streamAddr;
    ghost var fs;
    privateAddr, streamAddr, fs := TakeStreams(k);
    SinceTook(k, live0, t0, m0, fs);
    RoomSince(k, live0, t0, m0, 5, 5 + room, room);
    AddedSingle(live0, k.heap.live, fs);
    if signature != SIGNATURE {
      lost := CloseAndFree(k, streamAddr, privateAddr, live0, fs);
      return -EFSNOTUS, null, lost;
    }
    ghost var live1, m1 := k.heap.live, k.ram[..];
    res, fsys := MountRoot(k, v, stack, streamAddr, table, n, live0, fs);
    PreservedTrans(live0, m0, live1, m1, k.ram[..]);
    if res != 0 {
      lost := CloseAndFree(k, streamAddr, privateAddr, live0, fs);
    }
  }

  /** From the loaded root directory on; the header stream is closed on success, and by the caller otherwise. */
  method MountRoot(k: Machine, v: Volume, stack: Stack, streamAddr: u32, table: array<FileDescriptor?>, ghost n: nat,
                   ghost live0: Extents, ghost fs: seq<nat>) returns (res: int, fsys: FileSystem?)
    requires k.Valid() && Mountable(v, n) && table.Length == MAX_FILE_DESCRIPTORS
    requires table as object != k.heap.entries && table as object != k.ram
    requires Honest(k.heap.entries[..], BlocksFor(v.h.rootEntries * ITEM)) && streamAddr % PAGE == 0
    requires Added(live0, k.heap.live, fs) && |fs| == 5 && fs[4] == streamAddr / PAGE
    modifies k.heap, k.heap.entries, k.ram
    ensures k.Valid() && k.heap.spill == old(k.heap.spill) && (res == 0 || res == -EIO)
    ensures Preserved(old(k.heap.live), old(k.ram[..]), k.ram[..])
    ensures v.h.rootEntries > 0 ==> (res == 0 <==> Fits(old(k.heap.entries[..]), BlocksFor(v.h.rootEntries * ITEM)))
    ensures res == 0 ==> Grown(live0, k.heap.live)
    ensures res == 0 ==>
      fsys != null && fresh(fsys) && fsys.Mounted() && fsys.k == k && fsys.fat.vol == v && fsys.slots == table
    ensures res != 0 ==> fsys == null && k.heap.live == old(k.heap.live)
  {
    hide Added, Preserved, Grown, Fits, Honest, Mountable, RootLoaded, Decodes, Served, BlocksFor, RoomLeft, Single;
    var stream := new Stream(v.image, stack);
    MountableMeans(v, n);
    ghost var live1 := k.heap.live;
    var dir;
    fsys := null;
    res, dir := GetRootDirectory(k, stream, v.h, n);
    if res != 0 {
      return -EIO, null;
    }
    StillSingle(live0, live1, k.heap.live, fs);
    GiveBack(k, streamAddr);
    var fat := new FatFs(v, stack);
    fsys := new FileSystem(k, fat, dir, table);
    MountedOf(fsys, v, n);
  }

  lemma MountableMeans(v: Volume, n: nat)
    requires Mountable(v, n)
    ensures v.Valid() && EndsAt(v.image, RootSector(v.h) * SECTOR, n)
  {
  }

  /** The stream's block is still there when more has been taken, and was not there at the start. */
  lemma StillSingle(live0: Extents, live1: Extents, live: Extents, fs: seq<nat>)
    requires Added(live0, live1, fs) && |fs| == 5 && Grown(live1, live)
    ensures Single(live, fs[4]) && Grown(live0, live - {fs[4] - HEAP_FRAME})
  {
    hide Distinct;
    assert Single(live1, fs[4]);
  }

  /** `paging_new_4gb` for the kernel, after which a kernel with a mounted disk and no process is valid. */
  method Start(fsys: FileSystem, taskBlocks: seq<Task>) returns (kernel: Kernel)
    requires fsys.Mounted() && OneTaskPerBlock(taskBlocks) && FreeBlocks(fsys.k.heap.entries[..]) >= 1026
    modifies fsys.k.heap, fsys.k.heap.entries, fsys.k.ram
    ensures fresh(kernel) && kernel.Valid() && kernel.fsys == fsys && kernel.ring == [] && kernel.spaces == []
    ensures forall i :: 0 <= i < MAX_PROCESSES ==> kernel.processes[i] == null
  {
    hide Decodes, FreeBlocks, Chunk, View, DirOf, Word, FrameOf, Added, ChunkFrames, Preserved, FileSystem.OfDisk;
    var chunk := New4gb(fsys.k, KERNEL_FLAGS);
    IdentityOf(fsys.k.ram[..], fsys.k.heap.live, chunk);
    assert fsys.dir.items[..] == old(fsys.dir.items[..]);
    kernel := new Kernel(fsys, taskBlocks, chunk);
  }

  lemma IdentityOf(m: seq<byte>, live: Extents, chunk: u32)
    requires |m| == RAM_BYTES && chunk % PAGE == 0 && chunk / PAGE < FRAMES && Chunk(m, live, chunk / PAGE)
    requires forall q: nat :: q < FRAMES ==> View(m, chunk / PAGE)[q] == PAGE * q + KERNEL_FLAGS
    ensures KernelMap(m, live, chunk)
  {
    hide Chunk, View;
    forall q: nat | q < FRAMES ensures View(m, chunk / PAGE)[q] / PAGE == q {
      EntryFrame(PAGE * q, KERNEL_FLAGS);
    }
  }
}
