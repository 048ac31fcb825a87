/** process.c and the allocating half of task.c: loading a program file into a task of its own. */
module Processes {
  import opened Words
  import opened HeapTable
  import opened HeapRuns
  import opened Heap
  import opened Kheap
  import opened PageTables
  import opened Paging
  import opened PagingChunks
  import opened AddressSpace
  import opened DiskStream
  import opened FatChain
  import opened FatExact
  import opened FatRead
  import opened FatDirectory
  import opened PathParser
  import opened Files
  import opened Tasks

  const EISTKN := 8
  const MAX_PROCESSES := 12

  // ---------------------------------------------------------------- what a run of kernel calls preserves

  /**
   Since (live0, t0, m0): every allocation of then is still there with its memory untouched, and every free run has
   shrunk by at most `used` blocks.
   */
  ghost predicate Since(k: Machine, live0: Extents, t0: Table, m0: seq<byte>, used: nat)
    reads k, k.heap, k.heap.entries, k.ram
  {
    && k.Valid() && |m0| == RAM_BYTES && |t0| == HEAP_BLOCKS && Decodes(t0, live0)
    && Grown(live0, k.heap.live) && Preserved(live0, m0, k.ram[..]) && RoomLeft(t0, k.heap.entries[..], used)
  }

  /**
   Room for requests of n blocks in all, so that one-block requests are served, and larger ones are served or refused as
   documented: n free blocks, and either a run of n or a taken last block.
   */
  ghost predicate RoomFor(t: Table, n: nat) {
    FreeBlocks(t) >= n && (Fits(t, n) || LastTaken(t))
  }

  /** What is left of the room after `used` blocks. */
  lemma RoomSince(k: Machine, live0: Extents, t0: Table, m0: seq<byte>, used: nat, room: nat, n: nat)
    requires Since(k, live0, t0, m0, used) && RoomFor(t0, room) && used + n <= room
    ensures RoomFor(k.heap.entries[..], n) && Honest(k.heap.entries[..], n) && FreeBlocks(k.heap.entries[..]) >= n
    ensures Fits(t0, room) ==> Fits(k.heap.entries[..], n)
  {
    hide Preserved, FreeBlocks;
    var t := k.heap.entries[..];
    if Fits(t0, room) {
      assert Fits(t, room - used);
      FitsLess(t, room - used, n);
    }
    if LastTaken(t0) {
      LastStaysTaken(t0, live0, t, k.heap.live);
    }
  }

  /** The last block stays taken while its allocation lives. */
  lemma LastStaysTaken(t0: Table, live0: Extents, t: Table, live: Extents)
    requires |t0| == |t| && Decodes(t0, live0) && Decodes(t, live) && Grown(live0, live) && LastTaken(t0)
    ensures LastTaken(t)
  {
    if |t| > 0 {
      var i := |t| - 1;
      FreeIsUncovered(t0, live0, i);
      var s: nat :| Covers(live0, s, i);
      assert Covers(live, s, i);
      FreeIsUncovered(t, live, i);
    }
  }

  lemma SinceTook(k: Machine, live0: Extents, t0: Table, m0: seq<byte>, fs: seq<nat>)
    requires Took(k, live0, t0, m0, fs) && |t0| == HEAP_BLOCKS && Decodes(t0, live0)
    ensures Since(k, live0, t0, m0, |fs|)
  {
    hide Decodes, Preserved, RoomLeft, FreeBlocks;
    AddedSingle(live0, k.heap.live, fs);
  }

  /** A step that itself only takes free blocks. */
  lemma SinceStep(k: Machine, live0: Extents, t0: Table, m0: seq<byte>, a: nat, live: Extents, t: Table, m: seq<byte>,
                  b: nat)
    requires k.Valid() && |m0| == |m| == RAM_BYTES && |t0| == HEAP_BLOCKS && Decodes(t0, live0)
    requires Grown(live0, live) && Preserved(live0, m0, m) && RoomLeft(t0, t, a)
    requires Grown(live, k.heap.live) && Preserved(live, m, k.ram[..]) && RoomLeft(t, k.heap.entries[..], b)
    ensures Since(k, live0, t0, m0, a + b)
  {
    hide Decodes, Preserved, RoomLeft;
    RoomLeftTrans(t0, t, k.heap.entries[..], a, b);
    PreservedTrans(live0, m0, live, m, k.ram[..]);
  }

  /** A block of an allocation made since is not held by anything from before. */
  lemma NewNotHeld(t: Table, live0: Extents, live: Extents, s: nat, b: nat)
    requires Decodes(t, live) && Grown(live0, live) && Covers(live, s, b) && s !in live0
    ensures !Covered(live0, b)
  {
    if Covered(live0, b) {
      var r: nat :| Covers(live0, r, b);
      assert Covers(live, r, b);
      ExtentsDisjoint(t, live, r, s, b);
    }
  }

  /** Bytes written into an allocation made since disturb nothing from before. */
  lemma WriteInNew(t: Table, live0: Extents, live: Extents, m0: seq<byte>, m: seq<byte>, m': seq<byte>, s: nat)
    requires |m0| == |m| == |m'| == RAM_BYTES && |t| == HEAP_BLOCKS && Decodes(t, live)
    requires Grown(live0, live) && Preserved(live0, m0, m) && s in live && s !in live0
    requires forall a :: 0 <= a < RAM_BYTES && !(HEAP_ADDRESS + PAGE * s <= a < HEAP_ADDRESS + PAGE * (s + live[s])) ==>
        m'[a] == m[a]
    ensures Preserved(live0, m0, m')
  {
    hide Decodes;
    forall f: nat | f < FRAMES && Held(live0, f) ensures SameFrame(m0, m', f) {
      assert SameFrame(m0, m, f);
      if HEAP_FRAME + s <= f < HEAP_FRAME + s + live[s] && IsHeapFrame(f) {
        assert Covers(live, s, f - HEAP_FRAME);
        NewNotHeld(t, live0, live, s, f - HEAP_FRAME);
      }
      ExtentInHeap(t, live, s);
      SameOutside(m, m', f, HEAP_ADDRESS + PAGE * s, HEAP_ADDRESS + PAGE * (s + live[s]));
    }
  }

  lemma ExtentInHeap(t: Table, live: Extents, s: nat)
    requires Decodes(t, live) && s in live
    ensures live[s] >= 1 && s + live[s] <= |t|
  {
    assert IsExtent(t, s, live[s]);
  }

  /** A `kzalloc` of any size: a fresh allocation of its blocks, and room for as many fewer; or null and nothing. */
  method Take(k: Machine, size: u32, ghost live0: Extents, ghost t0: Table, ghost m0: seq<byte>, ghost used: nat)
    returns (p: u32)
    requires Since(k, live0, t0, m0, used) && 0 < size <= 0xffff_f000 && Honest(k.heap.entries[..], BlocksFor(size))
    modifies k.heap, k.heap.entries, k.ram
    ensures Since(k, live0, t0, m0, used + BlocksFor(size)) && k.heap.spill == old(k.heap.spill)
    ensures p == 0 <==> !Fits(old(k.heap.entries[..]), BlocksFor(size))
    ensures Grown(old(k.heap.live), k.heap.live) && Preserved(old(k.heap.live), old(k.ram[..]), k.ram[..])
    ensures p == 0 ==>
        k.heap.live == old(k.heap.live) && k.heap.entries[..] == old(k.heap.entries[..]) && k.ram[..] == old(k.ram[..])
    ensures p != 0 ==>
      && Allocation(k.heap.live, p, BlocksFor(size)) && p / PAGE - HEAP_FRAME !in old(k.heap.live)
      && k.heap.live == old(k.heap.live)[p / PAGE - HEAP_FRAME := BlocksFor(size)]
    ensures p != 0 ==> forall a :: p <= a < p + size ==> k.ram[a] == 0
  {
    hide Decodes, Preserved, RoomLeft, Fits, IsFirstFit, Mark, BlocksFor, Honest, FreeBlocks;
    ghost var live, t, m := k.heap.live, k.heap.entries[..], k.ram[..];
    p := k.Kzalloc(size);
    if p == 0 {
      SinceMore(k, live0, t0, m0, used, used + BlocksFor(size));
      return;
    }
    ServedFrames(t, live, k.heap.entries[..], k.heap.live, size, p);
    ServedFits(t, live, k.heap.entries[..], k.heap.live, size, p);
    RoomAfterMark(t, BlocksFor(size));
    SinceStep(k, live0, t0, m0, used, live, t, m, BlocksFor(size));
  }

  lemma ServedFits(t: Table, live: Extents, t': Table, live': Extents, size: u32, p: u32)
    requires Served(t, live, t', live', size, p)
    ensures Fits(t, BlocksFor(size))
  {
  }

  /** `struct process`; its filename is kept as the bytes copied into it. */
  class Process {
    const addr: u32
    var id: nat
    var filename: seq<byte>
    var task: Task?
    var ptr: u32
    var size: u32
    var stack: u32

    /** `kzalloc` and `process_init`: all fields zero. */
    constructor (addr: u32)
      ensures this.addr == addr && id == 0 && filename == [] && task == null && ptr == 0 && size == 0 && stack == 0
    {
      this.addr := addr;
      id, filename, task, ptr, size, stack := 0, [], null, 0, 0, 0;
    }
  }

  // ---------------------------------------------------------------- the file to load

  /** The file a path names can be loaded: it exists, is not empty, and the walk as written reaches its last byte. */
  ghost predicate Loadable(v: Volume, items: seq<byte>, total: nat, path: seq<byte>)
    requires v.Valid() && ITEM * total <= |items|
  {
    PathSlotInRange(items, total, path);
    var slot := PathSlot(items, total, path);
    && slot.Some? && FileSize(items, slot.value) > 0
    && HasByte(v, AsWritten, FirstCluster(AsWritten, items, slot.value), FileSize(items, slot.value) - 1)
  }

  lemma PathSlotInRange(items: seq<byte>, total: nat, path: seq<byte>)
    ensures PathSlot(items, total, path).Some? ==> PathSlot(items, total, path).value < total
  {
    if PathSlot(items, total, path).Some? {
      FoundSlotIs(items, total, Components(path[3..])[0]);
    }
  }

  ghost function FileBytes(items: seq<byte>, total: nat, path: seq<byte>): u32
    requires ITEM * total <= |items|
  {
    PathSlotInRange(items, total, path);
    var slot := PathSlot(items, total, path);
    if slot.Some? then FileSize(items, slot.value) else 0
  }

  ghost function FileCluster(how: Reading, items: seq<byte>, total: nat, path: seq<byte>): nat
    requires ITEM * total <= |items|
  {
    PathSlotInRange(items, total, path);
    var slot := PathSlot(items, total, path);
    if slot.Some? then FirstCluster(how, items, slot.value) else 0
  }

  // ---------------------------------------------------------------- the file that is loaded

  /** What the code reads of a file of `size` bytes at cluster c is the file of the FAT specification. */
  ghost predicate ReadsRight(v: Volume, c: nat, size: nat)
    requires v.Valid()
  {
    forall i: nat :: i < size ==>
      HasByte(v, AsWritten, c, i) && HasByte(v, AsSpecified, c, i)
        && ChainByte(v, AsWritten, c, i) == ChainByte(v, AsSpecified, c, i)
  }

  /** A read of the whole file from its start delivers it exactly then, whatever the stack holds. */
  lemma WholeFileDelivered(v: Volume, stack: Stack, c: nat, size: nat)
    requires v.Valid() && size > 0
    ensures DeliversFile(v, AsWritten, stack, c, 0, size) <==> ReadsRight(v, c, size)
  {
    forall i: nat | i < size
      ensures RawHasByte(v, AsWritten, c, 0, i) <==> HasByte(v, AsWritten, c, i)
      ensures RawHasByte(v, AsWritten, c, 0, i) ==>
          RawByte(v, AsWritten, stack, c, 0, i) == ChainByte(v, AsWritten, c, i)
      ensures 0 + i == i
    {
      RawFromStart(v, stack, c, size, i);
    }
    hide RawHasByte, RawByte, HasByte, ChainByte, ReadsRight, DeliversFile;
    if DeliversFile(v, AsWritten, stack, c, 0, size) {
      forall i: nat | i < size
        ensures HasByte(v, AsWritten, c, i) && HasByte(v, AsSpecified, c, i)
        ensures ChainByte(v, AsWritten, c, i) == ChainByte(v, AsSpecified, c, i)
      {
        DeliveredByte(v, stack, c, size, i);
      }
      RightByBytes(v, c, size);
    }
    if ReadsRight(v, c, size) {
      ReadsRightDelivers(v, stack, c, size);
    }
  }

  lemma RawFromStart(v: Volume, stack: Stack, c: nat, size: nat, i: nat)
    requires v.Valid() && i < size
    ensures RawHasByte(v, AsWritten, c, 0, i) <==> HasByte(v, AsWritten, c, i)
    ensures RawHasByte(v, AsWritten, c, 0, i) ==> RawByte(v, AsWritten, stack, c, 0, i) == ChainByte(v, AsWritten, c, i)
  {
    QuotUnique(0, ClusterBytes(v), 0, 0);
    assert RequestFits(v.spc, 0, size);
    hide RawHasByte, RawByte, HasByte, ChainByte, RequestFits, Quot, Rest;
    RawIsChain(v, AsWritten, stack, c, 0, size, i);
    assert 0 + i == i;
  }

  lemma DeliveredByte(v: Volume, stack: Stack, c: nat, size: nat, i: nat)
    requires v.Valid() && DeliversFile(v, AsWritten, stack, c, 0, size) && i < size
    ensures RawHasByte(v, AsWritten, c, 0, i) && HasByte(v, AsSpecified, c, i)
    ensures RawByte(v, AsWritten, stack, c, 0, i) == ChainByte(v, AsSpecified, c, i)
  {
    hide RawHasByte, RawByte, HasByte, ChainByte;
    assert RawHasByte(v, AsWritten, c, 0, i) && 0 + i == i;
  }

  lemma RightByBytes(v: Volume, c: nat, size: nat)
    requires v.Valid()
    requires forall i: nat :: i < size ==>
      HasByte(v, AsWritten, c, i) && HasByte(v, AsSpecified, c, i)
        && ChainByte(v, AsWritten, c, i) == ChainByte(v, AsSpecified, c, i)
    ensures ReadsRight(v, c, size)
  {
  }

  lemma ReadsRightDelivers(v: Volume, stack: Stack, c: nat, size: nat)
    requires v.Valid() && size > 0 && ReadsRight(v, c, size)
    ensures DeliversFile(v, AsWritten, stack, c, 0, size)
  {
    hide RawHasByte, RawByte, HasByte, ChainByte;
    forall i: nat | i < size
      ensures RawHasByte(v, AsWritten, c, 0, i) && HasByte(v, AsSpecified, c, 0 + i)
      ensures RawByte(v, AsWritten, stack, c, 0, i) == ChainByte(v, AsSpecified, c, 0 + i)
    {
      RawFromStart(v, stack, c, size, i);
      assert HasByte(v, AsWritten, c, i) && 0 + i == i;
    }
  }

  /**
    It is read right when the root directory fills its sectors and all links met are; a file of one cluster meets none.
  */
  lemma AgreeingFileReadsRight(v: Volume, c: nat, size: nat)
    requires v.Valid() && c >= 2 && size > 0 && ChainCovers(v, c, 0, size) && v.h.rootEntries % 16 == 0
    requires size <= ClusterBytes(v) || LinksMetAgree(v, c, Quot(size - 1, ClusterBytes(v)))
    ensures ReadsRight(v, c, size)
  {
    if size <= ClusterBytes(v) {
      QuotUnique(size - 1, ClusterBytes(v), 0, size - 1);
    }
    QuotUnique(0, ClusterBytes(v), 0, 0);
    hide LinksMetAgree, DeliversFile, ReadsRight, ChainCovers;
    assert RequestFits(v.spc, 0, size) && 0 + size - 1 == size - 1;
    FittingReadDelivers(v, _ => 0, c, 0, size);
    WholeFileDelivered(v, _ => 0, c, size);
  }

  /**
   Over all disks of a geometry whose chain covers the file, a program file is read right exactly when the root
   directory fills its sectors and the file fits its first cluster.
   */
  lemma ProgramFileExact(h: Header, spc: nat, c: nat, size: nat)
    requires OrdinaryGeometry(h, spc, c, c) && size > 0
    ensures (forall v: Volume | v.h == h && v.spc == spc && ChainCovers(v, c, 0, size) :: ReadsRight(v, c, size))
            <==> h.rootEntries % 16 == 0 && size <= spc * SECTOR
  {
    WrittenReadExact(h, spc, c, 0, size);
    hide ReadsRight, DeliversFile, ChainCovers;
    forall v: Volume, stack: Stack | v.h == h && v.spc == spc
      ensures DeliversFile(v, AsWritten, stack, c, 0, size) <==> ReadsRight(v, c, size)
    {
      WholeFileDelivered(v, stack, c, size);
    }
    var any: Stack := _ => 0;
    assert forall v: Volume | v.h == h && v.spc == spc && ChainCovers(v, c, 0, size) ::
        ReadsRight(v, c, size) <==> DeliversFile(v, AsWritten, any, c, 0, size);
  }

  /** A whole file read from its start fills the buffer with the bytes of the chain as walked. */
  lemma WholeFileRead(was: seq<byte>, at: nat, v: Volume, stack: Stack, c: nat, size: nat)
    requires v.Valid() && size > 0 && at + size <= |was|
    ensures ItemsReadable(v, c, 0, size, 1) <==> HasByte(v, AsWritten, c, size - 1)
    ensures var now := ItemsOver(was, at, v, stack, c, 0, size, 1);
      && (forall a :: 0 <= a < |was| && !(at <= a < at + size) ==> now[a] == was[a])
      && (HasByte(v, AsWritten, c, size - 1) ==>
          forall i: nat :: i < size ==> HasByte(v, AsWritten, c, i) && now[at + i] == ChainByte(v, AsWritten, c, i))
  {
    QuotUnique(0, ClusterBytes(v), 0, 0);
    assert RequestFits(v.spc, 0, size);
    FittingIsChain(was, at, v, stack, c, 0, size);
    hide HasByte, ChainByte, ReadResult, ReadOver, RequestFits, Quot, Rest;
    assert ItemsOver(was, at, v, stack, c, 0, size, 1) == ReadOver(was, at, v, stack, c, 0, size);
    if HasByte(v, AsWritten, c, size - 1) {
      forall i: nat | i < size ensures HasByte(v, AsWritten, c, i) {
        HasBytePrefix(v, AsWritten, c, i, size - 1);
      }
    }
  }

  lemma RoomLeftMore(t: Table, t': Table, a: nat, b: nat)
    requires a <= b && RoomLeft(t, t', a)
    ensures RoomLeft(t, t', b)
  {
    hide FreeBlocks;
    forall n: nat | n >= b && Fits(t, n) ensures Fits(t', n - b) {
      assert Fits(t', n - a);
      FitsLess(t', n - a, n - b);
    }
  }

  lemma FitsLess(t: Table, n: nat, m: nat)
    requires Fits(t, n) && m <= n
    ensures Fits(t, m)
  {
    var s: nat :| FreeRun(t, s, n);
    assert FreeRun(t, s, m);
  }

  /** Giving back blocks taken since leaves everything from before in place. */
  lemma GrownAfterFree(live0: Extents, live: Extents, fs: seq<nat>)
    requires Grown(live0, live) && forall i :: 0 <= i < |fs| ==> fs[i] - HEAP_FRAME !in live0
    ensures Grown(live0, live - BlocksOf(fs))
  {
    forall s | s in live0 ensures s !in BlocksOf(fs) {
      BlocksOfMember(fs, s);
    }
  }

  lemma SingleAfterTake(live: Extents, fs: seq<nat>, b: nat, n: nat)
    requires AllSingle(live, fs) && b !in live
    ensures AllSingle(live[b := n], fs) && b !in BlocksOf(fs)
  {
    BlocksOfMember(fs, b);
    forall i | 0 <= i < |fs| ensures Single(live[b := n], fs[i]) && fs[i] - HEAP_FRAME != b {
      assert Single(live, fs[i]);
    }
  }

  /** The bytes of chain c lie in memory from ptr on. */
  ghost predicate HoldsFile(m: seq<byte>, ptr: nat, v: Volume, c: nat, size: nat) {
    && v.Valid() && ptr + size <= |m|
    && forall i: nat :: i < size ==> HasByte(v, AsWritten, c, i) && m[ptr + i] == ChainByte(v, AsWritten, c, i)
  }

  /** The middle of `process_load_binary`: size, buffer and contents of an open file. */
  method ReadOpened(s: FileSystem, fd: nat) returns (res: int, ptr: u32, filesize: u32)
    requires s.Mounted() && s.Descriptor(fd) != null && s.Descriptor(fd).slot < s.dir.total && s.Descriptor(fd).pos == 0
    requires FileSize(s.dir.items[..], s.Descriptor(fd).slot) <= 0xffff_f000
    requires Honest(s.k.heap.entries[..], BlocksFor(FileSize(s.dir.items[..], s.Descriptor(fd).slot)))
    modifies s.k.heap, s.k.heap.entries, s.k.ram, s.fat.clusterStream, s.fat.fatStream
    ensures s.Mounted() && s.k.heap.spill == old(s.k.heap.spill)
    ensures filesize == FileSize(s.dir.items[..], s.Descriptor(fd).slot)
    ensures Since(s.k, old(s.k.heap.live), old(s.k.heap.entries[..]), old(s.k.ram[..]), BlocksFor(filesize))
    ensures res == 0 || res == -EIO || res == -ENOMEM
    ensures res == 0 <==>
      && filesize > 0 && Fits(old(s.k.heap.entries[..]), BlocksFor(filesize))
      && HasByte(s.fat.vol, AsWritten, FirstCluster(AsWritten, s.dir.items[..], s.Descriptor(fd).slot), filesize - 1)
    ensures res == -ENOMEM || filesize == 0 ==> s.k.heap.live == old(s.k.heap.live)
    ensures res != -ENOMEM && filesize > 0 ==>
      && Allocation(s.k.heap.live, ptr, BlocksFor(filesize)) && ptr / PAGE - HEAP_FRAME !in old(s.k.heap.live)
      && s.k.heap.live == old(s.k.heap.live)[ptr / PAGE - HEAP_FRAME := BlocksFor(filesize)]
    ensures res == 0 ==>
      HoldsFile(s.k.ram[..], ptr, s.fat.vol, FirstCluster(AsWritten, s.dir.items[..], s.Descriptor(fd).slot), filesize)
  {
    hide Decodes, Preserved, RoomLeft, Fits, BlocksFor, HasByte, Tame, ItemAt, FileSize, FirstCluster, HoldsFile;
    hide Honest, ByteOfWord, FileSystem.OfDisk, FreeBlocks;
    ghost var live0, t0, m0 := s.k.heap.live, s.k.heap.entries[..], s.k.ram[..];
    SinceNow(s.k);
    res, filesize := s.Fstat(fd);
    if filesize == 0 {
      res, ptr := ReadEmpty(s, fd);
      SinceSame(s.k, live0, t0, m0);
      return;
    }
    ptr := Take(s.k, filesize, live0, t0, m0, 0);
    if ptr == 0 {
      return -ENOMEM, 0, filesize;
    }
    ghost var m, t, live := s.k.ram[..], s.k.heap.entries[..], s.k.heap.live;
    AllocationHolds(live, ptr, filesize);
    res := ReadInto(s, fd, ptr, filesize);
    WriteInNew(t, live0, live, m0, m, s.k.ram[..], ptr / PAGE - HEAP_FRAME);
  }

  /** The same for an empty file, which is never read: no block is taken, and `fread` refuses. */
  method ReadEmpty(s: FileSystem, fd: nat) returns (res: int, ptr: u32)
    requires s.Mounted() && s.Descriptor(fd) != null && s.Descriptor(fd).slot < s.dir.total
    modifies s.k.heap, s.k.heap.entries, s.k.ram, s.fat.clusterStream, s.fat.fatStream
    ensures s.Mounted() && s.k.heap.spill == old(s.k.heap.spill) && (res == -EIO || res == -ENOMEM)
    ensures s.k.heap.live == old(s.k.heap.live) && s.k.heap.entries[..] == old(s.k.heap.entries[..])
    ensures s.k.ram[..] == old(s.k.ram[..])
  {
    hide Decodes, Tame, ItemAt, FileSystem.OfDisk;
    ptr := s.k.Kzalloc(0);
    if ptr == 0 {
      return -ENOMEM, 0;
    }
    var _ := s.Fread(ptr, 0, 1, fd);
    res := -EIO;
  }

  /** The `fread` of a whole file into a buffer of its size. */
  method ReadInto(s: FileSystem, fd: nat, ptr: u32, filesize: u32) returns (res: int)
    requires s.Mounted() && s.Descriptor(fd) != null && s.Descriptor(fd).slot < s.dir.total && s.Descriptor(fd).pos == 0
    requires filesize > 0 && ptr + filesize <= RAM_BYTES
    modifies s.fat.clusterStream, s.fat.fatStream, s.k.ram
    ensures s.Mounted() && (res == 0 || res == -EIO)
    ensures forall a :: 0 <= a < RAM_BYTES && !(ptr <= a < ptr + filesize) ==> s.k.ram[a] == old(s.k.ram[a])
    ensures var c := FirstCluster(AsWritten, s.dir.items[..], s.Descriptor(fd).slot);
      && (res == 0 <==> HasByte(s.fat.vol, AsWritten, c, filesize - 1))
      && (res == 0 ==> HoldsFile(s.k.ram[..], ptr, s.fat.vol, c, filesize))
  {
    hide Decodes, HasByte, ChainByte, Tame, ItemAt, ItemsReadable, ItemsOver, FirstCluster, FileSystem.OfDisk;
    ghost var m := s.k.ram[..];
    var read := s.Fread(ptr, filesize, 1, fd);
    WholeFileRead(m, ptr, s.fat.vol, s.fat.stack, FirstCluster(AsWritten, s.dir.items[..], s.Descriptor(fd).slot),
      filesize);
    res := if read != 1 then -EIO else 0;
  }

  lemma SinceNow(k: Machine)
    requires k.Valid()
    ensures Since(k, k.heap.live, k.heap.entries[..], k.ram[..], 0)
  {
    hide Decodes, FreeBlocks;
  }

  lemma SinceSame(k: Machine, live0: Extents, t0: Table, m0: seq<byte>)
    requires k.Valid() && k.heap.live == live0 && k.heap.entries[..] == t0 && k.ram[..] == m0
    ensures Since(k, live0, t0, m0, BlocksFor(0))
  {
    assert BlocksFor(0) == 0;
    hide Decodes, BlocksFor, FreeBlocks;
  }

  lemma AllocationHolds(live: Extents, p: u32, size: u32)
    requires 0 < size <= 0xffff_f000 && Allocation(live, p, BlocksFor(size))
    ensures p + size <= p + PAGE * BlocksFor(size) <= RAM_BYTES
    ensures p == HEAP_ADDRESS + PAGE * (p / PAGE - HEAP_FRAME)
  {
    BlocksForExact(size);
  }

  /** `process_load_binary` from the open descriptor on; fs is what opening took. */
  method LoadOpened(s: FileSystem, fd: nat, process: Process, ghost room: nat,
                    ghost live0: Extents, ghost t0: Table, ghost m0: seq<byte>, ghost fs: seq<nat>) returns (res: int)
    requires s.Mounted() && s.Descriptor(fd) != null && s.Descriptor(fd).slot < s.dir.total && s.Descriptor(fd).pos == 0
    requires s.Descriptor(fd).index == fd && s.Descriptor(fd).Paged()
    requires Took(s.k, live0, t0, m0, fs) && |t0| == HEAP_BLOCKS && Decodes(t0, live0) && |fs| <= room
    requires Distinct(s.Descriptor(fd).Frames()) && forall f | f in s.Descriptor(fd).Frames() :: f in fs
    requires FileSize(s.dir.items[..], s.Descriptor(fd).slot) <= 0xffff_f000
    requires RoomFor(t0, room + BlocksFor(FileSize(s.dir.items[..], s.Descriptor(fd).slot)))
    modifies s.k.heap, s.k.heap.entries, s.k.ram, s.slots, s.fat.clusterStream, s.fat.fatStream
    modifies process`ptr, process`size
    ensures s.Mounted() && s.k.heap.spill == old(s.k.heap.spill) && s.slots[..] == old(s.slots[..])[fd - 1 := null]
    ensures res == 0 || res == -EIO || res == -ENOMEM
    ensures var slot := old(s.Descriptor(fd)).slot;
      var size, c := FileSize(s.dir.items[..], slot), FirstCluster(AsWritten, s.dir.items[..], slot);
      && Since(s.k, live0, t0, m0, room + BlocksFor(size))
      && (res == 0 ==> size > 0 && HasByte(s.fat.vol, AsWritten, c, size - 1))
      && (Fits(t0, room + BlocksFor(size)) && size > 0 && HasByte(s.fat.vol, AsWritten, c, size - 1) ==> res == 0)
      && (res == 0 ==>
          && process.size == size && Allocation(s.k.heap.live, process.ptr, BlocksFor(size))
          && process.ptr / PAGE - HEAP_FRAME !in live0
          && HoldsFile(s.k.ram[..], process.ptr, s.fat.vol, c, size))
  {
    hide Decodes, Preserved, RoomLeft, Fits, BlocksFor, HasByte, Tame, ItemAt, FileSize, FirstCluster, FreeBlocks;
    hide Added, HoldsFile;
    hide BlocksOf, Distinct, AllSingle, Grown, Honest, RoomFor, FileSystem.OfDisk;
    ghost var desc := s.Descriptor(fd);
    ghost var n := BlocksFor(FileSize(s.dir.items[..], desc.slot));
    var ptr, filesize;
    res, ptr, filesize := ReadTaken(s, fd, room, live0, t0, m0, fs);
    if res == 0 {
      process.ptr, process.size := ptr, filesize;
    }
    ghost var live2, t2 := s.k.heap.live, s.k.heap.entries[..];
    var _ := s.Fclose(fd);
    GrownAfterFree(live0, live2, desc.Frames());
    SinceFreed(s.k, live0, t0, m0, |fs| + n, room + n, t2);
  }

  /** Up to the closing: the file is read, and the blocks of its descriptor are still those taken when opening. */
  method ReadTaken(s: FileSystem, fd: nat, ghost room: nat, ghost live0: Extents, ghost t0: Table, ghost m0: seq<byte>,
                   ghost fs: seq<nat>)
    returns (res: int, ptr: u32, filesize: u32)
    requires s.Mounted() && s.Descriptor(fd) != null && s.Descriptor(fd).slot < s.dir.total && s.Descriptor(fd).pos == 0
    requires Took(s.k, live0, t0, m0, fs) && |t0| == HEAP_BLOCKS && Decodes(t0, live0) && |fs| <= room
    requires Distinct(s.Descriptor(fd).Frames()) && forall f | f in s.Descriptor(fd).Frames() :: f in fs
    requires FileSize(s.dir.items[..], s.Descriptor(fd).slot) <= 0xffff_f000
    requires RoomFor(t0, room + BlocksFor(FileSize(s.dir.items[..], s.Descriptor(fd).slot)))
    modifies s.k.heap, s.k.heap.entries, s.k.ram, s.fat.clusterStream, s.fat.fatStream
    ensures s.Mounted() && s.k.heap.spill == old(s.k.heap.spill)
    ensures filesize == FileSize(s.dir.items[..], s.Descriptor(fd).slot)
    ensures Since(s.k, live0, t0, m0, |fs| + BlocksFor(filesize)) && AllSingle(s.k.heap.live, s.Descriptor(fd).Frames())
    ensures forall i :: 0 <= i < 4 ==> s.Descriptor(fd).Frames()[i] - HEAP_FRAME !in live0
    ensures res == 0 || res == -EIO || res == -ENOMEM
    ensures var c := FirstCluster(AsWritten, s.dir.items[..], s.Descriptor(fd).slot);
      && (res == 0 ==> filesize > 0 && HasByte(s.fat.vol, AsWritten, c, filesize - 1))
      && (Fits(t0, room + BlocksFor(filesize)) && filesize > 0 && HasByte(s.fat.vol, AsWritten, c, filesize - 1) ==>
         res == 0)
      && (res == 0 ==>
          && Allocation(s.k.heap.live, ptr, BlocksFor(filesize)) && ptr / PAGE - HEAP_FRAME !in live0
          && ptr / PAGE - HEAP_FRAME !in BlocksOf(s.Descriptor(fd).Frames())
          && HoldsFile(s.k.ram[..], ptr, s.fat.vol, c, filesize))
  {
    hide Decodes, Preserved, RoomLeft, Fits, BlocksFor, HasByte, Tame, ItemAt, FileSize, FirstCluster, FreeBlocks;
    hide Added, HoldsFile;
    hide BlocksOf, Distinct, AllSingle, Grown, Honest, RoomFor, FileSystem.OfDisk;
    ghost var live1, t1, m1, desc := s.k.heap.live, s.k.heap.entries[..], s.k.ram[..], s.Descriptor(fd);
    ghost var n := BlocksFor(FileSize(s.dir.items[..], desc.slot));
    SinceTook(s.k, live0, t0, m0, fs);
    RoomSince(s.k, live0, t0, m0, |fs|, room + n, n);
    Some4(live0, live1, fs, desc.Frames());
    AddedSingle(live0, live1, fs);
    res, ptr, filesize := ReadOpened(s, fd);
    SinceStep(s.k, live0, t0, m0, |fs|, live1, t1, m1, n);
    if res != -ENOMEM && filesize > 0 {
      SingleAfterTake(live1, desc.Frames(), ptr / PAGE - HEAP_FRAME, n);
      NotInGrown(live0, live1, ptr / PAGE - HEAP_FRAME);
    }
  }

  lemma NotInGrown(live0: Extents, live: Extents, b: nat)
    requires Grown(live0, live) && b !in live
    ensures b !in live0
  {
  }

  lemma SinceFreed(k: Machine, live0: Extents, t0: Table, m0: seq<byte>, a: nat, b: nat, t: Table)
    requires k.Valid() && |m0| == RAM_BYTES && |t0| == HEAP_BLOCKS && Decodes(t0, live0)
    requires Grown(live0, k.heap.live) && Preserved(live0, m0, k.ram[..]) && a <= b
    requires RoomLeft(t0, t, a) && RoomLeft(t, k.heap.entries[..], 0)
    ensures Since(k, live0, t0, m0, b)
  {
    hide Decodes, Preserved, RoomLeft, Grown;
    RoomLeftTrans(t0, t, k.heap.entries[..], a, 0);
    RoomLeftMore(t0, k.heap.entries[..], a, b);
  }

  /**
   `process_load_binary`: with a run of free blocks long enough it succeeds exactly for a loadable file with a
   descriptor to be had, and without one for no others. The process then has a new allocation of the file's size with
   the file in it; in every case the descriptor is closed again. A 512th descriptor would be followed into null.
   */
  method LoadBinary(s: FileSystem, path: seq<byte>, process: Process) returns (res: int)
    requires s.Mounted() && 0 !in path && FreeIndex(s.slots[..], 0) != MAX_FILE_DESCRIPTORS - 1
    requires PlainPath(s.dir.items[..], s.dir.total, path)
    requires FileBytes(s.dir.items[..], s.dir.total, path) <= 0xffff_f000
    requires RoomFor(s.k.heap.entries[..], BinaryRoom(s.dir.items[..], s.dir.total, path))
    modifies s.k.heap, s.k.heap.entries, s.k.ram, s.slots, s.fat.clusterStream, s.fat.fatStream
    modifies process`ptr, process`size
    ensures s.Mounted() && s.k.heap.spill == old(s.k.heap.spill) && s.slots[..] == old(s.slots[..])
    ensures Since(s.k, old(s.k.heap.live), old(s.k.heap.entries[..]), old(s.k.ram[..]),
        BinaryRoom(s.dir.items[..], s.dir.total, path))
    ensures res == 0 || res == -EIO || res == -ENOMEM
    ensures res == 0 ==>
      Loadable(s.fat.vol, s.dir.items[..], s.dir.total, path) && FreeIndex(old(s.slots[..]), 0) < MAX_FILE_DESCRIPTORS
    ensures Fits(old(s.k.heap.entries[..]), BinaryRoom(s.dir.items[..], s.dir.total, path)) ==>
      (res == 0 <==>
        Loadable(s.fat.vol, s.dir.items[..], s.dir.total, path)
          && FreeIndex(old(s.slots[..]), 0) < MAX_FILE_DESCRIPTORS)
    ensures res == 0 ==>
      && process.size == FileBytes(s.dir.items[..], s.dir.total, path) > 0
      && Allocation(s.k.heap.live, process.ptr, BlocksFor(process.size))
      && process.ptr / PAGE - HEAP_FRAME !in old(s.k.heap.live)
      && HoldsFile(s.k.ram[..], process.ptr, s.fat.vol, FileCluster(AsWritten, s.dir.items[..], s.dir.total, path),
         process.size)
  {
    hide Decodes, Preserved, RoomLeft, Fits, BlocksFor, HasByte, Tame, ItemAt, FileSize, FirstCluster, FreeBlocks;
    hide Added, PathSlot, FreeIndex, OpenRoom, HoldsFile;
    hide BlocksOf, Distinct, AllSingle, Grown, PlainPath, OpenCost, RoomFor, FileSystem.OfDisk;
    ghost var live0, t0, m0, items := s.k.heap.live, s.k.heap.entries[..], s.k.ram[..], s.dir.items[..];
    ghost var n, room := BlocksFor(FileBytes(items, s.dir.total, path)), OpenRoom(items, s.dir.total, path);
    PathSlotInRange(items, s.dir.total, path);
    SinceNow(s.k);
    RoomSince(s.k, live0, t0, m0, 0, room + n, room);
    var fd;
    ghost var fs;
    fd, fs := s.Fopen(path);
    assert s.dir.items[..] == items;
    CostInRoom(items, s.dir.total, path, fd != 0);
    SinceTook(s.k, live0, t0, m0, fs);
    SinceMore(s.k, live0, t0, m0, |fs|, room);
    if fd == 0 {
      SinceMore(s.k, live0, t0, m0, room, room + n);
      var _ := s.Fclose(fd);
      return -EIO;
    }
    res := LoadOpened(s, fd, process, room, live0, t0, m0, fs);
    assert s.slots[..] == old(s.slots[..]) by {
      ReopenedIndex(old(s.slots[..]));
    }
  }

  /** Blocks that loading the file of a path takes at most. */
  ghost function BinaryRoom(items: seq<byte>, total: nat, path: seq<byte>): nat
    requires ITEM * total <= |items|
  {
    OpenRoom(items, total, path) + BlocksFor(FileBytes(items, total, path))
  }

  lemma CostInRoom(items: seq<byte>, total: nat, path: seq<byte>, success: bool)
    ensures OpenCost(items, total, path, success) <= OpenRoom(items, total, path)
  {
    hide Components;
  }

  lemma SinceMore(k: Machine, live0: Extents, t0: Table, m0: seq<byte>, a: nat, b: nat)
    requires Since(k, live0, t0, m0, a) && a <= b
    ensures Since(k, live0, t0, m0, b)
  {
    hide Decodes, Preserved, RoomLeft, FreeBlocks;
    RoomLeftMore(t0, k.heap.entries[..], a, b);
  }

  // ---------------------------------------------------------------- mapping

  /** Whole pages from ptr to the aligned end of `size` bytes. */
  lemma PagesToMap(ptr: u32, size: u32)
    requires ptr % PAGE == 0 && 0 < size <= 0xffff_f000 && ptr + PAGE * BlocksFor(size) < RAM_BYTES
    ensures ptr + size < RAM_BYTES && AlignAddress(ptr + size) == ptr + PAGE * BlocksFor(size)
  {
    BlocksForExact(size);
    var q, r := size / PAGE, size % PAGE;
    assert size == q * PAGE + r && (ptr + size) % PAGE == r;
    assert BlocksFor(size) == if r == 0 then q else q + 1;
  }

  /** The two runs of maps turn the identity of a new task into the map of the process. */
  lemma MappedIsEntryOf(v: seq<u32>, s: Space, p: nat)
    requires |v| == FRAMES && p < FRAMES && v[p] == PAGE * p + USER_READ
    requires s.ptr % PAGE == 0 && s.stack % PAGE == 0 && 0 < s.size <= 0xffff_f000 && BlocksFor(s.size) <= HEAP_BLOCKS
    requires s.ptr + PAGE * BlocksFor(s.size) < RAM_BYTES && s.stack + PAGE * STACK_PAGES < RAM_BYTES
    ensures MapFlat(MapFlat(v, PROGRAM_PAGE, s.ptr, BlocksFor(s.size), USER_WRITE), STACK_PAGE, s.stack, STACK_PAGES,
        USER_WRITE)[p]
            == EntryOf(s, p)
  {
    hide BlocksFor, MapFlat;
    var n := BlocksFor(s.size);
    var w := MapFlat(v, PROGRAM_PAGE, s.ptr, n, USER_WRITE);
    RangeMapped(v, PROGRAM_PAGE, s.ptr, n, p);
    RangeMapped(w, STACK_PAGE, s.stack, STACK_PAGES, p);
  }

  /** A range mapped writable, where nothing wraps. */
  lemma RangeMapped(v: seq<u32>, page: nat, phys: u32, n: nat, p: nat)
    requires |v| == FRAMES && page + n <= FRAMES && page < FRAMES && p < FRAMES && phys % PAGE == 0
    requires phys + PAGE * n < RAM_BYTES
    ensures MapFlat(v, page, phys, n, USER_WRITE)[p] ==
            if page <= p < page + n then phys + PAGE * (p - page) + USER_WRITE else v[p]
  {
    hide MapFlat, Or32;
    MapFlatExact(v, page, phys, n, USER_WRITE, p);
    InRange(page, p, n);
    if page <= p < page + n {
      Or7(phys + PAGE * (p - page));
    }
  }

  lemma InRange(page: nat, p: nat, n: nat)
    requires page + n <= FRAMES && p < FRAMES
    ensures (p - page) % FRAMES < n <==> page <= p < page + n
    ensures page <= p ==> (p - page) % FRAMES == p - page
  {
  }

  lemma Or7(a: u32)
    requires a % PAGE == 0
    ensures Or32(a, USER_WRITE) == a + USER_WRITE
  {
    OrFlags(a, 0, USER_WRITE);
  }

  /** `process_map_memory` with `process_map_binary`, on a task fresh from `task_init`. */
  method MapMemory(k: Machine, s: Space)
    requires k.Valid() && s.chunk % PAGE == 0 && s.chunk / PAGE < FRAMES
    requires Chunk(k.ram[..], k.heap.live, s.chunk / PAGE)
    requires forall p: nat :: p < FRAMES ==> View(k.ram[..], s.chunk / PAGE)[p] == PAGE * p + USER_READ
    requires 0 < s.size <= 0xffff_f000 && Allocation(k.heap.live, s.ptr, BlocksFor(s.size))
    requires Allocation(k.heap.live, s.stack, STACK_PAGES)
    modifies k.ram
    ensures k.Valid() && Chunk(k.ram[..], k.heap.live, s.chunk / PAGE)
    ensures forall p: nat :: p < FRAMES ==> View(k.ram[..], s.chunk / PAGE)[p] == EntryOf(s, p)
    ensures DirOf(k.ram[..], s.chunk / PAGE) == DirOf(old(k.ram[..]), s.chunk / PAGE)
    ensures ChunkFrames(k.ram[..], s.chunk / PAGE) == ChunkFrames(old(k.ram[..]), s.chunk / PAGE)
    ensures OnlyTables(old(k.ram[..]), k.ram[..], s.chunk / PAGE)
  {
    hide Word, FrameOf, Chunk, View, DirOf, ChunkFrames, OnlyTables, BlocksFor, EntryOf, MapFlat, Tab;
    ghost var m, c := k.ram[..], s.chunk / PAGE;
    PagesToMap(s.ptr, s.size);
    PagesOfStack(s.stack);
    var _ := MapTo(k, s.chunk / PAGE, PROGRAM_VIRTUAL, s.ptr, AlignAddress(s.ptr + s.size), USER_WRITE);
    ghost var m1 := k.ram[..];
    var _ := MapTo(k, s.chunk / PAGE, STACK_VIRTUAL_END, s.stack, AlignAddress(s.stack + STACK_SIZE), USER_WRITE);
    RemappedTrans(m, k, c, m1);
    forall p: nat | p < FRAMES ensures View(k.ram[..], c)[p] == EntryOf(s, p) {
      MappedIsEntryOf(View(m, c), s, p);
    }
  }

  lemma PagesOfStack(stack: u32)
    requires stack % PAGE == 0 && stack + PAGE * STACK_PAGES < RAM_BYTES
    ensures AlignAddress(stack + STACK_SIZE) == stack + PAGE * STACK_PAGES && BlocksFor(STACK_SIZE) == STACK_PAGES
  {
  }

  // ---------------------------------------------------------------- the kernel's processes

  const SIZEOF_PROCESS := 4224
  const SIZEOF_TASK := 64
  const TASK_BLOCKS := 1027

  function SpaceOf(p: Process): Space
    requires p.task != null
    reads p, p.task
  {
    Space(p.task.pageDirectory, p.ptr, p.size, p.stack)
  }

  /** Blocks that loading a path takes at most. */
  ghost function LoadRoom(items: seq<byte>, total: nat, path: seq<byte>): nat
    requires ITEM * total <= |items|
  {
    2 + BinaryRoom(items, total, path) + STACK_PAGES + TASK_BLOCKS
  }

  /** The memory of tasks: the `struct task` that each block of the heap holds when it is one. */
  ghost predicate OneTaskPerBlock(blocks: seq<Task>) {
    |blocks| == HEAP_BLOCKS && forall b: nat :: b < HEAP_BLOCKS ==> blocks[b].addr == HEAP_ADDRESS + PAGE * b
  }

  /** All tasks of a list lie in live one-block allocations. */
  ghost predicate ListLive(blocks: seq<Task>, live: Extents, s: seq<Task>) {
    forall t | t in s :: t in blocks && Single(live, t.addr / PAGE)
  }

  /** The tasks in blocks that hold none of a list. */
  ghost function Spare(blocks: seq<Task>, s: seq<Task>): set<Task> {
    set t | t in blocks && t !in s
  }

  lemma ListStaysLive(blocks: seq<Task>, live: Extents, live': Extents, s: seq<Task>)
    requires ListLive(blocks, live, s) && Grown(live, live')
    ensures ListLive(blocks, live', s)
  {
  }

  /** The task in block b. */
  lemma TaskOfBlock(blocks: seq<Task>, b: nat)
    requires OneTaskPerBlock(blocks) && b < HEAP_BLOCKS
    ensures blocks[b].addr % PAGE == 0 && blocks[b].addr / PAGE == HEAP_FRAME + b && blocks[b] in blocks
  {
  }

  /** A task in a block that was not live is in no list of live tasks. */
  lemma NotListed(blocks: seq<Task>, live: Extents, s: seq<Task>, task: Task)
    requires ListLive(blocks, live, s) && task.addr / PAGE >= HEAP_FRAME && task.addr / PAGE - HEAP_FRAME !in live
    ensures task !in s
  {
  }

  /**
   `task_new` up to the linking: the task's block and its page structure, all blocks new. The task is the one that lies
   in the least free block, which may have held a task before; it is in no list of live tasks.
   */
  method NewTask(k: Machine, blocks: seq<Task>, ghost s: seq<Task>, ghost live0: Extents, ghost t0: Table,
                 ghost m0: seq<byte>, ghost used: nat)
    returns (task: Task)
    requires Since(k, live0, t0, m0, used) && FreeBlocks(k.heap.entries[..]) >= TASK_BLOCKS
    requires OneTaskPerBlock(blocks) && ListLive(blocks, k.heap.live, s)
    modifies k.heap, k.heap.entries, k.ram, Spare(blocks, s)
    ensures k.Valid() && k.heap.spill == old(k.heap.spill)
    ensures Grown(live0, k.heap.live) && Preserved(live0, m0, k.ram[..])
    ensures Grown(old(k.heap.live), k.heap.live) && Preserved(old(k.heap.live), old(k.ram[..]), k.ram[..])
    ensures FreeBlocks(k.heap.entries[..]) == FreeBlocks(old(k.heap.entries[..])) - TASK_BLOCKS
    ensures task in blocks && task !in s && task.next == null && task.prev == null
    ensures ListLive(blocks, k.heap.live, s + [task])
    ensures forall t | t in blocks && t != task :: unchanged(t)
    ensures TaskSpace(k.ram[..], old(k.heap.live), k.heap.live, task.pageDirectory)
    ensures task.addr % PAGE == 0 && task.addr / PAGE == HEAP_FRAME + StartBlock(old(k.heap.entries[..]), 1)
    ensures task.addr / PAGE >= HEAP_FRAME && task.addr / PAGE - HEAP_FRAME !in old(k.heap.live)
    ensures Single(k.heap.live, task.addr / PAGE)
    ensures Added(old(k.heap.live), k.heap.live, [task.addr / PAGE] + ChunkFrames(k.ram[..], task.pageDirectory / PAGE))
  {
    hide Decodes, Preserved, RoomLeft, FreeBlocks, Chunk, View, DirOf, Word, FrameOf, Added, ChunkFrames, StartBlock;
    ghost var live, t, m := k.heap.live, k.heap.entries[..], k.ram[..];
    var addr := KzallocPage(k, SIZEOF_TASK);
    ghost var live1, t1, m1 := k.heap.live, k.heap.entries[..], k.ram[..];
    var chunk := New4gb(k, PRESENT + ACCESS_FROM_ALL);
    AddedSingle(live1, k.heap.live, ChunkFrames(k.ram[..], chunk / PAGE));
    PreservedTrans(live, m, live1, m1, k.ram[..]);
    PreservedTrans(live0, m0, live, m, k.ram[..]);
    BlocksAreNew(live, live1, k.heap.live, ChunkFrames(k.ram[..], chunk / PAGE));
    AddedFirst(live, addr / PAGE, k.heap.live, ChunkFrames(k.ram[..], chunk / PAGE));
    assert BitOr(PRESENT + ACCESS_FROM_ALL, WRITEABLE) == USER_WRITE;
    TaskOfBlock(blocks, addr / PAGE - HEAP_FRAME);
    assert live1[addr / PAGE - HEAP_FRAME] == 1 && Single(k.heap.live, addr / PAGE);
    NotListed(blocks, live, s, blocks[addr / PAGE - HEAP_FRAME]);
    ListStaysLive(blocks, live, k.heap.live, s);
    task := blocks[addr / PAGE - HEAP_FRAME];
    task.pageDirectory, task.next, task.prev := chunk, null, null;
  }

  /** A block taken before the blocks of a list joins the list. */
  lemma AddedFirst(live0: Extents, f: nat, live: Extents, fs: seq<nat>)
    requires IsHeapFrame(f) && f - HEAP_FRAME !in live0 && Added(live0[f - HEAP_FRAME := 1], live, fs)
    ensures Added(live0, live, [f] + fs)
  {
    var live1, gs := live0[f - HEAP_FRAME := 1], [f] + fs;
    FirstKept(live0, f, live, fs);
    FirstDistinct(f, fs);
    hide Distinct, AllSingle;
    forall i | 0 <= i < |gs| ensures gs[i] - HEAP_FRAME !in live0 {
      assert i > 0 ==> gs[i] == fs[i - 1] && fs[i - 1] - HEAP_FRAME !in live1;
    }
    forall s | s in live ensures s in live0 || s + HEAP_FRAME in gs {
      assert gs[0] == f && (s in live1 || s + HEAP_FRAME in fs);
      assert s + HEAP_FRAME in fs ==> s + HEAP_FRAME in gs;
    }
  }

  lemma FirstKept(live0: Extents, f: nat, live: Extents, fs: seq<nat>)
    requires IsHeapFrame(f) && f - HEAP_FRAME !in live0 && Added(live0[f - HEAP_FRAME := 1], live, fs)
    ensures AllSingle(live, [f] + fs) && f !in fs && Grown(live0, live)
  {
    hide Distinct;
    var live1 := live0[f - HEAP_FRAME := 1];
    assert f - HEAP_FRAME in live1 && live1[f - HEAP_FRAME] == 1;
    forall i | 0 <= i < |[f] + fs| ensures Single(live, ([f] + fs)[i]) {
      assert i > 0 ==> Single(live, fs[i - 1]);
    }
    forall s | s in live0 ensures s in live && live[s] == live0[s] {
      assert s in live1 && live1[s] == live0[s];
    }
  }

  lemma FirstDistinct(f: nat, fs: seq<nat>)
    requires Distinct(fs) && f !in fs
    ensures Distinct([f] + fs)
  {
  }

  lemma BlocksAreNew(live0: Extents, live1: Extents, live: Extents, fs: seq<nat>)
    requires Grown(live0, live1) && Added(live1, live, fs)
    ensures forall b: nat | b in BlocksOf(fs) :: b !in live0
  {
    forall b: nat | b in BlocksOf(fs) ensures b !in live0 {
      BlocksOfMember(fs, b);
    }
  }

  /** A page structure of new blocks that maps every page to itself for reading, behind writeable directory entries. */
  ghost predicate TaskSpace(m: seq<byte>, live0: Extents, live: Extents, chunk: u32) {
    && |m| == RAM_BYTES && chunk % PAGE == 0 && chunk / PAGE < FRAMES && Chunk(m, live, chunk / PAGE)
    && (forall p: nat :: p < FRAMES ==> View(m, chunk / PAGE)[p] == PAGE * p + USER_READ)
    && (forall i: nat :: i < ENTRIES ==> Word(FrameOf(m, DirOf(m, chunk / PAGE)), i) % PAGE == USER_WRITE)
    && (forall b: nat | b in ChunkBlocks(m, chunk / PAGE) :: b !in live0)
  }

  /** Edits of a new page structure disturb nothing from before it. */
  lemma EditsOfNew(t: Table, live0: Extents, live: Extents, m0: seq<byte>, m: seq<byte>, m': seq<byte>, c: nat)
    requires |m0| == |m| == |m'| == RAM_BYTES && |t| == HEAP_BLOCKS && Decodes(t, live) && Chunk(m, live, c)
    requires Grown(live0, live) && Preserved(live0, m0, m) && OnlyTables(m, m', c)
    requires forall b: nat | b in ChunkBlocks(m, c) :: b !in live0
    ensures Preserved(live0, m0, m')
  {
    hide Word, FrameOf, Decodes, BlocksOf;
    ChunkFramesAre(m, live, c);
    forall f: nat | f < FRAMES && Held(live0, f) ensures SameFrame(m0, m', f) {
      assert SameFrame(m0, m, f);
      forall i: nat | i < ENTRIES ensures Tab(m, DirOf(m, c), i) != f {
        var b := ChunkFrames(m, c)[i + 1] - HEAP_FRAME;
        assert Single(live, ChunkFrames(m, c)[i + 1]);
        BlocksOfMember(ChunkFrames(m, c), b);
        assert Covers(live, b, b);
        NewNotHeld(t, live0, live, b, b);
      }
      assert SameFrame(m, m', f);
    }
  }

  /** The memory of a new process: structure, program and stack in new blocks, mapped as intended. */
  method BuildSpace(k: Machine, ptr: u32, size: u32, stack: u32, chunk: u32,
                    ghost live0: Extents, ghost m0: seq<byte>, ghost live1: Extents, ghost m1: seq<byte>)
                      returns (s: Space)
    requires k.Valid() && |m0| == |m1| == RAM_BYTES && TaskSpace(k.ram[..], live1, k.heap.live, chunk)
    requires Grown(live0, live1) && Grown(live1, k.heap.live) && Preserved(live0, m0, k.ram[..])
    requires Preserved(live1, m1, k.ram[..])
    requires 0 < size <= 0xffff_f000 && Allocation(live1, ptr, BlocksFor(size)) && Allocation(live1, stack, STACK_PAGES)
    requires ptr != stack && ptr / PAGE - HEAP_FRAME !in live0 && stack / PAGE - HEAP_FRAME !in live0
    modifies k.ram
    ensures s == Space(chunk, ptr, size, stack) && k.Valid() && Loaded(k.ram[..], k.heap.live, s)
    ensures Preserved(live0, m0, k.ram[..]) && Preserved(live1, m1, k.ram[..])
    ensures forall b: nat | b in WritableStarts(s) || b in ChunkBlocks(k.ram[..], chunk / PAGE) :: b !in live0
  {
    hide Word, FrameOf, Chunk, View, DirOf, ChunkFrames, OnlyTables, BlocksFor, EntryOf, BlocksOf, Preserved, Decodes;
    ghost var m, live := k.ram[..], k.heap.live;
    s := Space(chunk, ptr, size, stack);
    AllocationGrows(live1, live, ptr, BlocksFor(size));
    AllocationGrows(live1, live, stack, STACK_PAGES);
    MapMemory(k, s);
    GrownTrans(live0, live1, live);
    GrownNew(live0, live1, ChunkBlocks(m, chunk / PAGE));
    EditsOfNew(k.heap.entries[..], live0, live, m0, m, k.ram[..], chunk / PAGE);
    EditsOfNew(k.heap.entries[..], live1, live, m1, m, k.ram[..], chunk / PAGE);
    DirectoryKept(m, k.ram[..], live, chunk / PAGE);
    assert ChunkBlocks(k.ram[..], chunk / PAGE) == ChunkBlocks(m, chunk / PAGE);
  }

  lemma AllocationGrows(live: Extents, live': Extents, p: u32, n: nat)
    requires Allocation(live, p, n) && Grown(live, live')
    ensures Allocation(live', p, n)
  {
  }

  lemma GrownTrans(live0: Extents, live1: Extents, live: Extents)
    requires Grown(live0, live1) && Grown(live1, live)
    ensures Grown(live0, live)
  {
  }

  lemma GrownNew(live0: Extents, live1: Extents, bs: set<int>)
    requires Grown(live0, live1) && forall b: nat | b in bs :: b !in live1
    ensures forall b: nat | b in bs :: b !in live0
  {
  }

  lemma DirectoryKept(m: seq<byte>, m': seq<byte>, live: Extents, c: nat)
    requires |m| == |m'| == RAM_BYTES && Chunk(m, live, c) && OnlyTables(m, m', c) && DirOf(m', c) == DirOf(m, c)
    ensures FrameOf(m', DirOf(m', c)) == FrameOf(m, DirOf(m, c))
  {
    hide Word, FrameOf;
    SingleIsHeld(live, DirOf(m, c));
    assert SameFrame(m, m', DirOf(m, c));
  }

  /** Bytes of a live allocation are kept by whatever disturbs no held frame. */
  lemma AllocationKept(live: Extents, m: seq<byte>, m': seq<byte>, p: u32, n: nat, a: nat)
    requires |m| == |m'| == RAM_BYTES && Allocation(live, p, n) && Preserved(live, m, m') && p <= a < p + PAGE * n
    ensures a < RAM_BYTES && m'[a] == m[a]
  {
    var f := a / PAGE;
    assert Covers(live, p / PAGE - HEAP_FRAME, f - HEAP_FRAME);
    assert SameFrame(m, m', f);
    assert FrameOf(m, f)[a % PAGE] == m[a] && FrameOf(m', f)[a % PAGE] == m'[a];
  }

  lemma FileKept(live: Extents, m: seq<byte>, m': seq<byte>, p: u32, v: Volume, c: nat, size: u32)
    requires |m| == |m'| == RAM_BYTES && 0 < size <= 0xffff_f000 && Allocation(live, p, BlocksFor(size))
    requires Preserved(live, m, m') && HoldsFile(m, p, v, c, size)
    ensures HoldsFile(m', p, v, c, size)
  {
    AllocationHolds(live, p, size);
    hide BlocksFor, Preserved, HasByte, ChainByte;
    forall a: nat | p <= a < p + size ensures a < RAM_BYTES && m'[a] == m[a] {
      AllocationKept(live, m, m', p, BlocksFor(size), a);
    }
    forall i: nat | i < size ensures HasByte(v, AsWritten, c, i) && m'[p + i] == ChainByte(v, AsWritten, c, i) {
      assert m'[p + i] == m[p + i];
    }
  }

  /** `process_load_for_slot` from the stack on. */
  method LoadRest(k: Machine, blocks: seq<Task>, ghost s: seq<Task>, process: Process, path: seq<byte>,
                  ghost live0: Extents, ghost t0: Table, ghost m0: seq<byte>,
                  ghost used: nat, ghost v: Volume, ghost c: nat) returns (res: int, task: Task?, ghost space: Space)
    requires Since(k, live0, t0, m0, used) && RoomFor(t0, used + STACK_PAGES + TASK_BLOCKS)
    requires OneTaskPerBlock(blocks) && ListLive(blocks, live0, s)
    requires 0 < process.size <= 0xffff_f000 && Allocation(k.heap.live, process.ptr, BlocksFor(process.size))
    requires process.ptr / PAGE - HEAP_FRAME !in live0 && HoldsFile(k.ram[..], process.ptr, v, c, process.size)
    modifies k.heap, k.heap.entries, k.ram, Spare(blocks, s), process`filename, process`stack, process`task
    ensures k.Valid() && k.heap.spill == old(k.heap.spill)
    ensures Grown(live0, k.heap.live) && Preserved(live0, m0, k.ram[..])
    ensures res == 0 || res == -ENOMEM
    ensures Fits(t0, used + STACK_PAGES + TASK_BLOCKS) ==> res == 0
    ensures res == 0 ==>
      && task != null && task in blocks && task !in s && task.next == null && task.prev == null && process.task == task
      && ListLive(blocks, k.heap.live, s + [task])
      && space == Space(task.pageDirectory, process.ptr, process.size, process.stack)
      && Loaded(k.ram[..], k.heap.live, space)
      && (forall b: nat | b in WritableStarts(space) || b in ChunkBlocks(k.ram[..], space.chunk / PAGE) :: b !in live0)
      && HoldsFile(k.ram[..], process.ptr, v, c, process.size)
  {
    hide Decodes, Preserved, RoomLeft, Fits, BlocksFor, FreeBlocks, HoldsFile, Grown, Loaded, TaskSpace, ChunkBlocks;
    hide WritableStarts;
    hide RoomFor, Honest, OneTaskPerBlock, Added, StartBlock, ListLive;
    Sizes();
    task, space := null, Space(0, 0, 0, 0);
    ghost var liveA, mA := k.heap.live, k.ram[..];
    RoomSince(k, live0, t0, m0, used, used + STACK_PAGES + TASK_BLOCKS, STACK_PAGES);
    var stack := Take(k, STACK_SIZE, live0, t0, m0, used);
    if stack == 0 {
      return -ENOMEM, null, space;
    }
    ghost var live1, t1, m1 := k.heap.live, k.heap.entries[..], k.ram[..];
    FileKept(liveA, mA, m1, process.ptr, v, c, process.size);
    AllocationGrows(liveA, live1, process.ptr, BlocksFor(process.size));
    NotInGrown(live0, liveA, stack / PAGE - HEAP_FRAME);
    process.filename := if |path| < MAX_PATH then path else path[..MAX_PATH - 1];
    process.stack := stack;
    RoomSince(k, live0, t0, m0, used + STACK_PAGES, used + STACK_PAGES + TASK_BLOCKS, TASK_BLOCKS);
    ListStaysLive(blocks, live0, live1, s);
    var newTask := NewTask(k, blocks, s, live0, t0, m0, used + STACK_PAGES);
    task := newTask;
    process.task := task;
    space := BuildSpace(k, process.ptr, process.size, stack, newTask.pageDirectory, live0, m0, live1, m1);
    FileKept(live1, m1, k.ram[..], process.ptr, v, c, process.size);
    res := 0;
  }

  /**
   A process with its task and its space, all in blocks that were not live before: mapped as intended, with the file of
   its path in its program pages.
   */
  ghost predicate NewProcess(s: FileSystem, blocks: seq<Task>, live0: Extents, path: seq<byte>, process: Process,
                             task: Task, space: Space)
    reads s, s.k, s.k.heap, s.k.ram, s.fat, s.dir, s.dir.items, process, task
  {
    && ITEM * s.dir.total <= s.dir.items.Length && s.fat.vol.Valid()
    && task in blocks && task.next == null && task.prev == null && process.task == task
    && space == Space(task.pageDirectory, process.ptr, process.size, process.stack)
    && process.size == FileBytes(s.dir.items[..], s.dir.total, path)
    && Loaded(s.k.ram[..], s.k.heap.live, space)
    && (forall b: nat | b in WritableStarts(space) || b in ChunkBlocks(s.k.ram[..], space.chunk / PAGE) :: b !in live0)
    && HoldsFile(s.k.ram[..], process.ptr, s.fat.vol, FileCluster(AsWritten, s.dir.items[..], s.dir.total, path),
       process.size)
  }

  /**
   The memory half of `process_load_for_slot`. With a run of free blocks long enough it succeeds exactly for a loadable
   file with a descriptor to be had, otherwise at most for those; the process then has a space of new blocks, mapped as
   intended, with the file in its program pages. In every case all earlier allocations and their contents are kept, no
   task of the list has changed, and the descriptor table is as before.
   */
  method LoadSpace(s: FileSystem, blocks: seq<Task>, ghost ring: seq<Task>, path: seq<byte>)
    returns (res: int, process: Process?, task: Task?, ghost space: Space)
    requires s.Mounted() && 0 !in path && FreeIndex(s.slots[..], 0) != MAX_FILE_DESCRIPTORS - 1
    requires OneTaskPerBlock(blocks) && ListLive(blocks, s.k.heap.live, ring)
    requires PlainPath(s.dir.items[..], s.dir.total, path)
    requires FileBytes(s.dir.items[..], s.dir.total, path) <= 0xffff_f000
    requires RoomFor(s.k.heap.entries[..], LoadRoom(s.dir.items[..], s.dir.total, path))
    modifies s.k.heap, s.k.heap.entries, s.k.ram, s.slots, s.fat.clusterStream, s.fat.fatStream, Spare(blocks, ring)
    ensures s.Mounted() && s.k.heap.spill == old(s.k.heap.spill) && s.slots[..] == old(s.slots[..])
    ensures Grown(old(s.k.heap.live), s.k.heap.live) && Preserved(old(s.k.heap.live), old(s.k.ram[..]), s.k.ram[..])
    ensures res == 0 || res == -EIO || res == -ENOMEM
    ensures res == 0 ==>
      Loadable(s.fat.vol, s.dir.items[..], s.dir.total, path) && FreeIndex(old(s.slots[..]), 0) < MAX_FILE_DESCRIPTORS
    ensures Fits(old(s.k.heap.entries[..]), LoadRoom(s.dir.items[..], s.dir.total, path)) ==>
      (res == 0 <==>
        Loadable(s.fat.vol, s.dir.items[..], s.dir.total, path)
          && FreeIndex(old(s.slots[..]), 0) < MAX_FILE_DESCRIPTORS)
    ensures res == 0 ==>
        process != null && fresh(process) && task != null && task !in ring
          && ListLive(blocks, s.k.heap.live, ring + [task])
    ensures res == 0 ==> NewProcess(s, blocks, old(s.k.heap.live), path, process, task, space)
  {
    hide Decodes, Preserved, RoomLeft, Fits, BlocksFor, Tame, ItemAt, FreeBlocks, FreeIndex, HoldsFile, Grown, Loadable;
    hide FileBytes, FileCluster, Loaded, TaskSpace, ChunkBlocks, WritableStarts;
    hide RoomFor, Honest, PlainPath, OneTaskPerBlock, BinaryRoom, FileSystem.OfDisk, ListLive;
    ghost var live0, t0, m0, items := s.k.heap.live, s.k.heap.entries[..], s.k.ram[..], s.dir.items[..];
    ghost var room := BinaryRoom(items, s.dir.total, path);
    task, space := null, Space(0, 0, 0, 0);
    res, process := LoadImage(s, path);
    assert s.dir.items[..] == items;
    if res < 0 {
      return;
    }
    res, task, space := LoadRest(s.k, blocks, ring, process, path, live0, t0, m0, 2 + room, s.fat.vol,
      FileCluster(AsWritten, items, s.dir.total, path));
  }

  /** Up to the binary: the memory of the process object, and the file loaded for it. */
  method LoadImage(s: FileSystem, path: seq<byte>) returns (res: int, process: Process?)
    requires s.Mounted() && 0 !in path && FreeIndex(s.slots[..], 0) != MAX_FILE_DESCRIPTORS - 1
    requires PlainPath(s.dir.items[..], s.dir.total, path)
    requires FileBytes(s.dir.items[..], s.dir.total, path) <= 0xffff_f000
    requires RoomFor(s.k.heap.entries[..], LoadRoom(s.dir.items[..], s.dir.total, path))
    modifies s.k.heap, s.k.heap.entries, s.k.ram, s.slots, s.fat.clusterStream, s.fat.fatStream
    ensures s.Mounted() && s.k.heap.spill == old(s.k.heap.spill) && s.slots[..] == old(s.slots[..])
    ensures Grown(old(s.k.heap.live), s.k.heap.live) && Preserved(old(s.k.heap.live), old(s.k.ram[..]), s.k.ram[..])
    ensures res == 0 || res == -EIO || res == -ENOMEM
    ensures res == 0 ==>
      Loadable(s.fat.vol, s.dir.items[..], s.dir.total, path) && FreeIndex(old(s.slots[..]), 0) < MAX_FILE_DESCRIPTORS
    ensures Fits(old(s.k.heap.entries[..]), LoadRoom(s.dir.items[..], s.dir.total, path)) ==>
      (res == 0 <==>
        Loadable(s.fat.vol, s.dir.items[..], s.dir.total, path)
          && FreeIndex(old(s.slots[..]), 0) < MAX_FILE_DESCRIPTORS)
    ensures res == 0 ==> process != null && fresh(process)
    ensures res == 0 ==>
      && Since(s.k, old(s.k.heap.live), old(s.k.heap.entries[..]), old(s.k.ram[..]),
               2 + BinaryRoom(s.dir.items[..], s.dir.total, path))
      && process.size == FileBytes(s.dir.items[..], s.dir.total, path) > 0
      && Allocation(s.k.heap.live, process.ptr, BlocksFor(process.size))
      && process.ptr / PAGE - HEAP_FRAME !in old(s.k.heap.live)
      && HoldsFile(s.k.ram[..], process.ptr, s.fat.vol, FileCluster(AsWritten, s.dir.items[..], s.dir.total, path),
         process.size)
  {
    hide Decodes, Preserved, RoomLeft, Fits, BlocksFor, Tame, ItemAt, FreeBlocks, FreeIndex, HoldsFile, Grown, Loadable;
    hide FileBytes, FileCluster, RoomFor, Honest, PlainPath, BinaryRoom, FileSystem.OfDisk;
    ghost var live0, t0, m0, items := s.k.heap.live, s.k.heap.entries[..], s.k.ram[..], s.dir.items[..];
    ghost var room, whole := BinaryRoom(items, s.dir.total, path), LoadRoom(items, s.dir.total, path);
    Sizes();
    process := null;
    SinceNow(s.k);
    RoomSince(s.k, live0, t0, m0, 0, whole, 2);
    var addr := Take(s.k, SIZEOF_PROCESS, live0, t0, m0, 0);
    if addr == 0 {
      return -ENOMEM, process;
    }
    process := new Process(addr);
    ghost var live1, t1, m1 := s.k.heap.live, s.k.heap.entries[..], s.k.ram[..];
    assert s.dir.items[..] == items;
    RoomSince(s.k, live0, t0, m0, 2, whole, room);
    res := LoadBinary(s, path, process);
    assert s.dir.items[..] == items;
    SinceStep(s.k, live0, t0, m0, 2, live1, t1, m1, room);
    if res == 0 {
      NotInGrown(live0, live1, process.ptr / PAGE - HEAP_FRAME);
    }
  }

  lemma Sizes()
    ensures BlocksFor(SIZEOF_PROCESS) == 2 && BlocksFor(STACK_SIZE) == STACK_PAGES
  {
  }
}
