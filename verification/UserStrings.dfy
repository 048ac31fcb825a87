/** Strings of loaded processes, copied out by a kernel that stays valid. */
module UserStrings {
  import opened Words
  import opened HeapTable
  import opened HeapRuns
  import opened Heap
  import opened Kheap
  import opened PageTables
  import opened Paging
  import opened PagingChunks
  import opened AddressSpace
  import opened Tasks
  import opened Files
  import opened Processes
  import opened TaskCopy
  import opened KernelState

  /** Bytes phys..phys + n are in no page structure of the processes. */
  ghost predicate ClearOfAll(m: seq<byte>, spaces: seq<Space>, phys: nat, n: nat)
    requires |m| == RAM_BYTES
  {
    forall i: nat :: i < |spaces| ==> spaces[i].chunk / PAGE < FRAMES && ClearOf(m, spaces[i].chunk / PAGE, phys, n)
  }

  /** Two stretches that are clear of a page structure are written, and nothing else. */
  lemma TwoWritesKeep(m: seq<byte>, m': seq<byte>, c: nat, p: nat, phys: nat, n: nat)
    requires |m| == |m'| == RAM_BYTES && c < FRAMES && ClearOf(m, c, PAGE * p, PAGE) && ClearOf(m, c, phys, n)
    requires forall a: nat :: a < RAM_BYTES && a / PAGE != p && !(phys <= a < phys + n) ==> m'[a] == m[a]
    ensures StructureKept(m, m', c)
  {
    hide ChunkFrames;
    forall i | 0 <= i < |ChunkFrames(m, c)| ensures SameFrame(m, m', ChunkFrames(m, c)[i]) {
      var f := ChunkFrames(m, c)[i];
      if f < FRAMES {
        forall j | 0 <= j < PAGE ensures FrameOf(m, f)[j] == FrameOf(m', f)[j] {
          assert (PAGE * f + j) / PAGE == f;
          assert m'[PAGE * f + j] == m[PAGE * f + j];
        }
      }
    }
  }

  /** A loaded process stays loaded while its page structure is kept. */
  lemma LoadedKept(m: seq<byte>, m': seq<byte>, live: Extents, s: Space)
    requires |m| == |m'| == RAM_BYTES && Loaded(m, live, s) && StructureKept(m, m', s.chunk / PAGE)
    ensures Loaded(m', live, s) && ChunkBlocks(m', s.chunk / PAGE) == ChunkBlocks(m, s.chunk / PAGE)
  {
    var c := s.chunk / PAGE;
    MapKept(m, m', live, c);
    assert SameFrame(m, m', ChunkFrames(m, c)[0]) && ChunkFrames(m, c)[0] == DirOf(m, c);
    hide Word, Chunk, View, EntryOf, ChunkFrames, DirOf, BlocksOf, FrameOf;
  }

  /** All maps stay as they are and apart. */
  lemma AllKept(t: Table, m: seq<byte>, m': seq<byte>, live: Extents, kc: u32, spaces: seq<Space>, p: nat, phys: nat,
                n: nat)
    requires |m'| == RAM_BYTES && Decodes(t, live) && MapsApart(m, live, kc, spaces)
    requires ClearOf(m, kc / PAGE, phys, n) && ClearOfAll(m, spaces, phys, n)
    requires IsHeapFrame(p) && !Held(live, p)
    requires forall a: nat :: a < RAM_BYTES && a / PAGE != p && !(phys <= a < phys + n) ==> m'[a] == m[a]
    ensures MapsApart(m', live, kc, spaces)
  {
    hide Loaded, Chunk, ChunkBlocks, WritableStarts, StructureKept, ClearOf, Decodes, IdentityFrames;
    if p - HEAP_FRAME in live {
      LiveIsCovered(t, live, p - HEAP_FRAME);
    }
    KernelKept(m, m', live, kc, p, phys, n);
    forall i: nat | i < |spaces|
      ensures Loaded(m', live, spaces[i]) && spaces[i].chunk / PAGE < FRAMES
      ensures ChunkBlocks(m', spaces[i].chunk / PAGE) == ChunkBlocks(m, spaces[i].chunk / PAGE)
    {
      var c := spaces[i].chunk / PAGE;
      LoadedFacts(m, live, spaces[i]);
      NewFrameClear(m, live, c, p, PAGE);
      TwoWritesKeep(m, m', c, p, phys, n);
      LoadedKept(m, m', live, spaces[i]);
    }
    forall i: nat, j: nat | i < j < |spaces| ensures Apart(m', spaces[i], spaces[j]) {
      assert Apart(m, spaces[i], spaces[j]);
    }
    forall i: nat | i < |spaces| ensures KernelApart(m', kc, spaces[i]) {
      assert KernelApart(m, kc, spaces[i]);
    }
  }

  lemma KernelKept(m: seq<byte>, m': seq<byte>, live: Extents, kc: u32, p: nat, phys: nat, n: nat)
    requires |m'| == RAM_BYTES && KernelMap(m, live, kc) && ClearOf(m, kc / PAGE, phys, n)
    requires IsHeapFrame(p) && p - HEAP_FRAME !in live
    requires forall a: nat :: a < RAM_BYTES && a / PAGE != p && !(phys <= a < phys + n) ==> m'[a] == m[a]
    ensures KernelMap(m', live, kc) && ChunkBlocks(m', kc / PAGE) == ChunkBlocks(m, kc / PAGE)
  {
    hide Chunk, View, ChunkFrames, ClearOf, StructureKept, DirOf;
    NewFrameClear(m, live, kc / PAGE, p, PAGE);
    TwoWritesKeep(m, m', kc / PAGE, p, phys, n);
    MapKept(m, m', live, kc / PAGE);
  }

  /**
   What the kernel asks before it copies max bytes of a string of the process with space s to phys: the string is the
   process's own, the buffer lies in no page structure, and the program is small enough to leave the kernel stack alone.
   */
  ghost predicate MayCopy(t: Table, m: seq<byte>, kc: u32, spaces: seq<Space>, s: Space, virtual: u32, phys: u32,
                          max: nat)
    requires |m| == RAM_BYTES && kc / PAGE < FRAMES && s.chunk / PAGE < FRAMES
  {
    var p, n := NextPageFrame(t, max), Span(max);
    && p >= 0 && OwnString(m, s, virtual, n) && BlocksFor(s.size) <= 511
    && phys + n <= RAM_BYTES && (phys + n <= PAGE * p || PAGE * p + PAGE <= phys)
    && ClearOf(m, kc / PAGE, phys, n) && ClearOfAll(m, spaces, phys, n)
  }

  /** The requirements of the copy follow from the validity of the kernel. */
  lemma CopyAllowed(t: Table, m: seq<byte>, live: Extents, kc: u32, spaces: seq<Space>, i: nat, virtual: u32, phys: u32,
                    max: nat)
    requires |t| == HEAP_BLOCKS && Decodes(t, live) && MapsApart(m, live, kc, spaces) && i < |spaces| && !NoPage(t, max)
    requires kc / PAGE < FRAMES && spaces[i].chunk / PAGE < FRAMES
    requires MayCopy(t, m, kc, spaces, spaces[i], virtual, phys, max)
    ensures var p, c := NextPageFrame(t, max), spaces[i].chunk / PAGE;
      && p >= 0 && IsHeapFrame(p) && !Held(live, p) && KernelStackMapped(m, c)
      && SourceAvoids(m, c, virtual, Span(max), p) && BufferClear(m, c, kc / PAGE, phys, Span(max), p)
  {
    hide Decodes, Loaded, NoPage, NextPageFrame, OwnString, SourceAvoids, ClearOf, KernelMap, KernelStackMapped;
    hide BlocksFor;
    NextPageFree(t, live, max);
    OwnStringAvoids(t, m, live, spaces[i], virtual, Span(max), NextPageFrame(t, max));
    KernelStackExact(m, live, spaces[i]);
  }

  /**
   A string in the program or stack of the process in a slot, copied out by `copy_string_from_task` in a valid kernel:
   the buffer gets the string as the process sees it, and the kernel stays valid, so that loads and copies can follow
   one another in any order.
   */
  method CopyFromProcess(kernel: Kernel, slot: nat, virtual: u32, phys: u32, max: nat) returns (res: int)
    requires kernel.Valid() && slot < MAX_PROCESSES && kernel.processes[slot] != null
    requires kernel.processes[slot].task.pageDirectory / PAGE < FRAMES && kernel.kernelChunk / PAGE < FRAMES
    requires max < PAGE && !NoPage(kernel.fsys.k.heap.entries[..], max) ==>
      MayCopy(kernel.fsys.k.heap.entries[..], kernel.fsys.k.ram[..], kernel.kernelChunk, kernel.spaces,
              SpaceOf(kernel.processes[slot]), virtual, phys, max)
    modifies kernel.fsys.k.heap, kernel.fsys.k.heap.entries, kernel.fsys.k.ram
    ensures kernel.Valid() && kernel.fsys.k.heap.entries[..] == old(kernel.fsys.k.heap.entries[..])
    ensures res ==
      if max >= PAGE then -EINVARG else if NoPage(old(kernel.fsys.k.heap.entries[..]), max) then -ENOMEM else 0
    ensures res != 0 ==> kernel.fsys.k.ram[..] == old(kernel.fsys.k.ram[..])
    ensures res == 0 ==>
      var m, c := old(kernel.fsys.k.ram[..]), kernel.processes[slot].task.pageDirectory / PAGE;
      StringOut(m, kernel.fsys.k.ram[..], c, virtual, phys, StringLength(m, c, virtual, Span(max) - 1),
                NextPageFrame(old(kernel.fsys.k.heap.entries[..]), max))
  {
    hide Decodes, MapsApart, Chunk, View, StringOut, IdentityFrames, MayCopy, SourceAvoids, BufferClear, NextPageFrame;
    hide NoPage, StringLength, KernelStackMapped, Scheduler.Sound, Kernel.SlotsTidy, OneTaskPerBlock, ListLive;
    hide FileSystem.OfDisk;
    ghost var t, m, live := kernel.fsys.k.heap.entries[..], kernel.fsys.k.ram[..], kernel.fsys.k.heap.live;
    ghost var i := SlotSpace(kernel, slot);
    var c, kc := kernel.processes[slot].task.pageDirectory / PAGE, kernel.kernelChunk / PAGE;
    if max < PAGE && !NoPage(t, max) {
      CopyAllowed(t, m, live, kernel.kernelChunk, kernel.spaces, i, virtual, phys, max);
    }
    res := CopyStringFromTask(kernel.fsys.k, c, kc, virtual, phys, max);
    if res == 0 {
      AfterCopy(t, m, kernel.fsys.k.ram[..], live, kernel.kernelChunk, kernel.spaces, i, virtual, phys, max);
    }
  }

  /** Where the space of a slot's process is among the spaces. */
  lemma SlotSpace(kernel: Kernel, slot: nat) returns (i: nat)
    requires kernel.Valid() && slot < MAX_PROCESSES && kernel.processes[slot] != null
    ensures kernel.processes[slot].task != null && i < |kernel.spaces|
    ensures kernel.spaces[i] == SpaceOf(kernel.processes[slot])
    ensures |kernel.fsys.k.ram[..]| == RAM_BYTES && kernel.spaces[i].chunk / PAGE < FRAMES
    ensures Chunk(kernel.fsys.k.ram[..], kernel.fsys.k.heap.live, kernel.spaces[i].chunk / PAGE)
    ensures KernelMap(kernel.fsys.k.ram[..], kernel.fsys.k.heap.live, kernel.kernelChunk)
  {
    hide Loaded, Chunk, Scheduler.Sound, OneTaskPerBlock, ListLive, FileSystem.OfDisk, KernelMap;
    var s := SpaceOf(kernel.processes[slot]);
    i :| i < |kernel.spaces| && kernel.spaces[i] == s;
    LoadedFacts(kernel.fsys.k.ram[..], kernel.fsys.k.heap.live, kernel.spaces[i]);
  }

  lemma AfterCopy(t: Table, m: seq<byte>, m': seq<byte>, live: Extents, kc: u32, spaces: seq<Space>, i: nat,
                  virtual: u32, phys: u32, max: nat)
    requires |t| == HEAP_BLOCKS && |m'| == RAM_BYTES && Decodes(t, live) && MapsApart(m, live, kc, spaces)
    requires i < |spaces|
    requires kc / PAGE < FRAMES && spaces[i].chunk / PAGE < FRAMES && !NoPage(t, max)
    requires MayCopy(t, m, kc, spaces, spaces[i], virtual, phys, max)
    requires var c := spaces[i].chunk / PAGE;
      StringOut(m, m', c, virtual, phys, StringLength(m, c, virtual, Span(max) - 1), NextPageFrame(t, max))
    ensures MapsApart(m', live, kc, spaces)
  {
    hide Decodes, MapsApart, NoPage, NextPageFrame, OwnString, ClearOf, ClearOfAll, StringLength, StringAt;
    NextPageFree(t, live, max);
    AllKept(t, m, m', live, kc, spaces, NextPageFrame(t, max), phys, Span(max));
  }
}
