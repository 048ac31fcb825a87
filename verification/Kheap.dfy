/** Physical memory and the kernel heap in it. */
module Kheap {
  import opened Words
  import opened HeapTable
  import opened HeapRuns
  import opened Heap

  const HEAP_ADDRESS := 0x0100_0000
  const HEAP_BLOCKS := 25600
  const HEAP_FRAME := 4096  // HEAP_ADDRESS / PAGE
  const FRAMES := 0x10_0000
  const RAM_BYTES := 0x1_0000_0000

  predicate IsHeapFrame(f: nat) { HEAP_FRAME <= f < HEAP_FRAME + HEAP_BLOCKS }

  /** Frame f is outside the heap or belongs to a live allocation. */
  ghost predicate Held(live: Extents, f: nat) {
    IsHeapFrame(f) ==> Covered(live, f - HEAP_FRAME)
  }

  ghost predicate SameFrame(m: seq<byte>, m': seq<byte>, f: nat)
    requires |m| == |m'| == RAM_BYTES
  {
    f < FRAMES ==> FrameOf(m, f) == FrameOf(m', f)
  }

  /** Only frames that were free heap blocks differ. */
  ghost predicate Preserved(live: Extents, m: seq<byte>, m': seq<byte>)
    requires |m| == |m'| == RAM_BYTES
  {
    forall f: nat :: f < FRAMES && Held(live, f) ==> SameFrame(m, m', f)
  }

  /** Every allocation of live is still one of live'. */
  ghost predicate Grown(live: Extents, live': Extents) {
    forall s | s in live :: s in live' && live'[s] == live[s]
  }

  lemma FrameBlock(f: nat)
    requires IsHeapFrame(f)
    ensures PAGE * f >= HEAP_ADDRESS && (PAGE * f - HEAP_ADDRESS) / PAGE == f - HEAP_FRAME
    ensures PAGE * f == HEAP_ADDRESS + PAGE * (f - HEAP_FRAME) < HEAP_ADDRESS + 0x8000_0000
  {
  }

  lemma SameOutside(m: seq<byte>, m': seq<byte>, f: nat, lo: nat, hi: nat)
    requires |m| == |m'| == RAM_BYTES
    requires forall a :: 0 <= a < RAM_BYTES && !(lo <= a < hi) ==> m'[a] == m[a]
    requires PAGE * f + PAGE <= lo || hi <= PAGE * f
    ensures SameFrame(m, m', f)
  {
    if f < FRAMES {
      forall i | 0 <= i < PAGE ensures FrameOf(m, f)[i] == FrameOf(m', f)[i] {
        assert m'[PAGE * f + i] == m[PAGE * f + i];
      }
    }
  }

  lemma GrownKeepsHeld(live: Extents, live': Extents, f: nat)
    requires Grown(live, live') && Held(live, f)
    ensures Held(live', f)
  {
    if IsHeapFrame(f) {
      var s: nat :| Covers(live, s, f - HEAP_FRAME);
      assert Covers(live', s, f - HEAP_FRAME);
    }
  }

  lemma PreservedTrans(live: Extents, m: seq<byte>, live': Extents, m': seq<byte>, m'': seq<byte>)
    requires |m| == |m'| == |m''| == RAM_BYTES
    requires Grown(live, live') && Preserved(live, m, m') && Preserved(live', m', m'')
    ensures Preserved(live, m, m'')
  {
    forall f: nat | f < FRAMES && Held(live, f) ensures SameFrame(m, m'', f) {
      GrownKeepsHeld(live, live', f);
      assert SameFrame(m, m', f) && SameFrame(m', m'', f);
    }
  }

  lemma NothingDone(live: Extents, m: seq<byte>)
    requires |m| == RAM_BYTES
    ensures Grown(live, live) && Preserved(live, m, m)
  {
  }

  /** Writing only inside blocks that were free disturbs no held frame. */
  lemma WriteInFreeBlocks(t: Table, live: Extents, m: seq<byte>, m': seq<byte>, s: nat, n: nat)
    requires |m| == |m'| == RAM_BYTES && |t| == HEAP_BLOCKS
    requires Decodes(t, live) && FreeRun(t, s, n)
    requires forall a :: 0 <= a < RAM_BYTES && !(HEAP_ADDRESS + PAGE * s <= a < HEAP_ADDRESS + PAGE * (s + n)) ==>
        m'[a] == m[a]
    ensures Preserved(live, m, m')
  {
    forall f: nat | f < FRAMES && Held(live, f) ensures SameFrame(m, m', f) {
      if HEAP_FRAME + s <= f < HEAP_FRAME + s + n {
        FreeIsUncovered(t, live, f - HEAP_FRAME);
      }
      SameOutside(m, m', f, HEAP_ADDRESS + PAGE * s, HEAP_ADDRESS + PAGE * (s + n));
    }
  }

  /** The heap can serve n blocks, or will refuse them cleanly. */
  ghost predicate Honest(t: Table, n: nat) { Fits(t, n) || LastTaken(t) }

  /** A request of size bytes was served at address p: the first fit of its blocks is taken, and recorded as live. */
  ghost predicate Served(t: Table, live: Extents, t': Table, live': Extents, size: u32, p: u32) {
    var n, s := BlocksFor(size), (p - HEAP_ADDRESS) / PAGE;
    && s >= 0 && p == HEAP_ADDRESS + PAGE * s && s + n <= HEAP_BLOCKS
    && s == StartBlock(t, n) && IsFirstFit(t, n, s) && t' == Mark(t, s, n)
    && s !in live && live' == live[s := n]
  }

  /** The answer to a request of no bytes: the free run that ends the table, or null. */
  function TrailingBlock(t: Table): int {
    if LastTaken(t) then 0 else HEAP_ADDRESS + PAGE * TailStart(t)
  }

  lemma ServedFrames(t: Table, live: Extents, t': Table, live': Extents, size: u32, p: u32)
    requires 0 < size <= 0xffff_f000 && Served(t, live, t', live', size, p)
    ensures var n, s := BlocksFor(size), (p - HEAP_ADDRESS) / PAGE;
      && s >= 0 && n >= 1 && size <= PAGE * n && FreeRun(t, s, n) && p + PAGE * n <= RAM_BYTES && Grown(live, live')
      && p == HEAP_ADDRESS + PAGE * s && p + size <= RAM_BYTES
  {
    BlocksForExact(size);
  }

  /** The kernel heap (`kernel_heap`, `kernel_heap_table`) and the memory it manages. */
  class Machine {
    const heap: BlockHeap
    const ram: array<byte>

    ghost predicate Valid()
      reads this, heap, heap.entries
    {
      && heap.Valid() && heap.saddr == HEAP_ADDRESS && heap.entries.Length == HEAP_BLOCKS
      && ram.Length == RAM_BYTES
    }

    /** `kheap_init`: 100 MiB from 16 MiB on; the geometry passes every test of `heap_create`. */
    constructor (memory: array<byte>)
      requires memory.Length == RAM_BYTES
      ensures Valid() && ram == memory && heap.live == map[] && fresh(heap) && fresh(heap.entries)
      ensures heap.spill == map[]
    {
      var table := new Entry[HEAP_BLOCKS];
      var res, h := Create(HEAP_ADDRESS, HEAP_ADDRESS + HEAP_BLOCKS * PAGE, table);
      heap, ram := h, memory;
    }

    /** `memset` to zero. */
    method Zero(p: nat, size: nat)
      requires p + size <= ram.Length
      modifies ram
      ensures forall a :: 0 <= a < ram.Length ==> ram[a] == if p <= a < p + size then 0 else old(ram[a])
    {
      var i := 0;
      while i < size
        invariant 0 <= i <= size
        invariant forall a :: 0 <= a < ram.Length ==> ram[a] == if p <= a < p + i then 0 else old(ram[a])
      {
        ram[p + i] := 0;
        i := i + 1;
      }
    }

    /**
     `kmalloc`: a new allocation of the rounded-up block count at the first fit. Null, with nothing changed, when no
     such run of blocks is free and the last block is taken. A request that rounds to no blocks may return a pointer,
     but takes nothing. One that the search does not refuse as it should marks the trailing run and as much past the
     table.
     */
    method Kmalloc(size: u32) returns (p: u32)
      requires Valid()
      modifies heap, heap.entries
      ensures BlocksFor(size) == 0 || Honest(old(heap.entries[..]), BlocksFor(size)) ==>
          Valid() && heap.spill == old(heap.spill)
      ensures BlocksFor(size) == 0 || (p == 0 && Honest(old(heap.entries[..]), BlocksFor(size))) ==>
        heap.entries[..] == old(heap.entries[..]) && heap.live == old(heap.live)
      ensures BlocksFor(size) == 0 ==> p == TrailingBlock(old(heap.entries[..]))
      ensures BlocksFor(size) > 0 && Honest(old(heap.entries[..]), BlocksFor(size)) ==>
        (p == 0 <==> !Fits(old(heap.entries[..]), BlocksFor(size)))
      ensures BlocksFor(size) > 0 && p != 0 && Honest(old(heap.entries[..]), BlocksFor(size)) ==>
        Served(old(heap.entries[..]), old(heap.live), heap.entries[..], heap.live, size, p)
      ensures BlocksFor(size) > 0 && !Honest(old(heap.entries[..]), BlocksFor(size)) ==>
        && p == HEAP_ADDRESS + PAGE * TailStart(old(heap.entries[..]))
        && heap.entries[..] == Mark(old(heap.entries[..]), TailStart(old(heap.entries[..])), BlocksFor(size))
    {
      hide FirstFitFrom, Decodes, TailStart, Mark;
      ghost var t := heap.entries[..];
      BlocksForExact(size);
      TailStartIsTail(t);
      p := heap.Malloc(size);
    }

    /** `kzalloc`: as `kmalloc`, and the first `size` bytes are zero; no other byte and so no held frame changes. */
    method Kzalloc(size: u32) returns (p: u32)
      requires Valid()
      requires size <= 0xffff_f000 && (size > 0 ==> Honest(heap.entries[..], BlocksFor(size)))
      modifies heap, heap.entries, ram
      ensures Valid() && heap.spill == old(heap.spill)
      ensures size == 0 || p == 0 ==>
        heap.entries[..] == old(heap.entries[..]) && heap.live == old(heap.live) && ram[..] == old(ram[..])
      ensures size == 0 ==> p == TrailingBlock(old(heap.entries[..]))
      ensures size > 0 ==> (p == 0 <==> !Fits(old(heap.entries[..]), BlocksFor(size)))
      ensures p != 0 && size > 0 ==>
        && Served(old(heap.entries[..]), old(heap.live), heap.entries[..], heap.live, size, p)
        && forall a :: 0 <= a < RAM_BYTES ==> ram[a] == if p <= a < p + size then 0 else old(ram[a])
      ensures Grown(old(heap.live), heap.live) && Preserved(old(heap.live), old(ram[..]), ram[..])
    {
      hide BlocksFor, IsFirstFit, Honest, Mark, Decodes;
      ghost var t, live := heap.entries[..], heap.live;
      BlocksForExact(size);
      p := Kmalloc(size);
      if p == 0 {
        return;
      }
      if size > 0 {
        ServedFrames(t, live, heap.entries[..], heap.live, size, p);
      }
      Zero(p, size);
      if size > 0 {
        WriteInFreeBlocks(t, live, old(ram[..]), ram[..], (p - HEAP_ADDRESS) / PAGE, BlocksFor(size));
      }
    }

    /** `kfree`: exactly a live allocation goes, and nothing when the block is free; memory is not touched. */
    method Kfree(p: u32)
      requires Valid() && HEAP_ADDRESS <= p < HEAP_ADDRESS + 0x8000_0000
      modifies heap`live, heap.entries
      ensures (p - HEAP_ADDRESS) / PAGE in old(heap.live) || !Covered(old(heap.live), (p - HEAP_ADDRESS) / PAGE) ==>
        Valid() && heap.live == old(heap.live) - {(p - HEAP_ADDRESS) / PAGE}
      ensures (p - HEAP_ADDRESS) / PAGE in old(heap.live) ==>
        heap.entries[..] ==
          Cleared(old(heap.entries[..]), (p - HEAP_ADDRESS) / PAGE, old(heap.live)[(p - HEAP_ADDRESS) / PAGE])
      ensures !Covered(old(heap.live), (p - HEAP_ADDRESS) / PAGE) ==> heap.entries[..] == old(heap.entries[..])
    {
      hide Decodes, Release, BlockHeap.AddressToBlock;
      heap.AddressToBlockExact(p);
      heap.Free(p);
    }
  }
}
