/** The block heap: the table array, edited in place by the search, mark and release loops. */
module Heap {
  import opened Words
  import opened HeapTable
  import opened HeapRuns

  const EINVARG := 2

  class BlockHeap {
    const saddr: u32
    const entries: array<Entry>

    /** Bytes that marking wrote past the end of the table, by table index. */
    var spill: map<nat, Entry>

    ghost var live: Extents

    ghost predicate Valid()
      reads this, entries
    {
      && saddr % PAGE == 0
      && saddr + PAGE * entries.Length <= 0x1_0000_0000
      && Decodes(entries[..], live)
    }

    constructor (start: u32, table: array<Entry>)
      ensures saddr == start && entries == table && live == map[] && spill == map[]
    {
      saddr, entries, live, spill := start, table, map[], map[];
    }

    /** `heap_get_start_block`: the scan with its counters `bc` and `bs`. */
    method GetStartBlock(totalBlocks: nat) returns (r: int)
      ensures r == StartBlock(entries[..], totalBlocks)
    {
      var bc, bs := 0, -1;
      var i := 0;
      ghost var t := entries[..];
      while i < entries.Length
        invariant 0 <= i <= entries.Length
        invariant bs == -1 ==> bc == 0 && (i == 0 || !IsFree(t[i - 1]))
        invariant bs != -1 ==> 0 <= bs < i && bc == i - bs && FreeRun(t, bs, bc) && (bs > 0 ==> !IsFree(t[bs - 1]))
        invariant totalBlocks >= 1 ==> bc < totalBlocks
        invariant totalBlocks >= 1 ==> forall s: nat :: s + totalBlocks <= i ==> !FreeRun(t, s, totalBlocks)
      {
        if !IsFree(entries[i]) {
          assert totalBlocks >= 1 ==> forall s: nat :: s + totalBlocks == i + 1 ==> !FreeRun(t, s, totalBlocks) by {
            assert !IsFree(t[i]);
          }
          bc, bs, i := 0, -1, i + 1;
          continue;
        }
        if bs == -1 {
          bs := i;
        }
        bc := bc + 1;
        if bc == totalBlocks {
          FirstFitFromIsLeast(t, totalBlocks, 0);
          assert FreeRun(t, bs, totalBlocks);
          break;
        }
        assert totalBlocks >= 1 && i + 1 >= totalBlocks ==> !FreeRun(t, i + 1 - totalBlocks, totalBlocks) by {
          if totalBlocks >= 1 && i + 1 >= totalBlocks {
            assert i + 1 - totalBlocks <= bs - 1 < i + 1;
          }
        }
        i := i + 1;
      }
      if i == entries.Length {
        TailStartUnique(t, if bs == -1 then i else bs);
      }
      if bs == -1 {
        return -ENOMEM;
      }
      return bs;
    }

    /** `heap_block_to_address` */
    function BlockToAddress(block: nat): nat { saddr + block * PAGE }

    /** `heap_address_to_block`: the distance is cast to a signed number, and the division truncates towards zero. */
    function AddressToBlock(address: u32): int {
      CDiv(Signed32((address - saddr) % 0x1_0000_0000), PAGE)
    }

    /**
      For 2 GiB from the start of the heap on that is the block the address lies in; below a block's length it is 0.
    */
    lemma AddressToBlockExact(address: u32)
      ensures saddr <= address < saddr + 0x8000_0000 ==> AddressToBlock(address) == (address - saddr) / PAGE
      ensures saddr - PAGE < address < saddr ==> AddressToBlock(address) == 0
      ensures AddressToBlock(address) < 0 <==> 0x8000_0000 <= (address - saddr) % 0x1_0000_0000 <= 0x1_0000_0000 - PAGE
    {
    }

    /** `heap_mark_blocks_taken`: nothing keeps the last indices inside the table. */
    method MarkBlocksTaken(startBlock: nat, totalBlocks: nat)
      modifies this`spill, entries
      ensures entries[..] == Mark(old(entries[..]), startBlock, totalBlocks)
      ensures forall i: nat :: i in spill <==>
          i in old(spill) || (entries.Length <= i && startBlock <= i < startBlock + totalBlocks)
      ensures startBlock + totalBlocks <= entries.Length ==> spill == old(spill)
    {
      var endBlock := startBlock + totalBlocks - 1;
      var entry := TAKEN | IS_FIRST;
      if totalBlocks > 1 {
        entry := entry | HAS_NEXT;
      }
      var i := startBlock;
      while i <= endBlock
        invariant startBlock <= i <= endBlock + 1
        invariant i <= endBlock ==> entry == EntryFor(i - startBlock, totalBlocks)
        invariant forall k :: 0 <= k < entries.Length ==>
          entries[k] == if startBlock <= k < i then EntryFor(k - startBlock, totalBlocks) else old(entries[k])
        invariant forall k: nat :: k in spill <==> k in old(spill) || (entries.Length <= k && startBlock <= k < i)
        invariant i <= entries.Length ==> spill == old(spill)
      {
        if i < entries.Length {
          entries[i] := entry;
        } else {
          spill := spill[i := entry];
        }
        entry := TAKEN;
        if i != endBlock - 1 {
          entry := entry | HAS_NEXT;
        }
        i := i + 1;
      }
    }

    /** `heap_mark_blocks_free` */
    method MarkBlocksFree(startBlock: nat)
      modifies entries
      ensures entries[..] == Release(old(entries[..]), startBlock)
    {
      var i := startBlock;
      while i < entries.Length
        invariant startBlock <= i
        invariant Release(entries[..], i) == Release(old(entries[..]), startBlock)
      {
        var entry := entries[i];
        entries[i] := FREE;
        if entry & HAS_NEXT == 0 {
          return;
        }
        i := i + 1;
      }
    }

    /**
     `heap_malloc` with `heap_malloc_blocks`; the null pointer is 0. The table afterwards is stated for every request.
     A request of 1 to 2^32 - 4096 bytes that fits is served by the first fit of its rounded-up block count, one that
     does not fit gets the null pointer and changes nothing; both need the search to keep its contract. A request of
     no bytes is not marked at all.
     */
    method Malloc(size: u32) returns (p: u32)
      requires Valid()
      modifies this, entries
      ensures var n, t := BlocksFor(size), old(entries[..]);
        var s := StartBlock(t, n);
        && p == (if s < 0 then 0 else saddr + PAGE * s)
        && entries[..] == (if s < 0 then t else Mark(t, s, n))
      ensures 0 < size <= 0xffff_f000 && Fits(old(entries[..]), BlocksFor(size)) ==>
        var s := FirstFitFrom(old(entries[..]), BlocksFor(size), 0);
        && IsFirstFit(old(entries[..]), BlocksFor(size), s) && p == saddr + PAGE * s
        && s !in old(live) && live == old(live)[s := BlocksFor(size)]
        && Valid() && spill == old(spill)
      ensures BlocksFor(size) == 0 ==>
          entries[..] == old(entries[..]) && Valid() && live == old(live) && spill == old(spill)
      ensures 0 < size <= 0xffff_f000 && !Fits(old(entries[..]), BlocksFor(size)) && LastTaken(old(entries[..])) ==>
        p == 0 && Valid() && live == old(live) && spill == old(spill)
    {
      var totalBlocks := AlignUpper(size) / PAGE;
      var startBlock := GetStartBlock(totalBlocks);
      ghost var t := entries[..];
      BlocksForExact(size);
      if totalBlocks >= 1 {
        FirstFitFromIsLeast(t, totalBlocks, 0);
      }
      TailStartIsTail(t);
      if startBlock < 0 {
        return 0;
      }
      p := BlockToAddress(startBlock);
      MarkBlocksTaken(startBlock, totalBlocks);
      if totalBlocks >= 1 && Fits(t, totalBlocks) {
        MarkDecodes(t, live, startBlock, totalBlocks);
        live := live[startBlock := totalBlocks];
      }
    }

    /**
     `heap_free` of any address that does not lead before the table. A live allocation gives its blocks back and touches
     no other; a free block, or one past the table, changes nothing. From inside an allocation see `ReleaseInside`.
     */
    method Free(p: u32)
      requires Valid() && AddressToBlock(p) >= 0
      modifies this`live, entries
      ensures entries[..] == Release(old(entries[..]), AddressToBlock(p))
      ensures AddressToBlock(p) in old(live) || !Covered(old(live), AddressToBlock(p)) ==>
        Valid() && live == old(live) - {AddressToBlock(p)}
      ensures AddressToBlock(p) in old(live) ==>
        entries[..] == Cleared(old(entries[..]), AddressToBlock(p), old(live)[AddressToBlock(p)])
      ensures !Covered(old(live), AddressToBlock(p)) ==> entries[..] == old(entries[..])
    {
      hide AddressToBlock;
      var block := AddressToBlock(p);
      if block in live {
        ReleaseDecodes(entries[..], live, block);
        assert Covers(live, block, block) by {
          assert IsExtent(entries[..], block, live[block]);
        }
      } else if !Covered(live, block) {
        NothingToRelease(entries[..], live, block);
      }
      MarkBlocksFree(block);
      live := live - {block};
    }
  }

  /** `heap_create`: both ends aligned and the table as long as the region has blocks, or nothing is touched. */
  method Create(ptr: u32, end: u32, table: array<Entry>) returns (res: int, heap: BlockHeap?)
    modifies table
    ensures res == 0 || res == -EINVARG
    ensures res == 0 <==> ptr % PAGE == 0 && end % PAGE == 0 && (end - ptr) % 0x1_0000_0000 / PAGE == table.Length
    ensures res != 0 ==> table[..] == old(table[..])
    ensures res == 0 ==> heap != null && fresh(heap) && heap.saddr == ptr && heap.entries == table
    ensures res == 0 ==>
        heap.live == map[] && heap.spill == map[] && Decodes(table[..], map[]) && (ptr <= end ==> heap.Valid())
  {
    if ptr % PAGE != 0 || end % PAGE != 0 {
      return -EINVARG, null;
    }
    heap := new BlockHeap(ptr, table);
    if table.Length != (end - ptr) % 0x1_0000_0000 / PAGE {
      return -EINVARG, heap;
    }
    var i := 0;
    while i < table.Length
      modifies table
      invariant 0 <= i <= table.Length
      invariant forall k :: 0 <= k < i ==> table[k] == FREE
    {
      table[i] := FREE;
      i := i + 1;
    }
    res := 0;
  }
}
