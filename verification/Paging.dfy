/** paging.c: building, editing and freeing page structures in physical memory. */
module Paging {
  import opened Words
  import opened HeapTable
  import opened HeapRuns
  import opened Heap
  import opened Kheap
  import opened PageTables

  const TABLE_SPAN := ENTRIES * PAGE

  // ---------------------------------------------------------------- words in memory

  method StoreWord(k: Machine, f: nat, j: nat, v: u32)
    requires k.ram.Length == RAM_BYTES && f < FRAMES && j < ENTRIES
    modifies k.ram
    ensures WordWritten(old(k.ram[..]), k.ram[..], f, j, v)
  {
    var a := PAGE * f + 4 * j;
    k.ram[a], k.ram[a + 1], k.ram[a + 2], k.ram[a + 3] := v % 256, v / 256 % 256, v / 65536 % 256, v / 16777216;
    StoredBytes(old(k.ram[..]), k.ram[..], f, j, v);
  }

  method LoadWord(k: Machine, f: nat, j: nat) returns (v: u32)
    requires k.ram.Length == RAM_BYTES && f < FRAMES && j < ENTRIES
    ensures v == Word(FrameOf(k.ram[..], f), j)
  {
    var a := PAGE * f + 4 * j;
    v := k.ram[a] as int + 256 * k.ram[a + 1] as int + 65536 * k.ram[a + 2] as int + 16777216 * k.ram[a + 3] as int;
  }

  // ---------------------------------------------------------------- editing

  /** `paging_get_indices` on an aligned address: the page number in two digits of base 1024. */
  lemma IndicesArePageDigits(virt: u32)
    requires virt % PAGE == 0
    ensures virt / TABLE_SPAN == virt / PAGE / ENTRIES < ENTRIES
    ensures virt % TABLE_SPAN / PAGE == virt / PAGE % ENTRIES
  {
  }

  /** `entry & 0xfffff000` of directory slot i, as a frame. */
  method TableAt(k: Machine, d: nat, i: nat) returns (t: nat)
    requires k.ram.Length == RAM_BYTES && d < FRAMES && i < ENTRIES
    ensures t == Tab(k.ram[..], d, i) < FRAMES
  {
    var entry := LoadWord(k, d, i);
    AndPageMask(entry);
    t := BitAnd(entry, 0xfffff000) / PAGE;
  }

  /** `paging_set` through the directory frame d. */
  method Set(k: Machine, d: nat, virt: u32, val: u32) returns (res: int)
    requires k.Valid() && Directory(k.ram[..], k.heap.live, d)
    modifies k.ram
    ensures Directory(k.ram[..], k.heap.live, d) && FrameOf(k.ram[..], d) == FrameOf(old(k.ram[..]), d)
    ensures virt % PAGE != 0 ==> res == -EINVARG && k.ram[..] == old(k.ram[..])
    ensures virt % PAGE == 0 ==>
      && res == 0
      && WordWritten(old(k.ram[..]), k.ram[..], Tab(old(k.ram[..]), d, virt / PAGE / ENTRIES), virt / PAGE % ENTRIES,
         val)
      && Flat(k.ram[..], d) == Flat(old(k.ram[..]), d)[virt / PAGE := val]
  {
    if virt % PAGE != 0 {
      return -EINVARG;
    }
    var directoryIndex := virt / TABLE_SPAN;
    var tableIndex := virt % TABLE_SPAN / PAGE;
    IndicesArePageDigits(virt);
    var table := TableAt(k, d, directoryIndex);
    StoreWord(k, table, tableIndex, val);
    EntryStored(old(k.ram[..]), k.heap.live, k.ram[..], d, virt / PAGE, val);
    res := 0;
  }

  /** `paging_get` of an aligned address. */
  method Get(k: Machine, d: nat, virt: u32) returns (val: u32)
    requires k.Valid() && Directory(k.ram[..], k.heap.live, d) && virt % PAGE == 0
    ensures val == Flat(k.ram[..], d)[virt / PAGE]
  {
    IndicesArePageDigits(virt);
    var table := TableAt(k, d, virt / TABLE_SPAN);
    val := LoadWord(k, table, virt % TABLE_SPAN / PAGE);
  }

  /** What a run of page maps does to a flat map; page and frame addresses wrap at 4 GiB. */
  function MapFlat(v: seq<u32>, page: nat, phys: u32, count: nat, flags: u32): (r: seq<u32>)
    requires |v| == FRAMES && page < FRAMES
    ensures |r| == FRAMES
    decreases count
  {
    if count == 0 then v
    else MapFlat(v[page := Or32(phys, flags)], (page + 1) % FRAMES, (phys + PAGE) % RAM_BYTES, count - 1, flags)
  }

  function Or32(a: u32, b: u32): u32 {
    PowersUsed();
    OrBound(a, b, 32);
    BitOr(a, b)
  }

  /**
   Exactly `count` consecutive pages change, all of them when count is 2^20 or more, each to the frame the same
   distance from `phys`.
   */
  lemma {:induction false} MapFlatExact(v: seq<u32>, page: nat, phys: u32, count: nat, flags: u32, q: nat)
    requires |v| == FRAMES && page < FRAMES && q < FRAMES
    ensures MapFlat(v, page, phys, count, flags)[q] ==
            var i := (q - page) % FRAMES;
            if i < count then Or32((phys + PAGE * i) % RAM_BYTES, flags) else v[q]
    decreases count
  {
    hide Or32;
    if count > 0 {
      MapFlatExact(v[page := Or32(phys, flags)], (page + 1) % FRAMES, (phys + PAGE) % RAM_BYTES, count - 1, flags, q);
      PageDistance(page, q);
      var i := (q - page) % FRAMES;
      if i > 0 {
        FrameDistance(phys, i);
      } else {
        OnceAround(phys);
      }
    }
  }

  lemma PageDistance(page: nat, q: nat)
    requires page < FRAMES && q < FRAMES
    ensures q != page ==> (q - (page + 1) % FRAMES) % FRAMES == (q - page) % FRAMES - 1 >= 0
    ensures q == page ==> (q - (page + 1) % FRAMES) % FRAMES == FRAMES - 1 && (q - page) % FRAMES == 0
  {
  }

  /** A range of more than 2^20 pages comes back to its first page with the same frame. */
  lemma OnceAround(phys: u32)
    ensures ((phys + PAGE) % RAM_BYTES + PAGE * (FRAMES - 1)) % RAM_BYTES == phys
  {
    assert PAGE * (FRAMES - 1) == RAM_BYTES - PAGE;
  }

  lemma FrameDistance(phys: u32, i: nat)
    requires 0 < i < FRAMES
    ensures ((phys + PAGE) % RAM_BYTES + PAGE * (i - 1)) % RAM_BYTES == (phys + PAGE * i) % RAM_BYTES
  {
  }

  /** The chunk in frame c, its frames and everything else are as before, and its map is now v. */
  ghost predicate Remapped(k: Machine, m: seq<byte>, c: nat, v: seq<u32>)
    requires |m| == RAM_BYTES && c < FRAMES
    reads k, k.heap, k.heap.entries, k.ram
  {
    && k.Valid() && Chunk(k.ram[..], k.heap.live, c) && View(k.ram[..], c) == v
    && DirOf(k.ram[..], c) == DirOf(m, c)
    && ChunkFrames(k.ram[..], c) == ChunkFrames(m, c)
    && OnlyTables(m, k.ram[..], c)
  }

  /** Only frames of the chunk's own tables differ. */
  ghost predicate OnlyTables(m: seq<byte>, m': seq<byte>, c: nat)
    requires |m| == |m'| == RAM_BYTES && c < FRAMES
  {
    forall g: nat :: g < FRAMES && (forall i: nat :: i < ENTRIES ==> Tab(m, DirOf(m, c), i) != g) ==>
      SameFrame(m, m', g)
  }

  /** `paging_map` */
  method Map(k: Machine, c: nat, virt: u32, phys: u32, flags: u32) returns (res: int)
    requires k.Valid() && Chunk(k.ram[..], k.heap.live, c)
    modifies k.ram
    ensures res == if virt % PAGE != 0 || phys % PAGE != 0 then -EINVARG else 0
    ensures Remapped(k, old(k.ram[..]), c,
              if res == 0 then View(old(k.ram[..]), c)[virt / PAGE := Or32(phys, flags)] else View(old(k.ram[..]), c))
    ensures res == 0 ==>
      WordWritten(old(k.ram[..]), k.ram[..], Tab(old(k.ram[..]), DirOf(old(k.ram[..]), c), virt / PAGE / ENTRIES),
                  virt / PAGE % ENTRIES, Or32(phys, flags))
  {
    if virt % PAGE != 0 || phys % PAGE != 0 {
      return -EINVARG;
    }
    ghost var m := k.ram[..];
    var word := LoadWord(k, c, 0);
    res := Set(k, word / PAGE, virt, Or32(phys, flags));
    ChunkAfterEntry(m, k.heap.live, k.ram[..], c, virt / PAGE, Or32(phys, flags));
  }

  lemma ChunkAfterEntry(m: seq<byte>, live: Extents, m': seq<byte>, c: nat, p: nat, v: u32)
    requires |m| == |m'| == RAM_BYTES && Chunk(m, live, c) && p < FRAMES
    requires WordWritten(m, m', Tab(m, DirOf(m, c), p / ENTRIES), p % ENTRIES, v)
    ensures Chunk(m', live, c) && DirOf(m', c) == DirOf(m, c) && View(m', c) == View(m, c)[p := v]
    ensures ChunkFrames(m', c) == ChunkFrames(m, c) && OnlyTables(m, m', c)
  {
    var d := DirOf(m, c);
    EntryStored(m, live, m', d, p, v);
    SingleIsHeld(live, c);
    assert SameFrame(m, m', c);
    forall i: nat | i < ENTRIES ensures Tab(m', d, i) == Tab(m, d, i) {}
  }

  lemma OnlyTablesTrans(m: seq<byte>, m': seq<byte>, m'': seq<byte>, c: nat)
    requires |m| == |m'| == |m''| == RAM_BYTES && c < FRAMES && ChunkFrames(m', c) == ChunkFrames(m, c)
    requires OnlyTables(m, m', c) && OnlyTables(m', m'', c)
    ensures OnlyTables(m, m'', c)
  {
    forall g: nat | g < FRAMES && (forall i: nat :: i < ENTRIES ==> Tab(m, DirOf(m, c), i) != g)
      ensures SameFrame(m, m'', g) {
      assert SameFrame(m, m', g);
      forall i: nat | i < ENTRIES ensures Tab(m', DirOf(m', c), i) != g {
        assert ChunkFrames(m', c)[i + 1] == ChunkFrames(m, c)[i + 1];
      }
      assert SameFrame(m', m'', g);
    }
  }

  /** `virt += PAGING_PAGE_SIZE` on a 32-bit pointer. */
  function NextPage(v: u32): (r: u32)
    ensures v % PAGE == 0 ==> r / PAGE == (v / PAGE + 1) % FRAMES && r % PAGE == 0
  {
    (v + PAGE) % RAM_BYTES
  }

  lemma RemappedTrans(m: seq<byte>, k: Machine, c: nat, m': seq<byte>)
    requires |m| == |m'| == RAM_BYTES && c < FRAMES && k.ram.Length == RAM_BYTES
    requires DirOf(m', c) == DirOf(m, c) && ChunkFrames(m', c) == ChunkFrames(m, c) && OnlyTables(m, m', c)
    requires Remapped(k, m', c, View(k.ram[..], c))
    ensures Remapped(k, m, c, View(k.ram[..], c))
  {
    OnlyTablesTrans(m, m', k.ram[..], c);
  }

  /** One `paging_map` among others: m is the memory before all of them. */
  method MapAgain(k: Machine, ghost m: seq<byte>, c: nat, virt: u32, phys: u32, flags: u32) returns (res: int)
    requires |m| == RAM_BYTES && c < FRAMES && k.ram.Length == RAM_BYTES && Remapped(k, m, c, View(k.ram[..], c))
    modifies k.ram
    ensures res == if virt % PAGE != 0 || phys % PAGE != 0 then -EINVARG else 0
    ensures Remapped(k, m, c,
              if res == 0 then View(old(k.ram[..]), c)[virt / PAGE := Or32(phys, flags)] else View(old(k.ram[..]), c))
  {
    ghost var m' := k.ram[..];
    res := Map(k, c, virt, phys, flags);
    RemappedTrans(m, k, c, m');
  }

  lemma RemappedStart(k: Machine, c: nat)
    requires k.Valid() && Chunk(k.ram[..], k.heap.live, c)
    ensures c < FRAMES && Remapped(k, k.ram[..], c, View(k.ram[..], c))
  {
    hide View;
  }

  lemma OneMorePage(w: seq<u32>, v: u32, f: u32, count: nat, flags: u32)
    requires |w| == FRAMES && count > 0 && v % PAGE == 0
    ensures MapFlat(w, v / PAGE, f, count, flags) ==
            if count == 1 then w[v / PAGE := Or32(f, flags)]
            else MapFlat(w[v / PAGE := Or32(f, flags)], NextPage(v) / PAGE, NextPage(f), count - 1, flags)
  {
    hide Or32;
  }

  /** `paging_map_range` */
  method MapRange(k: Machine, c: nat, virt: u32, phys: u32, count: int, flags: u32) returns (res: int)
    requires k.Valid() && Chunk(k.ram[..], k.heap.live, c)
    modifies k.ram
    ensures res == if count > 0 && (virt % PAGE != 0 || phys % PAGE != 0) then -EINVARG else 0
    ensures Remapped(k, old(k.ram[..]), c,
              if res == 0 && count > 0 then MapFlat(View(old(k.ram[..]), c), virt / PAGE, phys, count, flags)
              else View(old(k.ram[..]), c))
  {
    hide Chunk, View, MapFlat, Or32, NextPage, Remapped;
    var i, v: u32, f: u32 := 0, virt, phys;
    res := 0;
    ghost var m := k.ram[..];
    RemappedStart(k, c);
    ghost var aligned := virt % PAGE == 0 && phys % PAGE == 0;
    ghost var goal := if count > 0 && aligned then MapFlat(View(m, c), virt / PAGE, phys, count, flags) else View(m, c);
    while i < count
      invariant 0 <= i && (count >= 0 ==> i <= count) && res == 0
      invariant if aligned then v % PAGE == 0 && f % PAGE == 0 else i == 0 && v == virt && f == phys
      invariant Remapped(k, m, c, View(k.ram[..], c))
      invariant goal == if i < count && aligned then MapFlat(View(k.ram[..], c), v / PAGE, f, count - i, flags)
                        else View(k.ram[..], c)
    {
      ghost var before := View(k.ram[..], c);
      res := MapAgain(k, m, c, v, f, flags);
      if res < 0 {
        break;
      }
      OneMorePage(before, v, f, count - i, flags);
      v, f, i := NextPage(v), NextPage(f), i + 1;
    }
  }

  /** `paging_map_to` */
  method MapTo(k: Machine, c: nat, virt: u32, phys: u32, physEnd: u32, flags: u32) returns (res: int)
    requires k.Valid() && Chunk(k.ram[..], k.heap.live, c)
    modifies k.ram
    ensures res == if virt % PAGE != 0 || phys % PAGE != 0 || physEnd % PAGE != 0 || physEnd < phys then -EINVARG else 0
    ensures Remapped(k, old(k.ram[..]), c,
              if res == 0 then MapFlat(View(old(k.ram[..]), c), virt / PAGE, phys, (physEnd - phys) / PAGE, flags)
              else View(old(k.ram[..]), c))
  {
    if virt % PAGE != 0 || phys % PAGE != 0 || physEnd % PAGE != 0 || physEnd < phys {
      return -EINVARG;
    }
    res := MapRange(k, c, virt, phys, (physEnd - phys) / PAGE, flags);
  }

  /** `paging_align_address`; the addition wraps. */
  function AlignAddress(p: u32): u32 {
    if p % PAGE != 0 then (p + PAGE - p % PAGE) % RAM_BYTES else p
  }
}
