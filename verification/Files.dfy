/** file.c over fat16.c: the descriptor table, opening, sizing, reading and closing a file of the root directory. */
module Files {
  import opened Words
  import opened HeapTable
  import opened HeapRuns
  import opened Heap
  import opened Kheap
  import opened PageTables
  import opened PagingChunks
  import opened DiskStream
  import opened FatChain
  import opened FatExact
  import FatRead
  import opened FatDirectory
  import opened PathParser

  const MAX_FILE_DESCRIPTORS := 512

  /** `struct file_descriptor` with the `fat_file_descriptor` and the cloned directory item behind it. */
  class FileDescriptor {
    const addr: u32
    const index: nat
    const fatAddr: u32
    const itemAddr: u32
    const cloneAddr: u32
    const slot: nat
    const pos: nat

    constructor (addr: u32, index: nat, fatAddr: u32, itemAddr: u32, cloneAddr: u32, slot: nat)
      ensures this.addr == addr && this.index == index && this.fatAddr == fatAddr && this.itemAddr == itemAddr
      ensures this.cloneAddr == cloneAddr && this.slot == slot && pos == 0
    {
      this.addr, this.index, this.fatAddr, this.itemAddr := addr, index, fatAddr, itemAddr;
      this.cloneAddr, this.slot, pos := cloneAddr, slot, 0;
    }

    /** The four blocks a descriptor holds. */
    function Frames(): (fs: seq<nat>)
      ensures |fs| == 4
    {
      [fatAddr / PAGE, itemAddr / PAGE, cloneAddr / PAGE, addr / PAGE]
    }

    predicate Paged() {
      addr % PAGE == 0 && fatAddr % PAGE == 0 && itemAddr % PAGE == 0 && cloneAddr % PAGE == 0
    }
  }

  /** The slot that `fat16_find_item_in_directory` settles on: the last match among the first n. */
  ghost function FoundSlot(items: seq<byte>, n: nat, name: seq<byte>): Option<nat> {
    if n == 0 then None
    else if Matches(items, n - 1, name) then Some(n - 1)
    else FoundSlot(items, n - 1, name)
  }

  lemma {:induction false} FoundSlotIs(items: seq<byte>, n: nat, name: seq<byte>)
    ensures var r := FoundSlot(items, n, name);
      && (r.None? <==> forall i: nat :: i < n ==> !Matches(items, i, name))
      && (r.Some? ==>
            r.value < n && Matches(items, r.value, name)
            && forall i: nat :: r.value < i < n ==> !Matches(items, i, name))
  {
    hide Matches;
    if n > 0 {
      FoundSlotIs(items, n - 1, name);
    }
  }

  /** The directory item a path leads to: drive 0, one component, found in the root directory. */
  ghost function PathSlot(items: seq<byte>, total: nat, path: seq<byte>): Option<nat> {
    if Accepted(path) && path[0] == ZERO && |Components(path[3..])| == 1
    then FoundSlot(items, total, Components(path[3..])[0])
    else None
  }

  /** The slots that opening a path finds: those with the name of its first component, on drive 0. */
  ghost function Namesakes(items: seq<byte>, total: nat, path: seq<byte>): nat {
    if Accepted(path) && path[0] == ZERO && Components(path[3..]) != [] then
      MatchCount(items, total, Components(path[3..])[0])
    else 0
  }

  /** None of them is a subdirectory. */
  ghost predicate PlainPath(items: seq<byte>, total: nat, path: seq<byte>)
    requires ITEM * total <= |items|
  {
    Accepted(path) && path[0] == ZERO && Components(path[3..]) != [] ==>
      FilesOnly(items, total, Components(path[3..])[0])
  }

  /** Blocks that opening a path may take at most, one of them only for a while. */
  ghost function OpenRoom(items: seq<byte>, total: nat, path: seq<byte>): nat {
    (if Accepted(path) then 2 * |Components(path[3..])| + 4 else 0) + 2 * Namesakes(items, total, path)
  }

  /**
   Blocks that opening a path keeps: those of the parsed path, the FAT descriptor, two for every slot with the name, and
   the descriptor when there is one.
   */
  ghost function OpenCost(items: seq<byte>, total: nat, path: seq<byte>, success: bool): nat {
    if !Accepted(path) then 0
    else if path[0] != ZERO || Components(path[3..]) == [] then 2 * |Components(path[3..])| + 1
    else 2 * |Components(path[3..])| + 2 + 2 * Namesakes(items, total, path) + (if success then 1 else 0)
  }

  /** Least free index of a descriptor table from `from` on, or the table size. */
  function FreeIndex(t: seq<FileDescriptor?>, from: nat): (i: nat)
    requires from <= |t|
    ensures from <= i <= |t| && (i < |t| ==> t[i] == null)
    ensures forall j :: from <= j < i ==> t[j] != null
    decreases |t| - from
  {
    if from == |t| || t[from] == null then from else FreeIndex(t, from + 1)
  }

  lemma FirstComponent(path: seq<byte>)
    requires 0 !in path && Accepted(path) && Components(path[3..]) != []
    ensures 0 !in Components(path[3..])[0] && |Components(path[3..])[0]| < MAX_PATH
  {
    var c := UpToSlash(path[3..]);
    assert forall i :: 0 <= i < |c| ==> c[i] == path[3 + i] && path[3 + i] in path;
  }

  class FileSystem {
    const k: Machine
    const fat: FatRead.FatFs
    const dir: Directory
    const slots: array<FileDescriptor?>

    constructor (k: Machine, fat: FatRead.FatFs, dir: Directory, table: array<FileDescriptor?>)
      ensures this.k == k && this.fat == fat && this.dir == dir && slots == table
    {
      this.k, this.fat, this.dir, slots := k, fat, dir, table;
    }

    /** A mounted disk: the root directory is loaded into a buffer of its own and all its names end in their slots. */
    ghost predicate Mounted()
      reads this, k, k.heap, k.heap.entries, fat, dir, dir.items
    {
      && k.Valid() && fat.Valid() && slots.Length == MAX_FILE_DESCRIPTORS
      && dir.items != k.ram && dir.items as object != k.heap.entries && slots as object != k.heap.entries
      && slots as object != k.ram && slots as object != dir.items && ITEM * dir.total <= dir.items.Length
      && OfDisk()
      && forall i: nat :: i < dir.total ==> Tame(ItemAt(dir.items[..], i))
    }

    /** The directory is the one on the mounted disk. */
    ghost predicate OfDisk()
      reads this, fat, dir, dir.items
    {
      exists n: nat :: RootLoaded(dir, fat.vol.image, fat.vol.h, n)
    }

    // -------------------------------------------------------------- the descriptor table

    /** The search of `file_new_descriptor`. */
    method NewIndex() returns (i: nat)
      requires slots.Length == MAX_FILE_DESCRIPTORS
      ensures i == FreeIndex(slots[..], 0)
    {
      i := 0;
      while i < MAX_FILE_DESCRIPTORS && slots[i] != null
        invariant 0 <= i <= slots.Length && FreeIndex(slots[..], 0) == FreeIndex(slots[..], i)
      {
        i := i + 1;
      }
    }

    /** `file_get_descriptor`: descriptors start at 1, and 512 is turned away although it can be handed out. */
    function Descriptor(fd: int): FileDescriptor?
      requires slots.Length == MAX_FILE_DESCRIPTORS
      reads slots
    {
      if fd <= 0 || fd >= MAX_FILE_DESCRIPTORS then null else slots[fd - 1]
    }

    /** A descriptor just entered at its index is found again under its number, except at the last index. */
    lemma DescriptorExact(i: nat)
      requires slots.Length == MAX_FILE_DESCRIPTORS && i < slots.Length && slots[i] != null
      ensures Descriptor(i + 1) == slots[i] <==> i + 1 != MAX_FILE_DESCRIPTORS
    {
    }

    // -------------------------------------------------------------- opening

    /**
     `fat16_open` on the parts of a path: descriptor, then lookup of the first part, with an item and a clone for every
     slot that has the name. With a second part it fails, because every item is typed as a file. What was taken before
     a failure is not given back.
     */
    method FatOpen(root: PathRoot, ghost parts: seq<PathPart>, ghost live0: Extents, ghost t0: Table,
                   ghost m0: seq<byte>, ghost fs: seq<nat>)
      returns (slot: Option<nat>, fatAddr: u32, itemAddr: u32, cloneAddr: u32, ghost fs': seq<nat>)
      requires Mounted() && Linked(root.first, parts) && DistinctParts(parts) && parts != []
      requires 0 !in Texts(parts)[0] && |Texts(parts)[0]| < MAX_PATH
      requires FilesOnly(dir.items[..], dir.total, Texts(parts)[0])
      requires Took(k, live0, t0, m0, fs)
      requires FreeBlocks(k.heap.entries[..]) >= 1 + 2 * MatchCount(dir.items[..], dir.total, Texts(parts)[0])
      modifies k.heap, k.heap.entries, k.ram
      ensures Mounted() && k.heap.spill == old(k.heap.spill)
      ensures slot == if |parts| == 1 then FoundSlot(dir.items[..], dir.total, Texts(parts)[0]) else None
      ensures Took(k, live0, t0, m0, fs')
      ensures |fs'| == |fs| + 1 + 2 * MatchCount(dir.items[..], dir.total, Texts(parts)[0])
      ensures slot.Some? ==>
        |fs'| >= |fs| + 3 && fs'[|fs|] == fatAddr / PAGE && fs'[|fs'| - 2..] == [itemAddr / PAGE, cloneAddr / PAGE]
      ensures slot.Some? ==> fatAddr % PAGE == itemAddr % PAGE == cloneAddr % PAGE == 0
    {
      hide Added, FreeBlocks, RoomLeft, Preserved, Matches, FoundSlot, CString, Tame, ItemAt, Texts, FilesOnly, OfDisk;
      FirstText(parts);
      var name := StringOf(root.first.text);
      fatAddr := TakePage(k, 8, live0, t0, m0, fs);
      fs' := fs + [fatAddr / PAGE];
      assert dir.items[..] == old(dir.items[..]);
      slot, itemAddr, cloneAddr, fs' := FindItem(k, dir, name, live0, t0, m0, fs');
      assert dir.items[..] == old(dir.items[..]);
      if slot.Some? && root.first.next != null {
        slot := None;
      }
    }

    /** `file_new_descriptor`, with the fields that `fopen` fills in. */
    method NewDescriptor(slot: nat, fatAddr: u32, itemAddr: u32, cloneAddr: u32,
                         ghost live0: Extents, ghost t0: Table, ghost m0: seq<byte>, ghost fs: seq<nat>)
      returns (fd: nat, ghost fs': seq<nat>)
      requires Mounted() && Took(k, live0, t0, m0, fs) && FreeBlocks(k.heap.entries[..]) > 0
      requires fatAddr % PAGE == itemAddr % PAGE == cloneAddr % PAGE == 0
      modifies k.heap, k.heap.entries, k.ram, slots
      ensures Mounted() && k.heap.spill == old(k.heap.spill)
      ensures Took(k, live0, t0, m0, fs') && |fs'| == |fs| + (if fd != 0 then 1 else 0)
      ensures fd != 0 <==> FreeIndex(old(slots[..]), 0) < MAX_FILE_DESCRIPTORS
      ensures fd == 0 ==> slots[..] == old(slots[..])
      ensures fd != 0 ==>
        && fd == FreeIndex(old(slots[..]), 0) + 1 && slots[fd - 1] != null && fresh(slots[fd - 1])
        && slots[..] == old(slots[..])[fd - 1 := slots[fd - 1]]
        && slots[fd - 1].index == fd && slots[fd - 1].slot == slot && slots[fd - 1].pos == 0 && slots[fd - 1].Paged()
        && slots[fd - 1].fatAddr == fatAddr && slots[fd - 1].itemAddr == itemAddr
           && slots[fd - 1].cloneAddr == cloneAddr
        && fs' == fs + [slots[fd - 1].addr / PAGE]
    {
      hide Added, FreeBlocks, RoomLeft, Preserved, Tame, ItemAt, FreeIndex, OfDisk;
      fs' := fs;
      var i := NewIndex();
      if i == MAX_FILE_DESCRIPTORS {
        return 0, fs;
      }
      var addr := TakePage(k, 16, live0, t0, m0, fs);
      fs' := fs + [addr / PAGE];
      assert slots[..] == old(slots[..]) && dir.items[..] == old(dir.items[..]);
      slots[i] := new FileDescriptor(addr, i + 1, fatAddr, itemAddr, cloneAddr, slot);
      fd := i + 1;
    }

    /**
     `fopen (path, "r")`: a descriptor exactly when the path names one component found on drive 0 and an index is free;
     otherwise 0. Exactly `OpenCost` blocks are kept, because the parsed path is never given back, nor is what a failing
     open took. Subdirectories of the name are left out.
     */
    method Fopen(path: seq<byte>) returns (fd: nat, ghost fs: seq<nat>)
      requires Mounted() && 0 !in path && FreeBlocks(k.heap.entries[..]) >= OpenRoom(dir.items[..], dir.total, path)
      requires PlainPath(dir.items[..], dir.total, path)
      modifies k.heap, k.heap.entries, k.ram, slots
      ensures Mounted() && k.heap.spill == old(k.heap.spill)
      ensures Took(k, old(k.heap.live), old(k.heap.entries[..]), old(k.ram[..]), fs)
      ensures fd != 0 <==>
          PathSlot(dir.items[..], dir.total, path).Some? && FreeIndex(old(slots[..]), 0) < MAX_FILE_DESCRIPTORS
      ensures |fs| == OpenCost(dir.items[..], dir.total, path, fd != 0)
      ensures fd == 0 ==> slots[..] == old(slots[..])
      ensures fd != 0 ==>
        && fd == FreeIndex(old(slots[..]), 0) + 1 && slots[fd - 1] != null && fresh(slots[fd - 1])
        && slots[..] == old(slots[..])[fd - 1 := slots[fd - 1]]
        && slots[fd - 1].index == fd && Some(slots[fd - 1].slot) == PathSlot(dir.items[..], dir.total, path)
        && slots[fd - 1].pos == 0 && slots[fd - 1].Paged()
        && Distinct(slots[fd - 1].Frames()) && forall f | f in slots[fd - 1].Frames() :: f in fs
    {
      hide Added, FreeBlocks, RoomLeft, Preserved, Matches, FoundSlot, CString, Tame, ItemAt, Texts, Components;
      hide PathFrames, FreeIndex;
      hide MatchCount, FilesOnly, OfDisk, Distinct, Decodes;
      ghost var live0, t0, m0, items := k.heap.live, k.heap.entries[..], k.ram[..], dir.items[..];
      TookNothing(k);
      fs, fd := [], 0;
      ghost var parts;
      var root;
      root, parts := Parse(k, path);
      assert dir.items[..] == items && slots[..] == old(slots[..]);
      if root == null {
        return;
      }
      fs := PathFrames(root.addr / PAGE, parts);
      if root.first == null {
        return;
      }
      if root.driveNo != 0 {
        return;
      }
      FirstComponent(path);
      ghost var n := |fs|;
      var slot, fatAddr, itemAddr, cloneAddr;
      slot, fatAddr, itemAddr, cloneAddr, fs := FatOpen(root, parts, live0, t0, m0, fs);
      assert dir.items[..] == items && slots[..] == old(slots[..]);
      SlotMeansMatch(items, dir.total, Components(path[3..])[0]);
      if slot.None? {
        return;
      }
      ghost var fs1 := fs;
      fd, fs := NewDescriptor(slot.value, fatAddr, itemAddr, cloneAddr, live0, t0, m0, fs);
      if fd != 0 {
        AddedSingle(live0, k.heap.live, fs);
        FourOf(fs, fs1, n, [fatAddr / PAGE, itemAddr / PAGE, cloneAddr / PAGE, slots[fd - 1].addr / PAGE]);
      }
    }

    /** Opened and closed again, a file has cost the heap the blocks of its path and of further slots with its name. */
    method OpenThenClose(path: seq<byte>) returns (success: bool, ghost lost: set<int>)
      requires Mounted() && 0 !in path && FreeBlocks(k.heap.entries[..]) >= OpenRoom(dir.items[..], dir.total, path)
      requires PlainPath(dir.items[..], dir.total, path) && FreeIndex(slots[..], 0) != MAX_FILE_DESCRIPTORS - 1
      modifies k.heap, k.heap.entries, k.ram, slots
      ensures Mounted() && slots[..] == old(slots[..])
      ensures success <==>
          PathSlot(dir.items[..], dir.total, path).Some? && FreeIndex(slots[..], 0) < MAX_FILE_DESCRIPTORS
      ensures k.heap.live.Keys == old(k.heap.live.Keys) + lost && lost !! old(k.heap.live.Keys)
      ensures success ==> |lost| == 3 + 2 * (Namesakes(dir.items[..], dir.total, path) - 1)
      ensures !success ==> |lost| == OpenCost(dir.items[..], dir.total, path, false)
    {
      hide FreeBlocks, RoomLeft, Preserved, Matches, FoundSlot, Tame, ItemAt, Components, FreeIndex, PlainPath;
      hide MatchCount, FilesOnly, OfDisk, Distinct, Decodes, BlocksOf, AllSingle, Added, Namesakes, PathSlot, OpenCost;
      ghost var live0 := k.heap.live;
      var fd;
      ghost var fs;
      fd, fs := Fopen(path);
      assert dir.items[..] == old(dir.items[..]);
      AddedSingle(live0, k.heap.live, fs);
      AddedKeys(live0, k.heap.live, fs);
      success, lost := fd != 0, BlocksOf(fs);
      if fd != 0 {
        OpenedCost(dir.items[..], dir.total, path);
        lost := CloseOpened(fd, live0, fs);
        ReopenedIndex(old(slots[..]));
      }
    }

    /** `fclose` of a descriptor whose blocks are among those taken since the allocations were live0. */
    method CloseOpened(fd: nat, ghost live0: Extents, ghost fs: seq<nat>) returns (ghost lost: set<int>)
      requires Mounted() && Descriptor(fd) != null && Descriptor(fd).index == fd && Descriptor(fd).Paged()
      requires Added(live0, k.heap.live, fs)
      requires Distinct(Descriptor(fd).Frames()) && forall f | f in Descriptor(fd).Frames() :: f in fs
      modifies k.heap`live, k.heap.entries, slots
      ensures Mounted() && slots[..] == old(slots[..])[fd - 1 := null]
      ensures k.heap.live.Keys == live0.Keys + lost && lost !! live0.Keys && |lost| == |fs| - 4
    {
      hide RoomLeft, BlocksOf, Distinct, Added, AllSingle, Tame, ItemAt, OfDisk, Decodes;
      ghost var four := Descriptor(fd).Frames();
      AddedKeys(live0, k.heap.live, fs);
      Some4(live0, k.heap.live, fs, four);
      lost := BlocksOf(fs) - BlocksOf(four);
      KeysLeft(live0, k.heap.live, BlocksOf(fs), BlocksOf(four));
      var _ := Fclose(fd);
    }

    // -------------------------------------------------------------- using and closing

    /** `fstat`: the size that the directory entry of the file has on the disk, four bytes in its slot. */
    method Fstat(fd: nat) returns (res: int, filesize: u32)
      requires Mounted() && (Descriptor(fd) != null ==> Descriptor(fd).slot < dir.total)
      ensures res == if Descriptor(fd) == null then -EIO else 0
      ensures res == 0 ==> forall j: nat :: j < 4 ==>
        fat.vol.image(RootSector(fat.vol.h) * SECTOR + ITEM * Descriptor(fd).slot + 28 + j) == ByteOfWord(filesize, j)
      ensures res == 0 ==> filesize == FileSize(dir.items[..], Descriptor(fd).slot)
    {
      var desc := Descriptor(fd);
      if desc == null {
        return -EIO, 0;
      }
      res, filesize := 0, FileSize(dir.items[..], desc.slot);
      FileSizeBytes(dir.items[..], desc.slot);
      hide FileSize, ByteOfWord, LiveCount, EndsAt;
      ghost var n: nat :| RootLoaded(dir, fat.vol.image, fat.vol.h, n);
      forall j: nat | j < 4
        ensures fat.vol.image(RootSector(fat.vol.h) * SECTOR + ITEM * desc.slot + 28 + j) == ByteOfWord(filesize, j)
      {
        assert dir.items[ITEM * desc.slot + 28 + j] ==
          fat.vol.image(RootSector(fat.vol.h) * SECTOR + (ITEM * desc.slot + 28 + j));
      }
    }

    /** `fread` into physical memory at ptr. */
    method Fread(ptr: nat, size: nat, nmemb: nat, fd: nat) returns (res: int)
      requires Mounted() && (Descriptor(fd) != null ==> Descriptor(fd).slot < dir.total)
      requires ptr + nmemb * size <= RAM_BYTES
      modifies fat.clusterStream, fat.fatStream, k.ram
      ensures size == 0 || nmemb == 0 || Descriptor(fd) == null ==> res == -EINVARG && k.ram[..] == old(k.ram[..])
      ensures size > 0 && nmemb > 0 && Descriptor(fd) != null ==>
        var c, pos := FirstCluster(AsWritten, dir.items[..], Descriptor(fd).slot), Descriptor(fd).pos;
        && res == (if FatRead.ItemsReadable(fat.vol, c, pos, size, nmemb) then nmemb else -EIO)
        && k.ram[..] == FatRead.ItemsOver(old(k.ram[..]), ptr, fat.vol, fat.stack, c, pos, size, nmemb)
    {
      if size == 0 || nmemb == 0 || fd < 1 {
        return -EINVARG;
      }
      var desc := Descriptor(fd);
      if desc == null {
        return -EINVARG;
      }
      res := fat.Read(FirstCluster(AsWritten, dir.items[..], desc.slot), desc.pos, size, nmemb, k.ram, ptr);
    }

    /**
      `fclose`: the four blocks of the descriptor and its index are given back. A number without descriptor other than 0
      would be followed into null.
    */
    method Fclose(fd: nat) returns (res: int)
      requires Mounted() && (fd != 0 ==> Descriptor(fd) != null && Descriptor(fd).index == fd)
      requires fd != 0 ==>
          Descriptor(fd).Paged() && Distinct(Descriptor(fd).Frames()) && AllSingle(k.heap.live, Descriptor(fd).Frames())
      modifies k.heap`live, k.heap.entries, slots
      ensures Mounted()
      ensures fd == 0 ==>
        && res == -EIO && slots[..] == old(slots[..])
        && k.heap.live == old(k.heap.live) && k.heap.entries[..] == old(k.heap.entries[..])
      ensures fd != 0 ==>
        && res == 0 && slots[..] == old(slots[..])[fd - 1 := null]
        && k.heap.live == old(k.heap.live) - BlocksOf(old(Descriptor(fd)).Frames())
        && RoomLeft(old(k.heap.entries[..]), k.heap.entries[..], 0)
    {
      hide BlocksOf, Distinct, Tame, ItemAt, OfDisk;
      if fd == 0 {
        return -EIO;
      }
      var desc := Descriptor(fd);
      ghost var live := k.heap.live;
      FreeFour(k, desc);
      slots[desc.index - 1] := null;
      res := 0;
    }
  }

  lemma ReopenedIndex(t: seq<FileDescriptor?>)
    ensures FreeIndex(t, 0) < |t| ==> t[FreeIndex(t, 0) := null] == t
  {
  }

  lemma OpenedCost(items: seq<byte>, total: nat, path: seq<byte>)
    requires PathSlot(items, total, path).Some?
    ensures OpenCost(items, total, path, true) == 5 + 2 * Namesakes(items, total, path)
    ensures Namesakes(items, total, path) >= 1
  {
    hide Components;
    SlotMeansMatch(items, total, Components(path[3..])[0]);
  }

  lemma {:induction false} SlotMeansMatch(items: seq<byte>, n: nat, name: seq<byte>)
    ensures FoundSlot(items, n, name).Some? <==> MatchCount(items, n, name) > 0
  {
    hide Matches;
    if n > 0 {
      SlotMeansMatch(items, n - 1, name);
    }
  }

  /** What a list of taken frames adds to the live allocations. */
  lemma AddedKeys(live0: Extents, live: Extents, fs: seq<nat>)
    requires Added(live0, live, fs)
    ensures live.Keys == live0.Keys + BlocksOf(fs) && BlocksOf(fs) !! live0.Keys && |BlocksOf(fs)| == |fs|
  {
    AddedSingle(live0, live, fs);
    DistinctCount(fs);
    hide BlocksOf, Added;
    forall b: int ensures b in live.Keys <==> b in live0.Keys || b in BlocksOf(fs) {
      AddedKey(live0, live, fs, b);
    }
    forall b: int ensures !(b in live0.Keys && b in BlocksOf(fs)) {
      AddedKey(live0, live, fs, b);
    }
  }

  lemma AddedKey(live0: Extents, live: Extents, fs: seq<nat>, b: int)
    requires Added(live0, live, fs)
    ensures b in live.Keys <==> b in live0.Keys || b in BlocksOf(fs)
    ensures !(b in live0.Keys && b in BlocksOf(fs))
  {
    BlocksOfMember(fs, b);
    hide BlocksOf, Distinct, AllSingle;
    if b in BlocksOf(fs) {
      var i :| 0 <= i < |fs| && fs[i] - HEAP_FRAME == b;
      SingleLive(live, fs, i);
    }
    if b in live.Keys && b !in live0.Keys {
      var i :| 0 <= i < |fs| && fs[i] == b + HEAP_FRAME;
      assert fs[i] - HEAP_FRAME == b;
    }
  }

  lemma SingleLive(live: Extents, fs: seq<nat>, i: nat)
    requires AllSingle(live, fs) && i < |fs|
    ensures fs[i] - HEAP_FRAME >= 0 && fs[i] - HEAP_FRAME in live
  {
    assert Single(live, fs[i]);
  }

  /** Some of the blocks added are given back. */
  lemma KeysLeft(live0: Extents, live: Extents, bs: set<int>, gone: set<int>)
    requires live.Keys == live0.Keys + bs && gone <= bs && bs !! live0.Keys
    ensures (live - gone).Keys == live0.Keys + (bs - gone) && |bs - gone| == |bs| - |gone|
  {
    KeysMinus(live, gone);
    SetMinus(bs, gone);
    UnionMinus(live0.Keys, bs, gone);
  }

  lemma KeysMinus(live: Extents, gone: set<int>)
    ensures (live - gone).Keys == live.Keys - gone
  {
  }

  lemma SetMinus(bs: set<int>, gone: set<int>)
    requires gone <= bs
    ensures |bs - gone| == |bs| - |gone|
  {
    assert bs == gone + (bs - gone);
  }

  lemma UnionMinus(a: set<int>, bs: set<int>, gone: set<int>)
    requires gone <= bs && a !! bs
    ensures (a + bs) - gone == a + (bs - gone)
  {
  }

  /** Four different frames out of those taken. */
  lemma Some4(live0: Extents, live: Extents, fs: seq<nat>, four: seq<nat>)
    requires Added(live0, live, fs) && |four| == 4 && Distinct(four) && forall f | f in four :: f in fs
    ensures AllSingle(live, four) && BlocksOf(four) <= BlocksOf(fs) && |BlocksOf(four)| == 4
    ensures forall i :: 0 <= i < 4 ==> four[i] - HEAP_FRAME !in live0
    ensures |BlocksOf(fs) - BlocksOf(four)| == |BlocksOf(fs)| - 4
  {
    DistinctCount(four);
    hide BlocksOf, Distinct;
    forall i | 0 <= i < 4 ensures Single(live, four[i]) && four[i] - HEAP_FRAME !in live0 {
      assert four[i] in fs;
      var j :| 0 <= j < |fs| && fs[j] == four[i];
      assert Single(live, fs[j]);
    }
    forall b: int | b in BlocksOf(four) ensures b in BlocksOf(fs) {
      BlocksOfMember(four, b);
      BlocksOfMember(fs, b);
      var i :| 0 <= i < |four| && four[i] - HEAP_FRAME == b;
      assert four[i] in fs;
    }
  }

  /** The frames of a new descriptor among those taken: one at n, two at the end of fs1, and the last. */
  lemma FourOf(fs: seq<nat>, fs1: seq<nat>, n: nat, four: seq<nat>)
    requires Distinct(fs) && |four| == 4 && n + 3 <= |fs1| && fs == fs1 + [four[3]]
    requires fs1[n] == four[0] && fs1[|fs1| - 2..] == [four[1], four[2]]
    ensures Distinct(four) && forall f | f in four :: f in fs
  {
    var e := |fs1|;
    assert fs1[e - 2] == fs1[e - 2..][0] && fs1[e - 1] == fs1[e - 2..][1];
    assert fs[n] == four[0] && fs[e - 2] == four[1] && fs[e - 1] == four[2] && fs[e] == four[3];
    forall f | f in four ensures f in fs {
      var i :| 0 <= i < 4 && four[i] == f;
      assert i == 0 || i == 1 || i == 2 || i == 3;
    }
  }

  /**
   `fat16_find_item_in_directory`: the last matching slot among the first `total`; every matching slot costs an item and
   a clone, and only those of the last are ever given back.
   */
  method FindItem(k: Machine, dir: Directory, name: seq<byte>,
                  ghost live0: Extents, ghost t0: Table, ghost m0: seq<byte>, ghost fs: seq<nat>)
    returns (found: Option<nat>, itemAddr: u32, cloneAddr: u32, ghost fs': seq<nat>)
    requires Took(k, live0, t0, m0, fs) && dir.items != k.ram && dir.items as object != k.heap.entries
    requires ITEM * dir.total <= dir.items.Length && 0 !in name && |name| < MAX_PATH
    requires FilesOnly(dir.items[..], dir.total, name)
    requires forall i: nat :: i < dir.total ==> Tame(ItemAt(dir.items[..], i))
    requires FreeBlocks(k.heap.entries[..]) >= 2 * MatchCount(dir.items[..], dir.total, name)
    modifies k.heap, k.heap.entries, k.ram
    ensures k.heap.spill == old(k.heap.spill) && Took(k, live0, t0, m0, fs')
    ensures found == FoundSlot(dir.items[..], dir.total, name)
    ensures |fs'| == |fs| + 2 * MatchCount(dir.items[..], dir.total, name) && fs <= fs'
    ensures found.Some? ==> |fs'| >= |fs| + 2 && LastTwo(fs', itemAddr, cloneAddr)
  {
    hide Took, FreeBlocks, Matches, Tame, ItemAt, FilesOnly, MatchCount, FoundSlot;
    found, itemAddr, cloneAddr, fs' := None, 0, 0, fs;
    ghost var bytes := dir.items[..];
    FirstSlots(bytes, 0, name);
    var i := 0;
    while i < dir.total
      invariant 0 <= i <= dir.total && dir.items[..] == bytes && k.heap.spill == old(k.heap.spill)
      invariant Took(k, live0, t0, m0, fs') && found == FoundSlot(bytes, i, name)
      invariant FreeBlocks(k.heap.entries[..]) + 2 * MatchCount(bytes, i, name) == FreeBlocks(old(k.heap.entries[..]))
      invariant |fs'| == |fs| + 2 * MatchCount(bytes, i, name) && fs <= fs'
      invariant found.Some? ==> |fs'| >= |fs| + 2 && LastTwo(fs', itemAddr, cloneAddr)
    {
      MatchCountGrows(bytes, i + 1, dir.total, name);
      FirstSlots(bytes, i + 1, name);
      var same := MatchSlot(dir.items, i, name);
      if same {
        found := Some(i);
        itemAddr, cloneAddr, fs' := NewItem(k, live0, t0, m0, fs');
      }
      i := i + 1;
    }
  }

  /** The last two frames taken are those of an item and its clone. */
  ghost predicate LastTwo(fs: seq<nat>, itemAddr: u32, cloneAddr: u32) {
    |fs| >= 2 && fs[|fs| - 2..] == [itemAddr / PAGE, cloneAddr / PAGE] && itemAddr % PAGE == cloneAddr % PAGE == 0
  }

  lemma FirstSlots(items: seq<byte>, n: nat, name: seq<byte>)
    ensures n == 0 ==> FoundSlot(items, n, name) == None && MatchCount(items, n, name) == 0
    ensures n > 0 && Matches(items, n - 1, name) ==>
              FoundSlot(items, n, name) == Some(n - 1)
                && MatchCount(items, n, name) == MatchCount(items, n - 1, name) + 1
    ensures n > 0 && !Matches(items, n - 1, name) ==>
              FoundSlot(items, n, name) == FoundSlot(items, n - 1, name)
                && MatchCount(items, n, name) == MatchCount(items, n - 1, name)
  {
    hide Matches;
  }

  lemma {:induction false} MatchCountGrows(items: seq<byte>, m: nat, n: nat, name: seq<byte>)
    requires m <= n
    ensures MatchCount(items, m, name) <= MatchCount(items, n, name)
    decreases n - m
  {
    hide Matches;
    if m < n {
      MatchCountGrows(items, m, n - 1, name);
    }
  }

  /** `fat16_new_fat_item_for_directory_item` on a file: an item and a clone of the directory item. */
  method NewItem(k: Machine, ghost live0: Extents, ghost t0: Table, ghost m0: seq<byte>, ghost fs: seq<nat>)
    returns (itemAddr: u32, cloneAddr: u32, ghost fs': seq<nat>)
    requires Took(k, live0, t0, m0, fs) && FreeBlocks(k.heap.entries[..]) >= 2
    modifies k.heap, k.heap.entries, k.ram
    ensures k.heap.spill == old(k.heap.spill) && Took(k, live0, t0, m0, fs')
    ensures FreeBlocks(k.heap.entries[..]) == FreeBlocks(old(k.heap.entries[..])) - 2
    ensures |fs'| == |fs| + 2 && fs <= fs' && LastTwo(fs', itemAddr, cloneAddr)
  {
    hide Added, FreeBlocks, RoomLeft, Preserved;
    itemAddr := TakePage(k, 8, live0, t0, m0, fs);
    cloneAddr := TakePage(k, ITEM, live0, t0, m0, fs + [itemAddr / PAGE]);
    fs' := fs + [itemAddr / PAGE] + [cloneAddr / PAGE];
    assert fs' == fs + [itemAddr / PAGE, cloneAddr / PAGE];
  }

  /** The calls of `kfree` in `fat16_close` and `file_free_descriptor`. */
  method FreeFour(k: Machine, desc: FileDescriptor)
    requires k.Valid() && desc.Paged() && Distinct(desc.Frames()) && AllSingle(k.heap.live, desc.Frames())
    modifies k.heap`live, k.heap.entries
    ensures k.Valid() && k.heap.live == old(k.heap.live) - BlocksOf(desc.Frames())
    ensures RoomLeft(old(k.heap.entries[..]), k.heap.entries[..], 0)
  {
    ghost var live, t0, fs := k.heap.live, k.heap.entries[..], desc.Frames();
    FourFrames(fs);
    hide BlocksOf, Cleared, RoomLeft, Distinct, AllSingle, Decodes;
    FreeFatDescriptor(k, desc.fatAddr, desc.itemAddr, desc.cloneAddr, fs);
    FreeKeepingRoom(k, desc.addr, live, t0, fs, 3, {fs[2] - HEAP_FRAME, fs[1] - HEAP_FRAME, fs[0] - HEAP_FRAME});
  }

  /** `fat16_free_file_descriptor` of a file's. */
  method FreeFatDescriptor(k: Machine, fatAddr: u32, itemAddr: u32, cloneAddr: u32, ghost fs: seq<nat>)
    requires k.Valid() && |fs| == 4 && fs[1] != fs[2] && fs[0] !in fs[1..3] && AllSingle(k.heap.live, fs)
    requires itemAddr % PAGE == cloneAddr % PAGE == fatAddr % PAGE == 0
    requires fatAddr / PAGE == fs[0] && itemAddr / PAGE == fs[1] && cloneAddr / PAGE == fs[2]
    modifies k.heap`live, k.heap.entries
    ensures k.Valid()
    ensures k.heap.live == old(k.heap.live) - {fs[2] - HEAP_FRAME, fs[1] - HEAP_FRAME, fs[0] - HEAP_FRAME}
    ensures RoomLeft(old(k.heap.entries[..]), k.heap.entries[..], 0)
  {
    hide RoomLeft, AllSingle, Decodes;
    ghost var live, t0 := k.heap.live, k.heap.entries[..];
    assert fs[1] in fs[1..3] && fs[2] in fs[1..3];
    FreeItem(k, itemAddr, cloneAddr, fs);
    FreeKeepingRoom(k, fatAddr, live, t0, fs, 0, {fs[2] - HEAP_FRAME, fs[1] - HEAP_FRAME});
  }

  /** `fat16_fat_item_free` of a file's item. */
  method FreeItem(k: Machine, itemAddr: u32, cloneAddr: u32, ghost fs: seq<nat>)
    requires k.Valid() && |fs| == 4 && fs[1] != fs[2] && AllSingle(k.heap.live, fs)
    requires itemAddr % PAGE == cloneAddr % PAGE == 0 && itemAddr / PAGE == fs[1] && cloneAddr / PAGE == fs[2]
    modifies k.heap`live, k.heap.entries
    ensures k.Valid() && k.heap.live == old(k.heap.live) - {fs[2] - HEAP_FRAME, fs[1] - HEAP_FRAME}
    ensures RoomLeft(old(k.heap.entries[..]), k.heap.entries[..], 0)
  {
    hide RoomLeft, AllSingle, Decodes;
    ghost var live, t0 := k.heap.live, k.heap.entries[..];
    FreeKeepingRoom(k, cloneAddr, live, t0, fs, 2, {});
    FreeKeepingRoom(k, itemAddr, live, t0, fs, 1, {fs[2] - HEAP_FRAME});
  }

  method FreeKeepingRoom(k: Machine, p: u32, ghost live: Extents, ghost t0: Table, ghost fs: seq<nat>, ghost i: nat,
                         ghost gone: set<int>)
    requires k.Valid() && i < |fs| && AllSingle(live, fs) && p % PAGE == 0 && p / PAGE == fs[i]
    requires k.heap.live == live - gone && fs[i] - HEAP_FRAME !in gone
    requires RoomLeft(t0, k.heap.entries[..], 0) || (gone == {} && k.heap.entries[..] == t0)
    modifies k.heap`live, k.heap.entries
    ensures k.Valid() && k.heap.live == live - (gone + {fs[i] - HEAP_FRAME}) && RoomLeft(t0, k.heap.entries[..], 0)
  {
    hide RoomLeft, Cleared;
    ghost var t := k.heap.entries[..];
    assert Single(live, fs[i]);
    FrameBlock(fs[i]);
    RoomAfterClear(t, fs[i] - HEAP_FRAME, 1);
    k.Kfree(p);
    if RoomLeft(t0, t, 0) {
      RoomLeftTrans(t0, t, k.heap.entries[..], 0, 0);
    }
  }

  lemma FourFrames(fs: seq<nat>)
    requires |fs| == 4 && Distinct(fs)
    ensures BlocksOf(fs) == {fs[2] - HEAP_FRAME, fs[1] - HEAP_FRAME, fs[0] - HEAP_FRAME, fs[3] - HEAP_FRAME}
    ensures fs[0] != fs[1] && fs[0] != fs[2] && fs[0] != fs[3] && fs[1] != fs[2] && fs[1] != fs[3] && fs[2] != fs[3]
  {
    hide BlocksOf;
    assert fs == [fs[0]] + [fs[1]] + [fs[2]] + [fs[3]];
    BlocksOfConcat([fs[0]] + [fs[1]] + [fs[2]], [fs[3]]);
    BlocksOfConcat([fs[0]] + [fs[1]], [fs[2]]);
    BlocksOfConcat([fs[0]], [fs[1]]);
    BlocksOfOne(fs[0]);
    BlocksOfOne(fs[1]);
    BlocksOfOne(fs[2]);
    BlocksOfOne(fs[3]);
  }

  lemma FirstText(parts: seq<PathPart>)
    requires parts != []
    ensures |Texts(parts)| == |parts| && Texts(parts)[0] == CString(parts[0].text[..])
  {
    hide CString;
    if |parts| > 1 {
      FirstText(parts[..|parts| - 1]);
    }
  }

  /** The C string in a buffer, as the lookup reads it. */
  method StringOf(a: array<byte>) returns (s: seq<byte>)
    ensures s == CString(a[..])
  {
    var i := 0;
    while i < a.Length && a[i] != 0
      invariant 0 <= i <= a.Length && 0 !in a[..i]
    {
      i := i + 1;
    }
    s := a[..i];
    if i < a.Length {
      CStringIs(a[..], i);
    } else {
      CStringAll(a[..]);
    }
  }

  lemma CStringAll(s: seq<byte>)
    requires 0 !in s
    ensures CString(s) == s
  {
    assert forall i :: 0 <= i < |s| ==> s[i] in s;
  }

  // ---------------------------------------------------------------- a lookup on the disk

  /** The directory on the disk, as far as a lookup goes: slots it visits end their names, and those found are files. */
  ghost predicate Searchable(image: Image, h: Header, n: nat, name: seq<byte>) {
    var base := RootSector(h) * SECTOR;
    && EndsAt(image, base, n) && LiveCount(image, base, n) <= h.rootEntries
    && forall i: nat :: i < LiveCount(image, base, n) ==>
         Tame(Slot(image, base, i)) && (SlotNamed(image, base, i, name) ==> !IsSubdirectory(Slot(image, base, i), 0))
  }

  /**
   The root directory loaded, then searched. The slot found is the last visited one that renders to the name; with all
   visited slots in order it is an entry with that 8.3 name, and nothing is found only when there is none.
   */
  method RootLookup(k: Machine, stream: Stream, h: Header, name: seq<byte>, ghost n: nat)
    returns (res: int, found: Option<nat>)
    requires k.Valid() && Searchable(stream.image, h, n, name) && 0 !in name && |name| < MAX_PATH
    requires h.rootEntries > 0 ==> Honest(k.heap.entries[..], BlocksFor(h.rootEntries * ITEM))
    requires FreeBlocks(k.heap.entries[..]) >= BlocksFor(h.rootEntries * ITEM) + 2 * h.rootEntries
    modifies stream, k.heap, k.heap.entries, k.ram
    ensures res == 0 || (res == -ENOMEM && found.None?)
    ensures var base := RootSector(h) * SECTOR;
      && (res == 0 ==> found == LookedUp(stream.image, base, LiveCount(stream.image, base, n), name))
      && (res == 0 && AllInOrder(stream.image, base, n) ==>
           match found
           case Some(i) => EntryNamed(stream.image, base, n, i, name)
           case None => forall i: nat :: !EntryNamed(stream.image, base, n, i, name))
  {
    hide Served, Honest, Decodes, Fits, LiveCount, EndsAt, Tame, Slot, ItemAt, Matches, EntryNamed, AllInOrder;
    hide LookedUp;
    hide FreeBlocks, RoomLeft, Searchable, RootLoaded, FilesOnly, FoundSlot, BlocksFor;
    var dir;
    ghost var t := k.heap.entries[..];
    SearchableMarker(stream.image, h, n, name);
    res, dir := GetRootDirectory(k, stream, h, n);
    if res != 0 {
      return res, None;
    }
    LoadedSearchable(dir, stream.image, h, n, name);
    BlocksLeft(t, k.heap.entries[..], BlocksFor(h.rootEntries * ITEM));
    TookNothing(k);
    var itemAddr, cloneAddr;
    ghost var fs;
    found, itemAddr, cloneAddr, fs := FindItem(k, dir, name, k.heap.live, k.heap.entries[..], k.ram[..], []);
    LoadedLookup(dir, stream.image, h, n, name, dir.total);
    if AllInOrder(stream.image, RootSector(h) * SECTOR, n) {
      InOrderIsRight(stream.image, RootSector(h) * SECTOR, n, name);
    }
  }

  /** The lookup in the loaded directory is the lookup on the disk. */
  lemma {:induction false} LoadedLookup(dir: Directory, image: Image, h: Header, n: nat, name: seq<byte>, m: nat)
    requires RootLoaded(dir, image, h, n) && m <= h.rootEntries
    ensures FoundSlot(dir.items[..], m, name) == LookedUp(image, RootSector(h) * SECTOR, m, name)
    decreases m
  {
    hide RootLoaded, Slot, ItemAt, Rendered, SameIgnoringCase;
    if m > 0 {
      LoadedLookup(dir, image, h, n, name, m - 1);
      LoadedSlot(dir, image, h, n, m - 1);
    }
  }

  lemma SearchableMarker(image: Image, h: Header, n: nat, name: seq<byte>)
    requires Searchable(image, h, n, name)
    ensures EndsAt(image, RootSector(h) * SECTOR, n)
  {
  }

  lemma BlocksLeft(t: Table, t': Table, used: nat)
    requires RoomLeft(t, t', used)
    ensures FreeBlocks(t') + used >= FreeBlocks(t)
  {
  }

  lemma LoadedSearchable(dir: Directory, image: Image, h: Header, n: nat, name: seq<byte>)
    requires Searchable(image, h, n, name) && RootLoaded(dir, image, h, n)
    ensures dir.total <= h.rootEntries && ITEM * dir.total <= dir.items.Length
    ensures dir.total == LiveCount(image, RootSector(h) * SECTOR, n)
    ensures EndsAt(image, RootSector(h) * SECTOR, n)
    ensures forall i: nat :: i < dir.total ==> Tame(ItemAt(dir.items[..], i))
    ensures FilesOnly(dir.items[..], dir.total, name)
  {
    hide Tame, Rendered, SameIgnoringCase, LiveCount, EndsAt;
    forall i: nat | i < dir.total
      ensures Tame(ItemAt(dir.items[..], i)) && (Matches(dir.items[..], i, name) ==> !IsSubdirectory(dir.items[..], i))
    {
      LoadedSlot(dir, image, h, n, i);
      assert ItemAt(dir.items[..], i)[11] == dir.items[ITEM * i + 11];
    }
  }
}
