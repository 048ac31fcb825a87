/** The kernel as a whole: process slots, task list and memory, over any run of process loads. */
module KernelState {
  import opened Words
  import opened HeapTable
  import opened HeapRuns
  import opened Heap
  import opened Kheap
  import opened PageTables
  import opened AddressSpace
  import opened DiskStream
  import opened FatChain
  import opened FatExact
  import opened FatDirectory
  import opened PathParser
  import opened Files
  import opened Tasks
  import opened Processes

  /** A space that is apart from all others is none of them. */
  lemma NewSpaceDiffers(m: seq<byte>, live: Extents, kc: u32, spaces: seq<Space>, s: Space)
    requires MapsApart(m, live, kc, spaces + [s])
    ensures s !in spaces
  {
    hide Loaded, ChunkBlocks, KernelMap, Chunk;
    forall i: nat | i < |spaces| ensures spaces[i] != s {
      assert Apart(m, (spaces + [s])[i], (spaces + [s])[|spaces|]);
      assert s.ptr / PAGE - HEAP_FRAME in WritableStarts(s);
    }
  }

  class Kernel {
    const fsys: FileSystem
    const sched: Scheduler
    const processes: array<Process?>

    /** The memory of tasks, one for each block of the heap. */
    const taskBlocks: seq<Task>

    /** `kernel_chunk`, the page structure the kernel itself runs on. */
    const kernelChunk: u32

    /** The task list, and the spaces of all processes ever loaded. */
    ghost var ring: seq<Task>
    ghost var spaces: seq<Space>

    /** A kernel that has mounted its disk and built its page structure, and loaded nothing yet. */
    constructor (fsys: FileSystem, taskBlocks: seq<Task>, kernelChunk: u32)
      requires fsys.Mounted() && OneTaskPerBlock(taskBlocks) && KernelMap(fsys.k.ram[..], fsys.k.heap.live, kernelChunk)
      ensures Valid() && this.fsys == fsys && this.taskBlocks == taskBlocks && this.kernelChunk == kernelChunk
      ensures ring == [] && spaces == [] && forall i :: 0 <= i < MAX_PROCESSES ==> processes[i] == null
    {
      this.fsys, this.taskBlocks, this.kernelChunk, ring, spaces := fsys, taskBlocks, kernelChunk, [], [];
      sched := new Scheduler();
      processes := new Process?[MAX_PROCESSES](_ => null);
    }

    /**
     Files and tasks are in order: the list is doubly linked, its tasks lie in live blocks, and every slot holds a
     process with a task of the list and a space of its own.
     */
    ghost predicate Tidy()
      reads this, fsys, fsys.k, fsys.k.heap, fsys.k.heap.entries, fsys.k.ram, fsys.fat, fsys.dir, fsys.dir.items
      reads sched, ring, processes, set i | 0 <= i < processes.Length && processes[i] != null :: processes[i]
    {
      && fsys.Mounted() && processes.Length == MAX_PROCESSES && sched.Sound(ring, {})
      && OneTaskPerBlock(taskBlocks) && ListLive(taskBlocks, fsys.k.heap.live, ring)
      && processes as object != fsys.slots && processes as object != fsys.dir.items
      && processes as object != fsys.k.ram && processes as object != fsys.k.heap.entries
      && SlotsTidy()
    }

    /** Every slot in use holds a process with its number, a task of the list and a space of its own. */
    ghost predicate SlotsTidy()
      reads this, ring, processes, set i | 0 <= i < processes.Length && processes[i] != null :: processes[i]
    {
      && processes.Length == MAX_PROCESSES
      && (forall i: nat :: i < MAX_PROCESSES && processes[i] != null ==>
            processes[i].id == i && processes[i].task != null && processes[i].task in ring
              && SpaceOf(processes[i]) in spaces)
      && (forall i: nat, j: nat :: i < j < MAX_PROCESSES && processes[i] != null && processes[j] != null ==>
            SpaceOf(processes[i]) != SpaceOf(processes[j]))
    }

    /** Tidy, and the kernel's map and all spaces are loaded and apart. */
    ghost predicate Valid()
      reads this, fsys, fsys.k, fsys.k.heap, fsys.k.heap.entries, fsys.k.ram, fsys.fat, fsys.dir, fsys.dir.items
      reads sched, ring, processes, set i | 0 <= i < processes.Length && processes[i] != null :: processes[i]
    {
      Tidy() && MapsApart(fsys.k.ram[..], fsys.k.heap.live, kernelChunk, spaces)
    }

    /** `process_get_free_slot` */
    method GetFreeSlot() returns (i: int)
      requires processes.Length == MAX_PROCESSES
      ensures i == -EISTKN ==> forall j :: 0 <= j < MAX_PROCESSES ==> processes[j] != null
      ensures i != -EISTKN ==>
          0 <= i < MAX_PROCESSES && processes[i] == null && forall j :: 0 <= j < i ==> processes[j] != null
    {
      i := 0;
      while i < MAX_PROCESSES
        invariant 0 <= i <= MAX_PROCESSES && forall j :: 0 <= j < i ==> processes[j] != null
      {
        if processes[i] == null {
          return;
        }
        i := i + 1;
      }
      i := -EISTKN;
    }

    /** The file can be read into a process: loadable as walked, and a descriptor is free. */
    ghost predicate CanLoad(path: seq<byte>)
      requires fsys.Mounted()
      reads this, fsys, fsys.k, fsys.k.heap, fsys.k.heap.entries, fsys.k.ram, fsys.fat, fsys.dir, fsys.dir.items
      reads fsys.slots
    {
      Loadable(fsys.fat.vol, fsys.dir.items[..], fsys.dir.total, path)
        && FreeIndex(fsys.slots[..], 0) < MAX_FILE_DESCRIPTORS
    }

    /**
     What a load asks of the kernel: room for what it takes, not necessarily in one run; a name that leads to no
     subdirectory; a size that does not wrap; and that the next free descriptor is not number 512.
     */
    ghost predicate MayLoad(path: seq<byte>)
      requires fsys.Mounted()
      reads this, fsys, fsys.k, fsys.k.heap, fsys.k.heap.entries, fsys.k.ram, fsys.fat, fsys.dir, fsys.dir.items
      reads fsys.slots
    {
      && 0 !in path && FreeIndex(fsys.slots[..], 0) != MAX_FILE_DESCRIPTORS - 1
      && PlainPath(fsys.dir.items[..], fsys.dir.total, path)
      && FileBytes(fsys.dir.items[..], fsys.dir.total, path) <= 0xffff_f000
      && RoomFor(fsys.k.heap.entries[..], LoadRoom(fsys.dir.items[..], fsys.dir.total, path))
    }

    /** All that a load takes fits into one run of free blocks. */
    ghost predicate Roomy(path: seq<byte>)
      requires fsys.Mounted()
      reads this, fsys, fsys.k, fsys.k.heap, fsys.k.heap.entries, fsys.k.ram, fsys.fat, fsys.dir, fsys.dir.items
    {
      Fits(fsys.k.heap.entries[..], LoadRoom(fsys.dir.items[..], fsys.dir.total, path))
    }

    /** A new process in slot i, its task at the end of the list, its space among the others, its file in memory. */
    ghost predicate Entered(process: Process, i: nat, path: seq<byte>, ring0: seq<Task>, spaces0: seq<Space>,
                            was: seq<Process?>)
      reads this, process, process.task, fsys, fsys.k, fsys.k.ram, fsys.fat, fsys.dir, fsys.dir.items, processes
    {
      && i < |was| && process.id == i && process.task != null
      && processes[..] == was[i := process] && ring == ring0 + [process.task]
      && spaces == spaces0 + [SpaceOf(process)]
      && ITEM * fsys.dir.total <= fsys.dir.items.Length && fsys.fat.vol.Valid()
      && process.size == FileBytes(fsys.dir.items[..], fsys.dir.total, path) && process.size > 0
      && HoldsFile(fsys.k.ram[..], process.ptr, fsys.fat.vol,
         FileCluster(AsWritten, fsys.dir.items[..], fsys.dir.total, path), process.size)
    }

    /** The last steps of `process_load_for_slot`: the task is linked in, the process entered in its slot. */
    method Enter(p: Process, task: Task, slot: nat, ghost space: Space)
      requires Tidy() && MapsApart(fsys.k.ram[..], fsys.k.heap.live, kernelChunk, spaces + [space])
      requires slot < MAX_PROCESSES && processes[slot] == null && p !in processes[..]
      requires p.task == task && SpaceOf(p) == space && task.next == null && task.prev == null && task !in ring
      requires ListLive(taskBlocks, fsys.k.heap.live, ring + [task])
      modifies this`ring, this`spaces, sched, sched.tail, task, processes, p`id
      ensures Valid()
      ensures p.id == slot && processes[..] == old(processes[..])[slot := p] && p.task == task && SpaceOf(p) == space
      ensures ring == old(ring) + [task] && spaces == old(spaces) + [space]
    {
      hide FileSystem.Mounted, Scheduler.Sound, MapsApart, OneTaskPerBlock;
      NewSpaceDiffers(fsys.k.ram[..], fsys.k.heap.live, kernelChunk, spaces, space);
      hide ListLive;
      sched.Append(task, ring, {});
      assert {} - {task} == {};
      EnterSlot(p, task, slot, space);
    }

    /** `_process->id` and `processes[process_slot]`. */
    method EnterSlot(p: Process, task: Task, slot: nat, ghost space: Space)
      requires SlotsTidy() && slot < MAX_PROCESSES && processes[slot] == null && p !in processes[..]
      requires p.task == task && SpaceOf(p) == space && space !in spaces
      modifies this`ring, this`spaces, processes, p`id
      ensures SlotsTidy()
      ensures p.id == slot && processes[..] == old(processes[..])[slot := p] && p.task == task && SpaceOf(p) == space
      ensures ring == old(ring) + [task] && spaces == old(spaces) + [space]
    {
      assert forall i: nat :: i < MAX_PROCESSES && processes[i] != null ==>
        processes[i] != p && processes[i] in processes[..];
      p.id := slot;
      processes[slot] := p;
      ring, spaces := ring + [task], spaces + [space];
      forall i: nat | i < MAX_PROCESSES && processes[i] != null
        ensures processes[i].id == i && processes[i].task != null && processes[i].task in ring
        ensures SpaceOf(processes[i]) in spaces
      {
        if i == slot {
          assert ring[|ring| - 1] == task && spaces[|spaces| - 1] == space;
        } else {
          assert processes[i] == old(processes[i]) && processes[i].task in old(ring);
          assert SpaceOf(processes[i]) == old(SpaceOf(processes[i]));
        }
      }
    }

    /** `process_load_for_slot` on a free slot. */
    method LoadForSlot(path: seq<byte>, slot: nat) returns (res: int, process: Process?)
      requires Valid() && MayLoad(path) && slot < MAX_PROCESSES && processes[slot] == null
      modifies this`ring, this`spaces, fsys.k.heap, fsys.k.heap.entries, fsys.k.ram, fsys.slots
      modifies fsys.fat.clusterStream, fsys.fat.fatStream, sched, taskBlocks, processes
      ensures Valid() && fsys.slots[..] == old(fsys.slots[..]) && fsys.k.heap.spill == old(fsys.k.heap.spill)
      ensures Grown(old(fsys.k.heap.live), fsys.k.heap.live)
      ensures Preserved(old(fsys.k.heap.live), old(fsys.k.ram[..]), fsys.k.ram[..])
      ensures (res == 0 ==> old(CanLoad(path))) && (old(Roomy(path)) ==> (res == 0 <==> old(CanLoad(path))))
      ensures res != 0 ==>
          process == null && processes[..] == old(processes[..]) && ring == old(ring) && spaces == old(spaces)
      ensures res == 0 || res == -EIO || res == -ENOMEM
      ensures res == 0 ==>
        process != null && fresh(process) && Entered(process, slot, path, old(ring), old(spaces), old(processes[..]))
    {
      hide Preserved, Fits, FreeIndex, HoldsFile, Grown, Loadable, FileBytes, FileCluster, LoadRoom, MapsApart, Tame;
      hide ItemAt, Decodes, Scheduler.Sound, SlotsTidy;
      hide MayLoad, OneTaskPerBlock, ListLive, FileSystem.OfDisk, Roomy;
      process := null;
      ghost var space;
      var p, task;
      res, p, task, space := LoadMemory(path);
      if res < 0 {
        return;
      }
      process := p;
      sched.Ends(ring, {});
      TailIsListed();
      Enter(p, task, slot, space);
    }

    lemma TailIsListed()
      requires Tidy()
      ensures sched.tail != null ==> sched.tail in taskBlocks
    {
      hide Scheduler.Sound, FileSystem.Mounted;
      sched.Ends(ring, {});
    }

    /** The memory half of `process_load_for_slot`, among the processes there are. */
    method LoadMemory(path: seq<byte>) returns (res: int, process: Process?, task: Task?, ghost space: Space)
      requires Valid() && MayLoad(path)
      modifies fsys.k.heap, fsys.k.heap.entries, fsys.k.ram, fsys.slots, fsys.fat.clusterStream
      modifies fsys.fat.fatStream, Spare(taskBlocks, ring)
      ensures Tidy() && fsys.slots[..] == old(fsys.slots[..]) && fsys.k.heap.spill == old(fsys.k.heap.spill)
      ensures processes[..] == old(processes[..]) && fsys.dir.items[..] == old(fsys.dir.items[..])
      ensures Grown(old(fsys.k.heap.live), fsys.k.heap.live)
      ensures Preserved(old(fsys.k.heap.live), old(fsys.k.ram[..]), fsys.k.ram[..])
      ensures (res == 0 ==> old(CanLoad(path))) && (old(Roomy(path)) ==> (res == 0 <==> old(CanLoad(path))))
      ensures res == 0 || res == -EIO || res == -ENOMEM
      ensures res != 0 ==> Valid()
      ensures res == 0 ==>
        && process != null && fresh(process) && task != null && task in taskBlocks && ReadyToList(task)
        && task.next == null && task.prev == null && process.task == task
        && space == SpaceOf(process) && MapsApart(fsys.k.ram[..], fsys.k.heap.live, kernelChunk, spaces + [space])
        && process.size == FileBytes(fsys.dir.items[..], fsys.dir.total, path) && process.size > 0
        && HoldsFile(fsys.k.ram[..], process.ptr, fsys.fat.vol,
           FileCluster(AsWritten, fsys.dir.items[..], fsys.dir.total, path), process.size)
    {
      hide Preserved, Fits, Tame, ItemAt, HoldsFile, Grown, FileBytes, FileCluster, Loaded, Decodes, NewProcess;
      hide CanLoad, Roomy;
      hide WritableStarts, ChunkBlocks, Scheduler.Sound, LoadRoom, MapsApart, SlotsTidy, OneTaskPerBlock, ListLive;
      hide MayLoad, FileSystem.OfDisk;
      ghost var m0, live0 := fsys.k.ram[..], fsys.k.heap.live;
      res, process, task, space := LoadTidily(path);
      if res < 0 {
        MapsApartPreserved(m0, live0, fsys.k.ram[..], fsys.k.heap.live, kernelChunk, spaces);
        return;
      }
      NewProcessJoins(m0, live0, path, process, task, space);
    }

    /** A new process joins those there are. */
    lemma NewProcessJoins(m0: seq<byte>, live0: Extents, path: seq<byte>, process: Process, task: Task, space: Space)
      requires Tidy() && MapsApart(m0, live0, kernelChunk, spaces) && Grown(live0, fsys.k.heap.live)
      requires Preserved(live0, m0, fsys.k.ram[..])
      requires NewProcess(fsys, taskBlocks, live0, path, process, task, space)
      ensures MapsApart(fsys.k.ram[..], fsys.k.heap.live, kernelChunk, spaces + [space])
      ensures task in taskBlocks && task.next == null && task.prev == null && process.task == task
      ensures space == SpaceOf(process)
      ensures process.size == FileBytes(fsys.dir.items[..], fsys.dir.total, path) && process.size > 0
      ensures HoldsFile(fsys.k.ram[..], process.ptr, fsys.fat.vol,
          FileCluster(AsWritten, fsys.dir.items[..], fsys.dir.total, path), process.size)
    {
      hide Preserved, Tame, ItemAt, HoldsFile, Grown, FileBytes, FileCluster, Loaded, Decodes, WritableStarts;
      hide ChunkBlocks, Scheduler.Sound, MapsApart;
      hide SlotsTidy, OneTaskPerBlock, ListLive, FileSystem.OfDisk;
      MapsApartGrows(m0, live0, fsys.k.ram[..], fsys.k.heap.live, kernelChunk, spaces, space);
      SizePositive(fsys.k.ram[..], fsys.k.heap.live, space);
    }

    /** A task not in the list, which can be put at its end. */
    ghost predicate ReadyToList(task: Task)
      reads this, fsys, fsys.k, fsys.k.heap
    {
      task !in ring && ListLive(taskBlocks, fsys.k.heap.live, ring + [task])
    }

    /** The load itself: list and slots stay in order, since the new task is none of the list. */
    method LoadTidily(path: seq<byte>) returns (res: int, process: Process?, task: Task?, ghost space: Space)
      requires Valid() && MayLoad(path)
      modifies fsys.k.heap, fsys.k.heap.entries, fsys.k.ram, fsys.slots, fsys.fat.clusterStream
      modifies fsys.fat.fatStream, Spare(taskBlocks, ring)
      ensures Tidy() && fsys.slots[..] == old(fsys.slots[..]) && fsys.k.heap.spill == old(fsys.k.heap.spill)
      ensures processes[..] == old(processes[..]) && fsys.dir.items[..] == old(fsys.dir.items[..])
      ensures Grown(old(fsys.k.heap.live), fsys.k.heap.live)
      ensures Preserved(old(fsys.k.heap.live), old(fsys.k.ram[..]), fsys.k.ram[..])
      ensures (res == 0 ==> old(CanLoad(path))) && (old(Roomy(path)) ==> (res == 0 <==> old(CanLoad(path))))
      ensures res == 0 || res == -EIO || res == -ENOMEM
      ensures res == 0 ==>
        && process != null && fresh(process) && task != null && ReadyToList(task)
        && NewProcess(fsys, taskBlocks, old(fsys.k.heap.live), path, process, task, space)
    {
      hide Preserved, Fits, Tame, ItemAt, FreeIndex, Grown, Loadable, FileBytes, LoadRoom, MapsApart, OneTaskPerBlock;
      hide ListLive, PlainPath, RoomFor, Decodes;
      hide Scheduler.Sound, NewProcess, SlotsTidy, FileSystem.OfDisk;
      ghost var live0 := fsys.k.heap.live;
      res, process, task, space := LoadSpace(fsys, taskBlocks, ring, path);
      assert processes[..] == old(processes[..]) && fsys.dir.items[..] == old(fsys.dir.items[..]);
      ListStaysLive(taskBlocks, live0, fsys.k.heap.live, ring);
    }

    /**
     `process_load`. It succeeds only when a slot and a descriptor are free and the file is loadable, and always then if
     one run of free blocks has room for all it takes. On success the least free slot holds a process whose task ends
     the task list, with a space of its own and the file in its program pages. Success or not, every process loaded
     before stays loaded, with its map, its memory and its isolation.
     */
    method Load(path: seq<byte>) returns (res: int, process: Process?)
      requires Valid() && MayLoad(path)
      modifies this`ring, this`spaces, fsys.k.heap, fsys.k.heap.entries, fsys.k.ram, fsys.slots
      modifies fsys.fat.clusterStream, fsys.fat.fatStream, sched, taskBlocks, processes
      ensures Valid() && fsys.slots[..] == old(fsys.slots[..]) && fsys.k.heap.spill == old(fsys.k.heap.spill)
      ensures Grown(old(fsys.k.heap.live), fsys.k.heap.live)
      ensures Preserved(old(fsys.k.heap.live), old(fsys.k.ram[..]), fsys.k.ram[..])
      ensures res == 0 ==> old(CanLoad(path)) && exists i :: 0 <= i < MAX_PROCESSES && old(processes[i]) == null
      ensures old(Roomy(path)) ==>
        (res == 0 <==> old(CanLoad(path)) && exists i :: 0 <= i < MAX_PROCESSES && old(processes[i]) == null)
      ensures res == -EISTKN <==> forall i :: 0 <= i < MAX_PROCESSES ==> old(processes[i]) != null
      ensures res != 0 ==>
          process == null && processes[..] == old(processes[..]) && ring == old(ring) && spaces == old(spaces)
      ensures res == 0 ==>
        && process != null && fresh(process) && process.id < MAX_PROCESSES
        && old(processes[..])[process.id] == null && (forall j :: 0 <= j < process.id ==> old(processes[..])[j] != null)
        && Entered(process, process.id, path, old(ring), old(spaces), old(processes[..]))
    {
      hide Valid, Preserved, Fits, BlocksFor, FreeIndex, Grown, CanLoad, FileBytes, FileCluster, HoldsFile, LoadRoom;
      hide MayLoad, Roomy;
      SlotCount();
      NothingDone(fsys.k.heap.live, fsys.k.ram[..]);
      var slot := GetFreeSlot();
      if slot < 0 {
        return -EISTKN, null;
      }
      res, process := LoadForSlot(path, slot);
    }

    lemma SlotCount()
      requires Valid()
      ensures processes.Length == MAX_PROCESSES && fsys.k.ram.Length == RAM_BYTES
    {
    }
  }

  /**
   In every valid state of the kernel, hence after any run of loads and copies, no frame can be written by the processes
   of two slots, and none that one of them can write to is part of a page structure, the kernel's included. What they
   can read is in `ReadableExact`.
   */
  lemma SlotsIsolated(kernel: Kernel, i: nat, j: nat, p: nat, q: nat)
    requires kernel.Valid() && i < MAX_PROCESSES && j < MAX_PROCESSES && i != j && p < FRAMES && q < FRAMES
    requires kernel.processes[i] != null && kernel.processes[j] != null
    requires kernel.processes[i].task.pageDirectory / PAGE < FRAMES
    requires kernel.processes[j].task.pageDirectory / PAGE < FRAMES
    requires kernel.kernelChunk / PAGE < FRAMES
    ensures var m, c, d := kernel.fsys.k.ram[..], kernel.processes[i].task.pageDirectory / PAGE,
        kernel.processes[j].task.pageDirectory / PAGE;
      Writable(m, c, p) ==>
        && !(Writable(m, d, q) && View(m, d)[q] / PAGE == View(m, c)[p] / PAGE)
        && View(m, c)[p] / PAGE - HEAP_FRAME !in ChunkBlocks(m, c) + ChunkBlocks(m, d) +
           ChunkBlocks(m, kernel.kernelChunk / PAGE)
  {
    hide Loaded, Chunk, View, Writable, ChunkBlocks, AllLoaded, Decodes, OneTaskPerBlock, ListLive, Scheduler.Sound;
    hide FileSystem.OfDisk, Tame, ItemAt, KernelMap;
    var m, s, r := kernel.fsys.k.ram[..], SpaceOf(kernel.processes[i]), SpaceOf(kernel.processes[j]);
    var lo, hi := if i < j then i else j, if i < j then j else i;
    assert SpaceOf(kernel.processes[lo]) != SpaceOf(kernel.processes[hi]);
    var a: nat :| a < |kernel.spaces| && kernel.spaces[a] == s;
    var b: nat :| b < |kernel.spaces| && kernel.spaces[b] == r;
    if Writable(m, s.chunk / PAGE, p) {
      Isolation(kernel.fsys.k.heap.entries[..], m, kernel.fsys.k.heap.live, kernel.spaces, a, p);
      KernelIsolation(kernel.fsys.k.heap.entries[..], m, kernel.fsys.k.heap.live, kernel.kernelChunk, kernel.spaces, a,
        p);
    }
  }

  /** Through the walk of its own directory, virtual byte 0x400000 + i of a loaded process is byte i of its file. */
  lemma VirtualFile(m: seq<byte>, live: Extents, s: Space, v: Volume, c: nat, i: nat)
    requires Loaded(m, live, s) && HoldsFile(m, s.ptr, v, c, s.size) && i < s.size
    ensures PROGRAM_VIRTUAL + i < RAM_BYTES && HasByte(v, AsWritten, c, i)
    ensures Translate(m, s.chunk / PAGE, PROGRAM_VIRTUAL + i) < |m|
    ensures m[Translate(m, s.chunk / PAGE, PROGRAM_VIRTUAL + i)] == ChainByte(v, AsWritten, c, i)
  {
    hide Chunk, View, HasByte, ChainByte;
    BlocksForExact(s.size);
    TranslateLoaded(m, live, s, PROGRAM_VIRTUAL + i);
  }

  /** The process with space s sees the file of the FAT specification at its program address. */
  ghost predicate SeesFile(m: seq<byte>, s: Space, v: Volume, c: nat)
    requires |m| == RAM_BYTES && s.chunk / PAGE < FRAMES && v.Valid()
  {
    PROGRAM_VIRTUAL + s.size <= RAM_BYTES && forall i: nat :: i < s.size ==>
      && HasByte(v, AsSpecified, c, i)
      && m[Translate(m, s.chunk / PAGE, PROGRAM_VIRTUAL + i)] == ChainByte(v, AsSpecified, c, i)
  }

  /** A loaded process sees its file exactly when the code reads that file right. */
  lemma SeesFileExact(m: seq<byte>, live: Extents, s: Space, v: Volume, c: nat)
    requires Loaded(m, live, s) && HoldsFile(m, s.ptr, v, c, s.size)
    ensures SeesFile(m, s, v, c) <==> ReadsRight(v, c, s.size)
  {
    hide Chunk, View, HasByte, ChainByte, Translate, HoldsFile, Loaded;
    LoadedBounds(m, live, s, v, c);
    if SeesFile(m, s, v, c) {
      forall i: nat | i < s.size
        ensures HasByte(v, AsWritten, c, i) && HasByte(v, AsSpecified, c, i)
        ensures ChainByte(v, AsWritten, c, i) == ChainByte(v, AsSpecified, c, i)
      {
        VirtualFile(m, live, s, v, c, i);
      }
    }
    if ReadsRight(v, c, s.size) {
      forall i: nat | i < s.size
        ensures HasByte(v, AsSpecified, c, i)
        ensures m[Translate(m, s.chunk / PAGE, PROGRAM_VIRTUAL + i)] == ChainByte(v, AsSpecified, c, i)
      {
        VirtualFile(m, live, s, v, c, i);
        assert HasByte(v, AsWritten, c, i);
      }
    }
  }

  lemma LoadedBounds(m: seq<byte>, live: Extents, s: Space, v: Volume, c: nat)
    requires Loaded(m, live, s) && HoldsFile(m, s.ptr, v, c, s.size)
    ensures |m| == RAM_BYTES && s.chunk / PAGE < FRAMES && v.Valid() && PROGRAM_VIRTUAL + s.size <= RAM_BYTES
  {
    BlocksForExact(s.size);
  }

  /** Slot i of the root directory on the disk is the file that the FAT specification says the path names. */
  ghost predicate PathEntry(v: Volume, n: nat, path: seq<byte>, i: nat) {
    && Accepted(path) && path[0] == ZERO && |Components(path[3..])| == 1
    && EntryNamed(v.image, RootSector(v.h) * SECTOR, n, i, Components(path[3..])[0])
    && !IsSubdirectory(Slot(v.image, RootSector(v.h) * SECTOR, i), 0)
  }

  /** The slot that opening a path finds is such a file, with the size and the clusters found for it. */
  lemma PathSlotIsEntry(dir: Directory, v: Volume, n: nat, path: seq<byte>, i: nat)
    requires RootLoaded(dir, v.image, v.h, n) && AllInOrder(v.image, RootSector(v.h) * SECTOR, n)
    requires ITEM * dir.total <= dir.items.Length && PlainPath(dir.items[..], dir.total, path)
    requires PathSlot(dir.items[..], dir.total, path) == Some(i)
    ensures PathEntry(v, n, path, i)
    ensures FileBytes(dir.items[..], dir.total, path) == FileSize(Slot(v.image, RootSector(v.h) * SECTOR, i), 0)
    ensures forall how :: FileCluster(how, dir.items[..], dir.total, path)
                          == FirstCluster(how, Slot(v.image, RootSector(v.h) * SECTOR, i), 0)
  {
    hide AllInOrder, EntryNamed, Rendered, SameIgnoringCase, Components, LiveCount, EndsAt, Slot, IsSubdirectory;
    var name, base := Components(path[3..])[0], RootSector(v.h) * SECTOR;
    FoundSlotIs(dir.items[..], dir.total, name);
    LoadedLookup(dir, v.image, v.h, n, name, dir.total);
    InOrderIsRight(v.image, base, n, name);
    LoadedSlot(dir, v.image, v.h, n, i);
    SlotFields(dir.items[..], i);
  }

  /**
    Links and data area of the file in slot i are found right: its first cluster, and all its links if it needs any.
  */
  ghost predicate FoundRight(v: Volume, i: nat, size: nat)
    requires v.Valid()
  {
    var s := Slot(v.image, RootSector(v.h) * SECTOR, i);
    var c := FirstCluster(AsSpecified, s, 0);
    && v.h.rootEntries % 16 == 0 && Field16(s, 20) == 0 && c >= 2 && ChainCovers(v, c, 0, size)
    && (size <= ClusterBytes(v) || LinksMetAgree(v, c, Quot(size - 1, ClusterBytes(v))))
  }

  /**
   End to end: the path of a process just loaded names, by the FAT specification, the file in some slot of the root
   directory on the disk, and the process sees that file from 0x400000 on, as long as the visited slots are in order
   (see `NamesExact`), the root directory fills its sectors, the high half of the first cluster is zero, and the file
   fits one cluster or all links met on the way are read right.
   */
  lemma LoadedProcessSeesFile(kernel: Kernel, process: Process, path: seq<byte>, n: nat,
                              ring0: seq<Task>, spaces0: seq<Space>, was: seq<Process?>) returns (i: nat)
    requires kernel.Valid() && kernel.Entered(process, process.id, path, ring0, spaces0, was)
    requires RootLoaded(kernel.fsys.dir, kernel.fsys.fat.vol.image, kernel.fsys.fat.vol.h, n)
    requires AllInOrder(kernel.fsys.fat.vol.image, RootSector(kernel.fsys.fat.vol.h) * SECTOR, n)
    requires PlainPath(kernel.fsys.dir.items[..], kernel.fsys.dir.total, path)
    ensures SpaceOf(process).chunk / PAGE < FRAMES
    ensures PathEntry(kernel.fsys.fat.vol, n, path, i)
    ensures var v := kernel.fsys.fat.vol;
      var s := Slot(v.image, RootSector(v.h) * SECTOR, i);
      && process.size == FileSize(s, 0)
      && (FoundRight(v, i, process.size) ==>
           SeesFile(kernel.fsys.k.ram[..], SpaceOf(process), v, FirstCluster(AsSpecified, s, 0)))
  {
    hide Loaded, HoldsFile, SeesFile, AllInOrder, PathEntry, RootLoaded, PlainPath, PathSlot, Scheduler.Sound;
    hide FileSystem.OfDisk, Decodes, Slot, FileSize, FirstCluster, FoundRight;
    var v, s := kernel.fsys.fat.vol, SpaceOf(process);
    i := PathSlot(kernel.fsys.dir.items[..], kernel.fsys.dir.total, path).value;
    PathSlotIsEntry(kernel.fsys.dir, v, n, path, i);
    LoadedFacts(kernel.fsys.k.ram[..], kernel.fsys.k.heap.live, LastSpace(kernel, s));
    if FoundRight(v, i, process.size) {
      RightFileSeen(kernel.fsys.k.ram[..], kernel.fsys.k.heap.live, s, v, i);
    }
  }

  /** The space of a process just entered is the last of all. */
  ghost function LastSpace(kernel: Kernel, s: Space): (r: Space)
    requires kernel.spaces != [] && kernel.spaces[|kernel.spaces| - 1] == s
    reads kernel
    ensures r == s && r in kernel.spaces
  {
    kernel.spaces[|kernel.spaces| - 1]
  }

  lemma RightFileSeen(m: seq<byte>, live: Extents, s: Space, v: Volume, i: nat)
    requires v.Valid() && FoundRight(v, i, s.size) && Loaded(m, live, s)
    requires HoldsFile(m, s.ptr, v, FirstCluster(AsWritten, Slot(v.image, RootSector(v.h) * SECTOR, i), 0), s.size)
    ensures s.chunk / PAGE < FRAMES && |m| == RAM_BYTES
    ensures SeesFile(m, s, v, FirstCluster(AsSpecified, Slot(v.image, RootSector(v.h) * SECTOR, i), 0))
  {
    hide Loaded, HoldsFile, SeesFile, ReadsRight, ChainCovers, LinksMetAgree, FirstCluster, Slot, Field16;
    var slot := Slot(v.image, RootSector(v.h) * SECTOR, i);
    FirstClusterExact(slot, 0);
    SizePositive(m, live, s);
    AgreeingFileReadsRight(v, FirstCluster(AsSpecified, slot, 0), s.size);
    LoadedFacts(m, live, s);
    SeesFileExact(m, live, s, v, FirstCluster(AsSpecified, slot, 0));
  }

  lemma SizePositive(m: seq<byte>, live: Extents, s: Space)
    requires Loaded(m, live, s)
    ensures s.size > 0
  {
  }
}
