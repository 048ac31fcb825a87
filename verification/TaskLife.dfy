/** task.c: a task from `task_new` to `task_free`, with its memory and its place in the list. */
module TaskLife {
  import opened Words
  import opened HeapTable
  import opened HeapRuns
  import opened Kheap
  import opened PageTables
  import opened PagingChunks
  import opened Tasks
  import opened Processes

  /** The frames of a task at `addr` with page structure `chunk`: its own block, then those of the structure. */
  ghost function TaskFrames(m: seq<byte>, addr: u32, chunk: u32): seq<nat>
    requires |m| == RAM_BYTES && chunk / PAGE < FRAMES
  {
    [addr / PAGE] + ChunkFrames(m, chunk / PAGE)
  }

  /** The task's block and its page structure are live, and different. */
  ghost predicate TaskHeld(m: seq<byte>, live: Extents, addr: u32, chunk: u32) {
    && chunk % PAGE == 0 && addr % PAGE == 0 && Chunk(m, live, chunk / PAGE)
    && Single(live, addr / PAGE) && addr / PAGE !in ChunkFrames(m, chunk / PAGE)
  }

  /**
   `task_new`: 1027 new blocks, and the task at the end of the list. The task is the one that lies in the least free
   block, so it can be one that a stale link names.
   */
  method TaskNew(k: Machine, blocks: seq<Task>, sched: Scheduler, ghost s: seq<Task>, ghost stale: set<Task>)
    returns (task: Task)
    requires k.Valid() && FreeBlocks(k.heap.entries[..]) >= TASK_BLOCKS && sched.Sound(s, stale)
    requires OneTaskPerBlock(blocks) && ListLive(blocks, k.heap.live, s)
    modifies k.heap, k.heap.entries, k.ram, sched, sched.tail, Spare(blocks, s)
    ensures k.Valid() && k.heap.spill == old(k.heap.spill)
    ensures Grown(old(k.heap.live), k.heap.live) && Preserved(old(k.heap.live), old(k.ram[..]), k.ram[..])
    ensures FreeBlocks(k.heap.entries[..]) == FreeBlocks(old(k.heap.entries[..])) - TASK_BLOCKS
    ensures task in blocks && task !in s && ListLive(blocks, k.heap.live, s + [task])
    ensures task.addr % PAGE == 0 && task.addr / PAGE == HEAP_FRAME + StartBlock(old(k.heap.entries[..]), 1)
    ensures TaskHeld(k.ram[..], k.heap.live, task.addr, task.pageDirectory)
    ensures TaskSpace(k.ram[..], old(k.heap.live), k.heap.live, task.pageDirectory)
    ensures Added(old(k.heap.live), k.heap.live, TaskFrames(k.ram[..], task.addr, task.pageDirectory))
    ensures sched.Sound(s + [task], stale - {task}) && sched.current == if s == [] then task else old(sched.current)
    ensures forall t | t in s :: t.pageDirectory == old(t.pageDirectory) && t.prev == old(t.prev)
  {
    hide Added, Scheduler.Sound, TaskSpace, Preserved, Grown, FreeBlocks, ChunkFrames, Chunk, OneTaskPerBlock, ListLive;
    hide StartBlock, Single;
    SinceNow(k);
    task := NewTask(k, blocks, s, k.heap.live, k.heap.entries[..], k.ram[..], 0);
    TaskSpaceBounds(k.ram[..], old(k.heap.live), k.heap.live, task.pageDirectory);
    AddedHead(old(k.heap.live), k.heap.live, TaskFrames(k.ram[..], task.addr, task.pageDirectory));
    AddedSingle(old(k.heap.live), k.heap.live, TaskFrames(k.ram[..], task.addr, task.pageDirectory));
    sched.Ends(s, stale);
    sched.Append(task, s, stale);
  }

  lemma TaskSpaceBounds(m: seq<byte>, live0: Extents, live: Extents, chunk: u32)
    requires TaskSpace(m, live0, live, chunk)
    ensures chunk % PAGE == 0 && chunk / PAGE < FRAMES && Chunk(m, live, chunk / PAGE)
  {
  }

  /** `task_free` gives back exactly the frames of the task, and takes it out of the list as `task_list_remove` does. */
  method TaskFree(k: Machine, sched: Scheduler, task: Task, ghost s: seq<Task>, ghost i: nat, ghost stale: set<Task>)
    requires k.Valid() && TaskHeld(k.ram[..], k.heap.live, task.addr, task.pageDirectory)
    requires sched.Sound(s, stale) && i < |s| && s[i] == task
    modifies k.heap`live, k.heap.entries, sched, task.prev
    ensures k.Valid()
    ensures k.heap.live == old(k.heap.live) - BlocksOf(old(TaskFrames(k.ram[..], task.addr, task.pageDirectory)))
    ensures sched.Ring(Without(s, i)) <==> old(sched.Removable(s, i))
    ensures forall k: nat :: k < |s| ==> s[k].next == if s[k] == old(task.prev) then After(s, i) else After(s, k)
    ensures old(sched.Removable(s, i)) ==>
      sched.Sound(Without(s, i), (if i + 1 < |s| then {s[i + 1]} else {}) + (stale - {task}))
    ensures old(sched.DoublyLinked(s)) ==> (sched.DoublyLinked(Without(s, i)) <==> i == |s| - 1)
    ensures sched.current == if old(sched.current) != task then old(sched.current)
                             else if i + 1 < |s| then s[i + 1] else if i > 0 then s[0] else null
    ensures forall t | t in s :: t.pageDirectory == old(t.pageDirectory) && t.prev == old(t.prev)
  {
    hide Chunk, ChunkFrames, BlocksOf, Scheduler.Sound, Scheduler.Ring, Scheduler.DoublyLinked, Scheduler.Removable;
    hide Decodes, After;
    ghost var live, fs := k.heap.live, ChunkFrames(k.ram[..], task.pageDirectory / PAGE);
    Free4gb(k, task.pageDirectory);
    sched.Remove(task, s, i, stale);
    OwnBlockLeft(live, fs, task.addr / PAGE);
    k.Kfree(task.addr);
  }

  /** The task's own block is still there when its page structure is gone, and is the last of its frames. */
  lemma OwnBlockLeft(live: Extents, fs: seq<nat>, f: nat)
    requires Single(live, f) && f !in fs
    ensures HEAP_ADDRESS <= PAGE * f < HEAP_ADDRESS + 0x8000_0000 && (PAGE * f - HEAP_ADDRESS) / PAGE == f - HEAP_FRAME
    ensures f - HEAP_FRAME in live - BlocksOf(fs) && live - BlocksOf(fs) - {f - HEAP_FRAME} == live - BlocksOf([f] + fs)
  {
    hide BlocksOf;
    FrameBlock(f);
    BlocksOfMember(fs, f - HEAP_FRAME);
    BlocksOfConcat([f], fs);
    BlocksOfOne(f);
  }

  /**
   A task created and freed again leaves the heap table byte for byte, the list, the current task and the other tasks'
   back links as they were.
   */
  method NewThenFree(k: Machine, blocks: seq<Task>, sched: Scheduler, ghost s: seq<Task>, ghost stale: set<Task>)
    requires k.Valid() && FreeBlocks(k.heap.entries[..]) >= TASK_BLOCKS && sched.Sound(s, stale)
    requires OneTaskPerBlock(blocks) && ListLive(blocks, k.heap.live, s)
    modifies k.heap, k.heap.entries, k.ram, sched, sched.tail, Spare(blocks, s)
    ensures k.Valid() && k.heap.entries[..] == old(k.heap.entries[..]) && k.heap.spill == old(k.heap.spill)
    ensures Preserved(old(k.heap.live), old(k.ram[..]), k.ram[..])
    ensures sched.Sound(s, stale) && sched.current == old(sched.current)
    ensures forall t | t in s :: t.prev == old(t.prev)
  {
    hide Added, TaskSpace, Preserved, FreeBlocks, ChunkFrames, Chunk, BlocksOf, Decodes, Single, OneTaskPerBlock;
    hide ListLive, StartBlock;
    hide Scheduler.Sound, Scheduler.Ring, Scheduler.DoublyLinked, Scheduler.Removable, TaskHeld, Grown;
    ghost var live0, t0 := k.heap.live, k.heap.entries[..];
    sched.Ends(s, stale);
    var task := TaskNew(k, blocks, sched, s, stale);
    ghost var fs := TaskFrames(k.ram[..], task.addr, task.pageDirectory);
    RemoveAdded(live0, k.heap.live, fs);
    LastIsRemovable(sched, s, task, stale - {task});
    TaskFree(k, sched, task, s + [task], |s|, stale - {task});
    assert Without(s + [task], |s|) == s;
    MoreStale(sched, s, {} + (stale - {task} - {task}), stale);
    EncodeUnique(t0, k.heap.entries[..], live0);
  }

  /** Stale is what a link may be, not what it must be. */
  lemma MoreStale(sched: Scheduler, s: seq<Task>, stale: set<Task>, more: set<Task>)
    requires sched.Sound(s, stale) && stale <= more
    ensures sched.Sound(s, more)
  {
  }

  lemma AddedHead(live0: Extents, live: Extents, fs: seq<nat>)
    requires Added(live0, live, fs) && fs != []
    ensures Single(live, fs[0]) && fs[0] !in fs[1..]
  {
  }

  lemma LastIsRemovable(sched: Scheduler, s: seq<Task>, task: Task, stale: set<Task>)
    requires sched.Sound(s + [task], stale) && task !in stale
    ensures sched.Removable(s + [task], |s|) && task.prev == if s == [] then null else s[|s| - 1]
  {
    assert (s + [task])[|s|] == task && sched.Prevs(s + [task])[|s|] == task.prev;
  }

  // ---------------------------------------------------------------- a freed block is the next to be taken

  /** Held tasks stay held while free blocks are taken and written. */
  lemma HeldStays(m: seq<byte>, live: Extents, m': seq<byte>, live': Extents, addr: u32, chunk: u32)
    requires |m| == |m'| == RAM_BYTES && TaskHeld(m, live, addr, chunk) && Grown(live, live') && Preserved(live, m, m')
    ensures TaskHeld(m', live', addr, chunk) && TaskFrames(m', addr, chunk) == TaskFrames(m, addr, chunk)
  {
    hide Chunk, ChunkFrames, Preserved;
    ChunkPreserved(m, live, m', live', chunk / PAGE);
  }

  /** And while allocations that are none of theirs are given back. */
  lemma HeldAfterFree(m: seq<byte>, live: Extents, addr: u32, chunk: u32, fs: seq<nat>)
    requires TaskHeld(m, live, addr, chunk) && forall f | f in TaskFrames(m, addr, chunk) :: f !in fs
    ensures TaskHeld(m, live - BlocksOf(fs), addr, chunk)
  {
    var c := chunk / PAGE;
    ChunkFramesAre(m, live, c);
    hide Chunk, ChunkFrames, Distinct, BlocksOf;
    assert TaskFrames(m, addr, chunk)[0] == addr / PAGE;
    SingleAfterFree(live, addr / PAGE, fs);
    forall i: nat | i < |ChunkFrames(m, c)| ensures Single(live - BlocksOf(fs), ChunkFrames(m, c)[i]) {
      assert TaskFrames(m, addr, chunk)[i + 1] == ChunkFrames(m, c)[i];
      SingleAfterFree(live, ChunkFrames(m, c)[i], fs);
    }
    ChunkOfSingles(m, live, live - BlocksOf(fs), c);
  }

  lemma SingleAfterFree(live: Extents, f: nat, fs: seq<nat>)
    requires Single(live, f) && f !in fs
    ensures Single(live - BlocksOf(fs), f)
  {
    BlocksOfMember(fs, f - HEAP_FRAME);
  }

  lemma ChunkOfSingles(m: seq<byte>, live: Extents, live': Extents, c: nat)
    requires Chunk(m, live, c) && forall i: nat :: i < |ChunkFrames(m, c)| ==> Single(live', ChunkFrames(m, c)[i])
    ensures Chunk(m, live', c)
  {
    var fs, d := ChunkFrames(m, c), DirOf(m, c);
    assert fs[0] == d && fs[ENTRIES + 1] == c;
    forall i: nat | i < ENTRIES ensures Single(live', Tab(m, d, i)) {
      assert fs[i + 1] == Tab(m, d, i);
    }
  }

  /** Frames that were live before share nothing with those added. */
  lemma AddedApart(live0: Extents, live: Extents, fs: seq<nat>, gs: seq<nat>)
    requires Added(live0, live, fs) && AllSingle(live0, gs)
    ensures forall f | f in gs :: f !in fs
  {
    forall f | f in gs ensures f !in fs {
      var i :| 0 <= i < |gs| && gs[i] == f;
      assert Single(live0, gs[i]);
    }
  }

  lemma ListAfterFree(blocks: seq<Task>, live: Extents, s: seq<Task>, fs: seq<nat>)
    requires ListLive(blocks, live, s) && forall t | t in s :: t.addr / PAGE !in fs
    ensures ListLive(blocks, live - BlocksOf(fs), s)
  {
    hide BlocksOf;
    forall t | t in s ensures Single(live - BlocksOf(fs), t.addr / PAGE) {
      BlocksOfMember(fs, t.addr / PAGE - HEAP_FRAME);
    }
  }

  /**
   The block that was the least free one when it was taken is the least free one again when it is given back, with all
   that was taken with it, whatever has been taken since.
   */
  lemma FreedBlockIsNext(t0: Table, live0: Extents, live1: Extents, fs: seq<nat>, t2: Table, live2: Extents, t3: Table)
    requires |t0| == |t2| == |t3| == HEAP_BLOCKS && Decodes(t0, live0) && Decodes(t2, live2)
    requires FreeBlocks(t0) > 0 && fs != [] && fs[0] == HEAP_FRAME + StartBlock(t0, 1)
    requires Added(live0, live1, fs) && Grown(live1, live2) && Decodes(t3, live2 - BlocksOf(fs))
    ensures StartBlock(t3, 1) == StartBlock(t0, 1)
  {
    hide FreeBlocks, Decodes, BlocksOf, Added, Grown, FreeRun;
    OneBlockFits(t0);
    FirstFitFromIsLeast(t0, 1, 0);
    var s := StartBlock(t0, 1);
    OneFree(t0, s);
    FreedIsFree(live0, live1, fs, t2, live2, t3, s);
    forall r: nat | r < s ensures !FreeRun(t3, r, 1) {
      OneFree(t0, r);
      TakenStays(t0, live0, live1, fs, live2, t3, r);
      OneFree(t3, r);
    }
    OneFree(t3, s);
    FirstFitFromIsLeast(t3, 1, 0);
  }

  lemma OneFree(t: Table, s: nat)
    ensures FreeRun(t, s, 1) <==> s < |t| && IsFree(t[s])
  {
  }

  /** The first of the frames given back is free again. */
  lemma FreedIsFree(live0: Extents, live1: Extents, fs: seq<nat>, t2: Table, live2: Extents, t3: Table, s: nat)
    requires |t2| == |t3| && s < |t3| && Decodes(t2, live2) && Decodes(t3, live2 - BlocksOf(fs))
    requires Added(live0, live1, fs) && Grown(live1, live2) && fs != [] && fs[0] == HEAP_FRAME + s
    ensures IsFree(t3[s])
  {
    hide Decodes, Distinct;
    assert Single(live1, fs[0]);
    BlocksOfMember(fs, s);
    FreeIsUncovered(t3, live2 - BlocksOf(fs), s);
    hide BlocksOf;
    if Covered(live2 - BlocksOf(fs), s) {
      var r: nat :| Covers(live2 - BlocksOf(fs), r, s);
      assert Covers(live2, r, s) && Covers(live2, s, s);
      ExtentsDisjoint(t2, live2, r, s, s);
    }
  }

  /** A block that was taken before the frames were added is still taken when they are given back. */
  lemma TakenStays(t0: Table, live0: Extents, live1: Extents, fs: seq<nat>, live2: Extents, t3: Table, r: nat)
    requires |t0| == |t3| && r < |t0| && Decodes(t0, live0) && Decodes(t3, live2 - BlocksOf(fs)) && !IsFree(t0[r])
    requires Added(live0, live1, fs) && Grown(live1, live2)
    ensures !IsFree(t3[r])
  {
    hide Decodes, Distinct, AllSingle;
    FreeIsUncovered(t0, live0, r);
    var q: nat :| Covers(live0, q, r);
    BlocksOfMember(fs, q);
    hide BlocksOf;
    assert Covers(live2 - BlocksOf(fs), q, r);
    FreeIsUncovered(t3, live2 - BlocksOf(fs), r);
  }

  /** Three tasks are made; before the second the heap held live0 under t0, and after it live1. */
  method ThreeMade(k: Machine, blocks: seq<Task>, sched: Scheduler)
    returns (a: Task, b: Task, c: Task, ghost t0: Table, ghost live0: Extents, ghost live1: Extents)
    requires k.Valid() && FreeBlocks(k.heap.entries[..]) >= 4 * TASK_BLOCKS && sched.Sound([], {})
    requires OneTaskPerBlock(blocks)
    modifies k.heap, k.heap.entries, k.ram, sched, blocks
    ensures k.Valid() && FreeBlocks(k.heap.entries[..]) >= TASK_BLOCKS
    ensures a != b && a != c && b != c && sched.Sound([a, b, c], {})
    ensures a in blocks && b in blocks && c in blocks
    ensures ListLive(blocks, live0, [a]) && ListLive(blocks, k.heap.live, [a, b, c])
    ensures TaskHeld(k.ram[..], k.heap.live, b.addr, b.pageDirectory)
    ensures TaskHeld(k.ram[..], k.heap.live, c.addr, c.pageDirectory)
    ensures |t0| == HEAP_BLOCKS && Decodes(t0, live0) && FreeBlocks(t0) > 0
    ensures b.addr / PAGE == HEAP_FRAME + StartBlock(t0, 1)
    ensures Added(live0, live1, TaskFrames(k.ram[..], b.addr, b.pageDirectory)) && Grown(live1, k.heap.live)
    ensures forall f | f in TaskFrames(k.ram[..], b.addr, b.pageDirectory) ::
      f !in TaskFrames(k.ram[..], c.addr, c.pageDirectory)
  {
    hide Added, TaskSpace, Preserved, Grown, FreeBlocks, ChunkFrames, Chunk, BlocksOf, Decodes, Single, OneTaskPerBlock;
    hide ListLive, StartBlock, TaskHeld;
    hide Scheduler.Sound, Scheduler.Ring, Scheduler.DoublyLinked, Scheduler.Removable;
    sched.Ends([], {});
    NoTasks(blocks, k.heap.live);
    a := TaskNew(k, blocks, sched, [], {});
    assert [] + [a] == [a] && {} - {a} == {};
    sched.Ends([a], {});
    t0, live0 := k.heap.entries[..], k.heap.live;
    b := TaskNew(k, blocks, sched, [a], {});
    assert [a] + [b] == [a, b] && {} - {b} == {};
    sched.Ends([a, b], {});
    live1 := k.heap.live;
    ghost var m1, fs := k.ram[..], TaskFrames(k.ram[..], b.addr, b.pageDirectory);
    c := TaskNew(k, blocks, sched, [a, b], {});
    assert [a, b] + [c] == [a, b, c] && {} - {c} == {};
    HeldStays(m1, live1, k.ram[..], k.heap.live, b.addr, b.pageDirectory);
    AddedSingle(live0, live1, fs);
    AddedApart(live1, k.heap.live, TaskFrames(k.ram[..], c.addr, c.pageDirectory), fs);
  }

  /**
   Three tasks are made and the middle one is freed: the third keeps its link to the freed block, and that block is the
   next that `task_new` will take.
   */
  method MiddleFreed(k: Machine, blocks: seq<Task>, sched: Scheduler) returns (a: Task, b: Task, c: Task)
    requires k.Valid() && FreeBlocks(k.heap.entries[..]) >= 4 * TASK_BLOCKS && sched.Sound([], {})
    requires OneTaskPerBlock(blocks)
    modifies k.heap, k.heap.entries, k.ram, sched, blocks
    ensures k.Valid() && FreeBlocks(k.heap.entries[..]) >= TASK_BLOCKS
    ensures a != b && a != c && b != c && sched.Sound([a, c], {c}) && c.prev == b
    ensures ListLive(blocks, k.heap.live, [a, c])
    ensures TaskHeld(k.ram[..], k.heap.live, c.addr, c.pageDirectory)
    ensures b in blocks && c in blocks && b.addr / PAGE == HEAP_FRAME + StartBlock(k.heap.entries[..], 1)
  {
    hide Added, TaskSpace, Preserved, Grown, FreeBlocks, ChunkFrames, Chunk, BlocksOf, Decodes, Single, OneTaskPerBlock;
    hide ListLive, StartBlock, TaskHeld, Scheduler.Sound, Scheduler.DoublyLinked, Scheduler.Removable;
    ghost var t0, live0, live1;
    a, b, c, t0, live0, live1 := ThreeMade(k, blocks, sched);
    ghost var t2, live2, fs := k.heap.entries[..], k.heap.live, TaskFrames(k.ram[..], b.addr, b.pageDirectory);
    HeldAfterFree(k.ram[..], live2, c.addr, c.pageDirectory, fs);
    ThreeLinks(sched, a, b, c);
    assert [a, b, c][1] == b;
    TaskFree(k, sched, b, [a, b, c], 1, {});
    assert Without([a, b, c], 1) == [a, c] && {c} + ({} - {b}) == {c};
    FreedBlockIsNext(t0, live0, live1, fs, t2, live2, k.heap.entries[..]);
    FewerExtents(t2, live2, k.heap.entries[..], k.heap.live);
    OthersStayListed(blocks, live0, live1, live2, [a], [a, b, c], a, c, fs,
      TaskFrames(k.ram[..], c.addr, c.pageDirectory));
  }

  lemma NoTasks(blocks: seq<Task>, live: Extents)
    ensures ListLive(blocks, live, [])
  {
  }

  lemma OthersStayListed(blocks: seq<Task>, live0: Extents, live1: Extents, live2: Extents, s: seq<Task>,
                         all: seq<Task>, a: Task, c: Task, fs: seq<nat>, gs: seq<nat>)
    requires ListLive(blocks, live0, s) && ListLive(blocks, live2, all) && a in s && a in all && c in all
    requires Added(live0, live1, fs) && gs != [] && gs[0] == c.addr / PAGE && forall f | f in fs :: f !in gs
    ensures ListLive(blocks, live2 - BlocksOf(fs), [a, c])
  {
    hide BlocksOf, Distinct;
    AddedApart(live0, live1, fs, [a.addr / PAGE]);
    assert a.addr / PAGE in [a.addr / PAGE] && gs[0] in gs;
    assert ListLive(blocks, live2, [a, c]);
    ListAfterFree(blocks, live2, [a, c], fs);
  }

  /**
   On every heap with 4108 free blocks: of three tasks the middle one is freed and another made. It lies where the freed
   one did, so that the third task's stale link names it; when the third is freed, the new task becomes its own
   successor, and the list is lost.
   */
  method ReuseLosesTheList(k: Machine, blocks: seq<Task>, sched: Scheduler) returns (a: Task, d: Task)
    requires k.Valid() && FreeBlocks(k.heap.entries[..]) >= 4 * TASK_BLOCKS && sched.Sound([], {})
    requires OneTaskPerBlock(blocks)
    modifies k.heap, k.heap.entries, k.ram, sched, blocks
    ensures k.Valid() && !sched.Ring([a, d]) && d.next == d
  {
    hide Added, TaskSpace, Preserved, Grown, FreeBlocks, ChunkFrames, Chunk, BlocksOf, Decodes, Single, ListLive;
    hide StartBlock, TaskHeld;
    hide Scheduler.Sound, Scheduler.Ring, Scheduler.DoublyLinked;
    var b, c;
    a, b, c := MiddleFreed(k, blocks, sched);
    sched.Ends([a, c], {c});
    ghost var m, live := k.ram[..], k.heap.live;
    ghost var s := [a, c];
    assert s[0] == a && s[1] == c && c in s;
    d := TaskNew(k, blocks, sched, s, {c});
    SameBlock(blocks, b, d);
    assert s + [d] == [a, c, d] && {c} - {d} == {c};
    HeldStays(m, live, k.ram[..], k.heap.live, c.addr, c.pageDirectory);
    ghost var all := [a, c, d];
    assert all[0] == a && all[1] == c && all[2] == d;
    assert c.prev == d && Before(all, 1) == a;
    assert !sched.Removable(all, 1);
    TaskFree(k, sched, c, all, 1, {c});
    assert Without(all, 1) == [a, d] && After(all, 1) == d;
  }

  lemma SameBlock(blocks: seq<Task>, a: Task, b: Task)
    requires OneTaskPerBlock(blocks) && a in blocks && b in blocks && a.addr / PAGE == b.addr / PAGE
    ensures a == b
  {
    var i :| 0 <= i < |blocks| && blocks[i] == a;
    var j :| 0 <= j < |blocks| && blocks[j] == b;
    TaskOfBlock(blocks, i);
    TaskOfBlock(blocks, j);
  }
}
