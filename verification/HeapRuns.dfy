/** Whole runs of the allocator: the table always encodes what a set-of-extents allocator would hold. */
module HeapRuns {
  import opened Words
  import opened HeapTable

  /** `heap_align_value_to_upper`: the addition is on 32 bits and wraps. */
  function AlignUpper(size: u32): u32 {
    if size % PAGE == 0 then size else (size - size % PAGE + PAGE) % 0x1_0000_0000
  }

  /** Blocks taken by a request of `size` bytes. */
  function BlocksFor(size: u32): nat { AlignUpper(size) / PAGE }

  /** The block count is the rounded-up quotient exactly for sizes of at most 2^32 - 4096; larger ones get 0. */
  lemma BlocksForExact(size: u32)
    ensures BlocksFor(size) == (size + PAGE - 1) / PAGE <==> size <= 0xffff_f000
    ensures size > 0xffff_f000 ==> BlocksFor(size) == 0
    ensures BlocksFor(size) * PAGE >= size <==> size <= 0xffff_f000
    ensures 0 < size <= 0xffff_f000 ==> (BlocksFor(size) - 1) * PAGE < size && BlocksFor(size) >= 1
  {
    var q, r := size / PAGE, size % PAGE;
    assert size == q * PAGE + r;
    if r != 0 && size <= 0xffff_f000 {
      assert AlignUpper(size) == (q + 1) * PAGE;
    }
  }

  // ---------------------------------------------------------------- the abstract allocator

  ghost predicate Vacant(live: Extents, total: nat, s: nat, n: nat) {
    s + n <= total && forall i: nat :: s <= i < s + n ==> !Covered(live, i)
  }

  /** Least start of n uncovered blocks at or after s; total if there is none. */
  ghost function FirstVacantFrom(live: Extents, total: nat, n: nat, s: nat): nat
    requires s <= total
    decreases total - s
  {
    if Vacant(live, total, s, n) || s == total then s else FirstVacantFrom(live, total, n, s + 1)
  }

  datatype HeapOp = MallocOp(size: u32) | FreeOp(start: nat)

  ghost function StepLive(live: Extents, total: nat, op: HeapOp): Extents {
    match op
    case MallocOp(size) =>
      var n, s := BlocksFor(size), FirstVacantFrom(live, total, BlocksFor(size), 0);
      if n > 0 && Vacant(live, total, s, n) then live[s := n] else live
    case FreeOp(start) => live - {start}
  }

  /** The same step on the byte table, as the mark and release loops perform it. */
  ghost function StepTable(t: Table, op: HeapOp): Table {
    match op
    case MallocOp(size) =>
      var s := StartBlock(t, BlocksFor(size));
      if s < 0 then t else Mark(t, s, BlocksFor(size))
    case FreeOp(start) => Release(t, start)
  }

  /** Requests of no blocks, or that the search serves or refuses as documented; releases not inside an allocation. */
  ghost predicate Admissible(t: Table, live: Extents, op: HeapOp) {
    match op
    case MallocOp(size) => BlocksFor(size) == 0 || Fits(t, BlocksFor(size)) || LastTaken(t)
    case FreeOp(start) => start in live || !Covered(live, start)
  }

  ghost predicate AdmissibleRun(t: Table, live: Extents, ops: seq<HeapOp>)
    decreases |ops|
  {
    ops == [] || (Admissible(t, live, ops[0])
                  && AdmissibleRun(StepTable(t, ops[0]), StepLive(live, |t|, ops[0]), ops[1..]))
  }

  ghost function RunTable(t: Table, ops: seq<HeapOp>): Table
    decreases |ops|
  {
    if ops == [] then t else RunTable(StepTable(t, ops[0]), ops[1..])
  }

  ghost function RunLive(live: Extents, total: nat, ops: seq<HeapOp>): Extents
    decreases |ops|
  {
    if ops == [] then live else RunLive(StepLive(live, total, ops[0]), total, ops[1..])
  }

  lemma FreeRunIsVacant(t: Table, live: Extents, s: nat, n: nat)
    requires Decodes(t, live)
    ensures FreeRun(t, s, n) <==> Vacant(live, |t|, s, n)
  {
    if s + n <= |t| {
      forall i: nat | s <= i < s + n ensures IsFree(t[i]) <==> !Covered(live, i) {
        FreeIsUncovered(t, live, i);
      }
    }
  }

  lemma {:induction false} FirstFitIsFirstVacant(t: Table, live: Extents, n: nat, s: nat)
    requires Decodes(t, live) && s <= |t|
    ensures FirstFitFrom(t, n, s) == FirstVacantFrom(live, |t|, n, s)
    decreases |t| - s
  {
    FreeRunIsVacant(t, live, s, n);
    if !FreeRun(t, s, n) && s < |t| {
      FirstFitIsFirstVacant(t, live, n, s + 1);
    }
  }

  lemma StepAgrees(t: Table, live: Extents, op: HeapOp)
    requires Decodes(t, live) && Admissible(t, live, op)
    ensures |StepTable(t, op)| == |t| && Decodes(StepTable(t, op), StepLive(live, |t|, op))
  {
    match op
    case MallocOp(size) =>
      var n := BlocksFor(size);
      if n == 0 {
        assert StartBlock(t, n) >= 0 ==> Mark(t, StartBlock(t, n), n) == t;
      } else {
        FirstFitIsFirstVacant(t, live, n, 0);
        FirstFitFromIsLeast(t, n, 0);
        var s := FirstVacantFrom(live, |t|, n, 0);
        FreeRunIsVacant(t, live, s, n);
        if Fits(t, n) {
          MarkDecodes(t, live, s, n);
        }
      }
    case FreeOp(start) =>
      if start in live {
        ReleaseDecodes(t, live, start);
      } else {
        NothingToRelease(t, live, start);
      }
  }

  lemma NothingToRelease(t: Table, live: Extents, s: nat)
    requires Decodes(t, live) && s !in live && !Covered(live, s)
    ensures Release(t, s) == t && live - {s} == live
  {
    if s < |t| {
      FreeIsUncovered(t, live, s);
    }
  }

  /** An allocation marked past the end of the table: its last entry in the table claims a next one. */
  lemma TooLongMark(t: Table, n: nat, live: Extents)
    requires n >= 1 && !Fits(t, n) && !LastTaken(t)
    ensures !Decodes(Mark(t, TailStart(t), n), live)
  {
    SearchContractExact(t, n);
    var t', s, i := Mark(t, TailStart(t), n), TailStart(t), |t| - 1;
    EntryForFacts(i - s, n);
    if Decodes(t', live) {
      var r: nat :| Covers(live, r, i);
      CoveredEntry(t', live, r, i);
    }
  }

  /** A release from inside an allocation cuts it off after an entry that claims a next one. */
  lemma ReleaseInside(t: Table, live: Extents, s: nat, live': Extents)
    requires Decodes(t, live) && s !in live && Covered(live, s)
    ensures !Decodes(Release(t, s), live')
  {
    var r: nat :| Covers(live, r, s);
    var n := live[r];
    assert IsExtent(t, r, n);
    ReleaseClears(t, r, n, s - r);
    var t' := Release(t, s);
    assert t' == Cleared(t, s, n - (s - r));
    CoveredEntry(t, live, r, s - 1);
    if Decodes(t', live') {
      assert t'[s - 1] == t[s - 1] != FREE;
      var q: nat :| Covers(live', q, s - 1);
      CoveredEntry(t', live', q, s - 1);
      CoveredEntry(t', live', q, s);
    }
  }

  /** A step leaves a table that encodes some set of allocations exactly when it is admissible. */
  lemma StepExact(t: Table, live: Extents, op: HeapOp)
    requires Decodes(t, live)
    ensures (exists live': Extents :: Decodes(StepTable(t, op), live')) <==> Admissible(t, live, op)
  {
    hide Decodes, Release, TailStart;
    if Admissible(t, live, op) {
      StepAgrees(t, live, op);
    } else {
      forall live': Extents ensures !Decodes(StepTable(t, op), live') {
        match op
        case MallocOp(size) =>
          TailStartIsTail(t);
          TooLongMark(t, BlocksFor(size), live');
        case FreeOp(start) =>
          ReleaseInside(t, live, start, live');
      }
    }
  }

  /**
   Over every run of allocations and releases, the byte table encodes exactly the allocations that the abstract
   first-fit allocator, which knows nothing of bytes, holds after the same run.
   */
  lemma {:induction false} RunAgrees(t: Table, live: Extents, ops: seq<HeapOp>)
    requires Decodes(t, live) && AdmissibleRun(t, live, ops)
    ensures |RunTable(t, ops)| == |t| && Decodes(RunTable(t, ops), RunLive(live, |t|, ops))
    decreases |ops|
  {
    if ops != [] {
      StepAgrees(t, live, ops[0]);
      RunAgrees(StepTable(t, ops[0]), StepLive(live, |t|, ops[0]), ops[1..]);
    }
  }

  // ---------------------------------------------------------------- how much room a request leaves

  /** Taking the first fit of n blocks from a table with a free run of k >= n blocks leaves a free run of k - n. */
  lemma FirstFitLeavesRoom(t: Table, n: nat, k: nat)
    requires 1 <= n <= k && Fits(t, k)
    ensures Fits(t, n) && Fits(Mark(t, StartBlock(t, n), n), k - n)
  {
    var r: nat :| FreeRun(t, r, k);
    assert FreeRun(t, r, n);
    FirstFitFromIsLeast(t, n, 0);
    var s := StartBlock(t, n);
    var r' := if s + n > r then s + n else r;
    if s + n <= r {
      assert FreeRun(Mark(t, s, n), r, k - n);
    } else {
      assert FreeRun(Mark(t, s, n), s + n, k - n);
    }
  }

  /** t' has every free run of t, and the free blocks of t, up to `used` blocks. */
  ghost predicate RoomLeft(t: Table, t': Table, used: nat) {
    && (forall n: nat :: n >= used && Fits(t, n) ==> Fits(t', n - used))
    && FreeBlocks(t') + used >= FreeBlocks(t)
  }

  lemma RoomLeftTrans(t: Table, t': Table, t'': Table, a: nat, b: nat)
    requires RoomLeft(t, t', a) && RoomLeft(t', t'', b)
    ensures RoomLeft(t, t'', a + b)
  {
    hide FreeBlocks;
    forall n: nat | n >= a + b && Fits(t, n) ensures Fits(t'', n - (a + b)) {
      assert Fits(t', n - a);
      assert n - a - b == n - (a + b);
    }
  }

  lemma RoomAfterMark(t: Table, n: nat)
    requires n >= 1 && Fits(t, n)
    ensures RoomLeft(t, Mark(t, StartBlock(t, n), n), n)
  {
    forall k: nat | k >= n && Fits(t, k) ensures Fits(Mark(t, StartBlock(t, n), n), k - n) {
      FirstFitLeavesRoom(t, n, k);
    }
    FirstFitFromIsLeast(t, n, 0);
    RunTaken(t, StartBlock(t, n), n);
  }

  lemma RoomAfterClear(t: Table, s: nat, n: nat)
    ensures RoomLeft(t, Cleared(t, s, n), 0)
  {
    forall k: nat | Fits(t, k) ensures Fits(Cleared(t, s, n), k) {
      ClearedKeepsRoom(t, s, n, k);
    }
    FreeBlocksMonotone(t, Cleared(t, s, n));
  }

  /** Clearing blocks never takes room away. */
  lemma ClearedKeepsRoom(t: Table, s: nat, n: nat, k: nat)
    requires Fits(t, k)
    ensures Fits(Cleared(t, s, n), k)
  {
    var r: nat :| FreeRun(t, r, k);
    assert FreeRun(Cleared(t, s, n), r, k);
  }

  /** How many blocks are free. */
  function FreeBlocks(t: Table): nat {
    if t == [] then 0 else FreeBlocks(t[..|t| - 1]) + (if IsFree(t[|t| - 1]) then 1 else 0)
  }

  /** A one-block request is served exactly when some block is free, and takes one of them. */
  lemma {:induction false} OneBlockFits(t: Table)
    ensures Fits(t, 1) <==> FreeBlocks(t) > 0
  {
    if t != [] {
      var u := t[..|t| - 1];
      OneBlockFits(u);
      if s: nat :| FreeRun(u, s, 1) {
        assert FreeRun(t, s, 1);
      } else if s: nat :| FreeRun(t, s, 1) {
        assert s < |u| ==> FreeRun(u, s, 1);
      } else {
        assert !FreeRun(t, |t| - 1, 1);
        assert Fits(u, 1) ==> false;
      }
    } else if s: nat :| FreeRun(t, s, 1) {
    }
  }

  lemma OneBlockTaken(t: Table, s: nat)
    requires s < |t| && IsFree(t[s])
    ensures FreeBlocks(Mark(t, s, 1)) == FreeBlocks(t) - 1
  {
    RunTaken(t, s, 1);
  }

  /** Taking a free run of n blocks takes n free blocks. */
  lemma RunTaken(t: Table, s: nat, n: nat)
    requires FreeRun(t, s, n)
    ensures FreeBlocks(Mark(t, s, n)) == FreeBlocks(t) - n
  {
    PrefixTaken(t, s, n, n);
  }

  /** The same while only the first k entries are looked at; n is the length of the whole allocation. */
  lemma {:induction false} PrefixTaken(t: Table, s: nat, k: nat, n: nat)
    requires FreeRun(t, s, k) && k <= n && (s + k == |t| || k == n)
    ensures FreeBlocks(Mark(t, s, n)) == FreeBlocks(t) - k
    decreases |t|
  {
    if t != [] {
      var u := t[..|t| - 1];
      assert Mark(t, s, n)[..|t| - 1] == Mark(u, s, n);
      if s + k < |t| {
        PrefixTaken(u, s, k, n);
      } else if k > 0 {
        EntryForFacts(k - 1, n);
        PrefixTaken(u, s, k - 1, n);
      } else {
        assert Mark(t, s, n) == t;
      }
    }
  }

  /** Where every free block of t is free there are no fewer of them. */
  lemma {:induction false} FreeBlocksMonotone(t: Table, t': Table)
    requires |t| == |t'| && forall i :: 0 <= i < |t| && IsFree(t[i]) ==> IsFree(t'[i])
    ensures FreeBlocks(t) <= FreeBlocks(t')
  {
    if t != [] {
      FreeBlocksMonotone(t[..|t| - 1], t'[..|t| - 1]);
    }
  }

  /** Fewer allocations leave no fewer free blocks. */
  lemma FewerExtents(t: Table, live: Extents, t': Table, live': Extents)
    requires |t| == |t'| && Decodes(t, live) && Decodes(t', live')
    requires forall s | s in live' :: s in live && live[s] == live'[s]
    ensures FreeBlocks(t) <= FreeBlocks(t')
  {
    forall i: nat | i < |t| && IsFree(t[i]) ensures IsFree(t'[i]) {
      FreeIsUncovered(t, live, i);
      FreeIsUncovered(t', live', i);
      assert forall s: nat :: Covers(live', s, i) ==> Covers(live, s, i);
    }
    FreeBlocksMonotone(t, t');
  }
}
