/**
 The allocation table of the block heap as a value: one byte per 4 KiB block.
 A live allocation of n blocks is written 0x41 (n = 1) or 0xC1 0x81* 0x01 (n > 1); a free block is 0x00.
 */
module HeapTable {
  type Entry = bv8
  type Table = seq<Entry>

  /** The live allocations: first block of each, with its length in blocks. */
  type Extents = map<nat, nat>

  const FREE: Entry := 0x00
  const TAKEN: Entry := 0x01
  const HAS_NEXT: Entry := 0x80
  const IS_FIRST: Entry := 0x40
  const ENOMEM := 3

  predicate IsFree(e: Entry) { e & 0x0f == FREE }

  // ---------------------------------------------------------------- search

  predicate FreeRun(t: Table, s: int, n: nat) {
    0 <= s && s + n <= |t| && forall i :: s <= i < s + n ==> IsFree(t[i])
  }

  /** Some n consecutive blocks are free. */
  ghost predicate Fits(t: Table, n: nat) {
    exists s: nat :: FreeRun(t, s, n)
  }

  ghost predicate IsFirstFit(t: Table, n: nat, s: int) {
    FreeRun(t, s, n) && forall r: nat :: r < s ==> !FreeRun(t, r, n)
  }

  /** Least start of n free blocks at or after s; |t| if there is none. */
  function FirstFitFrom(t: Table, n: nat, s: nat): nat
    requires s <= |t|
    decreases |t| - s
  {
    if FreeRun(t, s, n) || s == |t| then s else FirstFitFrom(t, n, s + 1)
  }

  /** Start of the free run that ends the table; |t| if the last block is taken. */
  function TailStart(t: Table): nat {
    if |t| == 0 || !IsFree(t[|t| - 1]) then |t| else TailStart(t[..|t| - 1])
  }

  predicate LastTaken(t: Table) { |t| == 0 || !IsFree(t[|t| - 1]) }

  /** What the block search returns, on every table and for every request. */
  ghost function StartBlock(t: Table, n: nat): int {
    if n >= 1 && Fits(t, n) then FirstFitFrom(t, n, 0)
    else if LastTaken(t) then -ENOMEM
    else TailStart(t)
  }

  /** The documented contract of the search: the first fit, or -ENOMEM when no n consecutive blocks are free. */
  ghost predicate MeetsSearchContract(t: Table, n: nat, r: int) {
    if Fits(t, n) then IsFirstFit(t, n, r) else r == -ENOMEM
  }

  lemma {:induction false} FirstFitFromIsLeast(t: Table, n: nat, s: nat)
    requires s <= |t|
    requires n >= 1
    requires forall r: nat :: r < s ==> !FreeRun(t, r, n)
    ensures Fits(t, n) ==> IsFirstFit(t, n, FirstFitFrom(t, n, s))
    ensures !Fits(t, n) ==> FirstFitFrom(t, n, s) == |t|
    decreases |t| - s
  {
    if !FreeRun(t, s, n) && s < |t| {
      FirstFitFromIsLeast(t, n, s + 1);
    }
  }

  lemma {:induction false} TailStartIsTail(t: Table)
    ensures TailStart(t) <= |t|
    ensures forall i :: TailStart(t) <= i < |t| ==> IsFree(t[i])
    ensures TailStart(t) > 0 ==> !IsFree(t[TailStart(t) - 1])
  {
    if !LastTaken(t) {
      TailStartIsTail(t[..|t| - 1]);
    }
  }

  /** A block of TailStart is free exactly down to the last taken block: the characterisation is unique. */
  lemma TailStartUnique(t: Table, s: nat)
    requires s <= |t|
    requires forall i :: s <= i < |t| ==> IsFree(t[i])
    requires s > 0 ==> !IsFree(t[s - 1])
    ensures TailStart(t) == s
  {
    TailStartIsTail(t);
  }

  /**
   For n >= 1 the search keeps its documented contract exactly when a fitting run exists or the last block is
   taken. Otherwise it answers with the start of a trailing run that is too short.
   */
  lemma SearchContractExact(t: Table, n: nat)
    requires n >= 1
    ensures MeetsSearchContract(t, n, StartBlock(t, n)) <==> Fits(t, n) || LastTaken(t)
    ensures !Fits(t, n) && !LastTaken(t) ==>
              0 <= StartBlock(t, n) < |t| < StartBlock(t, n) + n && FreeRun(t, StartBlock(t, n), |t| - StartBlock(t, n))
  {
    FirstFitFromIsLeast(t, n, 0);
    TailStartIsTail(t);
    if !Fits(t, n) && !LastTaken(t) {
      assert TailStart(t) < |t|;
      assert !FreeRun(t, TailStart(t), n);
    }
  }

  /** The smallest table on which the search breaks its contract: one free block, two wanted. */
  lemma SearchContractBroken()
    ensures !Fits([FREE], 2) && StartBlock([FREE], 2) == 0 && !MeetsSearchContract([FREE], 2, 0)
  {
    TailStartUnique([FREE], 0);
  }

  // ---------------------------------------------------------------- marking and releasing

  /** The entry of the k-th block of an allocation of n blocks. */
  function EntryFor(k: nat, n: nat): Entry {
    (if k == 0 then TAKEN | IS_FIRST else TAKEN) | (if k + 1 < n then HAS_NEXT else 0)
  }

  function Mark(t: Table, s: nat, n: nat): (r: Table)
    ensures |r| == |t|
  {
    seq(|t|, i requires 0 <= i < |t| => if s <= i < s + n then EntryFor(i - s, n) else t[i])
  }

  function Cleared(t: Table, s: nat, n: nat): (r: Table)
    ensures |r| == |t|
  {
    seq(|t|, i requires 0 <= i < |t| => if s <= i < s + n then FREE else t[i])
  }

  /** What releasing from block s does to any table: clear entries until one without the has-next bit. */
  function Release(t: Table, s: nat): (r: Table)
    ensures |r| == |t|
    decreases |t| - s
  {
    if s >= |t| then t
    else if t[s] & HAS_NEXT == 0 then t[s := FREE]
    else Release(t[s := FREE], s + 1)
  }

  // ---------------------------------------------------------------- decoding

  predicate IsExtent(t: Table, s: nat, n: nat) {
    n >= 1 && s + n <= |t| && forall i :: s <= i < s + n ==> t[i] == EntryFor(i - s, n)
  }

  predicate Covers(live: Extents, s: nat, i: nat) {
    s in live && s <= i < s + live[s]
  }

  ghost predicate Covered(live: Extents, i: nat) {
    exists s: nat :: Covers(live, s, i)
  }

  /** The table encodes exactly these allocations and nothing else. */
  ghost predicate Decodes(t: Table, live: Extents) {
    && (forall s | s in live :: IsExtent(t, s, live[s]))
    && (forall i: nat | i < |t| :: t[i] == FREE || Covered(live, i))
  }

  lemma EntryForFacts(k: nat, n: nat)
    requires k < n
    ensures !IsFree(EntryFor(k, n)) && EntryFor(k, n) != FREE
    ensures (EntryFor(k, n) & IS_FIRST != 0) <==> k == 0
    ensures (EntryFor(k, n) & HAS_NEXT != 0) <==> k + 1 < n
  {
  }

  lemma CoveredEntry(t: Table, live: Extents, s: nat, i: nat)
    requires Decodes(t, live) && Covers(live, s, i)
    ensures i < |t| && !IsFree(t[i]) && t[i] != FREE
    ensures (t[i] & IS_FIRST != 0) <==> i == s
    ensures (t[i] & HAS_NEXT != 0) <==> i + 1 < s + live[s]
  {
    assert IsExtent(t, s, live[s]);
    EntryForFacts(i - s, live[s]);
  }

  /** Distinct live allocations never share a block. */
  lemma ExtentsDisjoint(t: Table, live: Extents, s: nat, r: nat, i: nat)
    requires Decodes(t, live)
    requires Covers(live, s, i) && Covers(live, r, i)
    ensures s == r
  {
    var m := if s < r then r else s;
    assert Covers(live, s, m) && Covers(live, r, m);
    CoveredEntry(t, live, s, m);
    CoveredEntry(t, live, r, m);
  }

  /** In a decodable table a block is free exactly when no live allocation covers it. */
  lemma FreeIsUncovered(t: Table, live: Extents, i: nat)
    requires Decodes(t, live) && i < |t|
    ensures IsFree(t[i]) <==> t[i] == FREE
    ensures IsFree(t[i]) <==> !Covered(live, i)
  {
    if Covered(live, i) {
      var s: nat :| Covers(live, s, i);
      CoveredEntry(t, live, s, i);
    }
  }

  /** A table decodes to at most one set of allocations. */
  lemma DecodeUnique(t: Table, live: Extents, live': Extents)
    requires Decodes(t, live) && Decodes(t, live')
    ensures live == live'
  {
    forall s | s in live ensures s in live' && live'[s] == live[s] {
      SameExtent(t, live, live', s);
    }
    forall s | s in live' ensures s in live {
      SameExtent(t, live', live, s);
    }
  }

  lemma SameExtent(t: Table, live: Extents, live': Extents, s: nat)
    requires Decodes(t, live) && Decodes(t, live') && s in live
    ensures s in live' && live'[s] == live[s]
  {
    assert IsExtent(t, s, live[s]) && Covers(live, s, s);
    CoveredEntry(t, live, s, s);
    var r: nat :| Covers(live', r, s);
    CoveredEntry(t, live', r, s);
    var last := s + (if live[s] <= live'[s] then live[s] else live'[s]) - 1;
    assert IsExtent(t, s, live'[s]) && Covers(live, s, last) && Covers(live', s, last);
    CoveredEntry(t, live, s, last);
    CoveredEntry(t, live', s, last);
  }

  /** Two tables of one length that encode the same allocations are the same table. */
  lemma EncodeUnique(t: Table, t': Table, live: Extents)
    requires |t| == |t'| && Decodes(t, live) && Decodes(t', live)
    ensures t == t'
  {
    forall i: nat | i < |t| ensures t[i] == t'[i] {
      if Covered(live, i) {
        var s: nat :| Covers(live, s, i);
      } else {
        assert t[i] == FREE && t'[i] == FREE;
      }
    }
  }

  /** Marking a free run adds exactly that allocation. */
  lemma MarkDecodes(t: Table, live: Extents, s: nat, n: nat)
    requires Decodes(t, live) && n >= 1 && FreeRun(t, s, n)
    ensures s !in live && Decodes(Mark(t, s, n), live[s := n])
  {
    var t', live' := Mark(t, s, n), live[s := n];
    forall r | r in live ensures r != s && IsExtent(t', r, live[r]) {
      forall i: nat | Covers(live, r, i) ensures !(s <= i < s + n) {
        CoveredEntry(t, live, r, i);
      }
      assert IsExtent(t, r, live[r]) && Covers(live, r, r);
      forall i | r <= i < r + live[r] ensures t'[i] == t[i] {
        assert Covers(live, r, i);
      }
    }
    forall i: nat | i < |t'| ensures t'[i] == FREE || Covered(live', i) {
      if s <= i < s + n {
        assert Covers(live', s, i);
      } else if t[i] != FREE {
        var r: nat :| Covers(live, r, i);
        assert Covers(live', r, i);
      }
    }
  }

  /** Releasing a live allocation clears its own blocks, all of them and no other. */
  lemma {:induction false} ReleaseClears(t: Table, s: nat, n: nat, k: nat)
    requires k < n && s + n <= |t|
    requires forall i :: s + k <= i < s + n ==> t[i] == EntryFor(i - s, n)
    ensures Release(t, s + k) == Cleared(t, s + k, n - k)
    decreases n - k
  {
    EntryForFacts(k, n);
    if k + 1 < n {
      ReleaseClears(t[s + k := FREE], s, n, k + 1);
    }
  }

  lemma ReleaseDecodes(t: Table, live: Extents, s: nat)
    requires Decodes(t, live) && s in live
    ensures Release(t, s) == Cleared(t, s, live[s]) && Decodes(Release(t, s), live - {s})
  {
    ReleaseClears(t, s, live[s], 0);
    var t', live' := Release(t, s), live - {s};
    forall r | r in live' ensures IsExtent(t', r, live'[r]) {
      forall i | r <= i < r + live[r] ensures t'[i] == t[i] {
        if s <= i < s + live[s] {
          assert Covers(live, s, i) && Covers(live, r, i);
          ExtentsDisjoint(t, live, s, r, i);
        }
      }
    }
    forall i: nat | i < |t'| ensures t'[i] == FREE || Covered(live', i) {
      if t'[i] != FREE {
        var r: nat :| Covers(live, r, i);
        assert Covers(live', r, i);
      }
    }
  }
}
