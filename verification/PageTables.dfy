/**
 A two-level page structure as it lies in physical memory: a directory frame whose 1024 words name 1024 table
 frames (32-bit paging of the Intel SDM, Vol. 3A, section 4.3), and the flat map of 2^20 entries it stands for.
 Nothing is assumed about aliasing: that directory and tables are distinct frames comes from the heap.
 */
module PageTables {
  import opened Words
  import opened HeapTable
  import opened Kheap

  const ENTRIES := 1024
  const PRESENT := 1
  const WRITEABLE := 2
  const ACCESS_FROM_ALL := 4

  /** The frame of the table that serves directory slot i. */
  function Tab(m: seq<byte>, d: nat, i: nat): (f: nat)
    requires |m| == RAM_BYTES && d < FRAMES && i < ENTRIES
    ensures f < FRAMES
  {
    Word(FrameOf(m, d), i) / PAGE
  }

  /** The entry that translation of page p ends at. */
  function PageEntry(m: seq<byte>, d: nat, p: nat): u32
    requires |m| == RAM_BYTES && d < FRAMES && p < FRAMES
  {
    Word(FrameOf(m, Tab(m, d, p / ENTRIES)), p % ENTRIES)
  }

  /** The flat map the structure stands for. */
  function Flat(m: seq<byte>, d: nat): (v: seq<u32>)
    requires |m| == RAM_BYTES && d < FRAMES
    ensures |v| == FRAMES
  {
    seq(FRAMES, p requires 0 <= p < FRAMES => PageEntry(m, d, p))
  }

  /** Frame f is a live allocation of one block. */
  predicate Single(live: Extents, f: nat) {
    IsHeapFrame(f) && f - HEAP_FRAME in live && live[f - HEAP_FRAME] == 1
  }

  /** Directory and tables are live one-block allocations, all different. */
  ghost predicate Directory(m: seq<byte>, live: Extents, d: nat) {
    && |m| == RAM_BYTES
    && Single(live, d)
    && (forall i: nat :: i < ENTRIES ==> Single(live, Tab(m, d, i)) && Tab(m, d, i) != d)
    && (forall i: nat, j: nat :: i < j < ENTRIES ==> Tab(m, d, i) != Tab(m, d, j))
  }

  /** The directory frame that the `paging_4gb_chunk` in frame c points to. */
  function DirOf(m: seq<byte>, c: nat): (d: nat)
    requires |m| == RAM_BYTES && c < FRAMES
    ensures d < FRAMES
  {
    Word(FrameOf(m, c), 0) / PAGE
  }

  /** A chunk as `paging_new_4gb` leaves it: three kinds of frames, 1026 in all. */
  ghost predicate Chunk(m: seq<byte>, live: Extents, c: nat) {
    && |m| == RAM_BYTES
    && Single(live, c) && Word(FrameOf(m, c), 0) % PAGE == 0
    && Directory(m, live, DirOf(m, c))
    && DirOf(m, c) != c
    && forall i: nat :: i < ENTRIES ==> Tab(m, DirOf(m, c), i) != c
  }

  function View(m: seq<byte>, c: nat): (v: seq<u32>)
    requires |m| == RAM_BYTES && c < FRAMES
    ensures |v| == FRAMES
  {
    Flat(m, DirOf(m, c))
  }

  /** The frames a chunk is made of, in the order they are allocated: its directory, its tables, its own block. */
  function ChunkFrames(m: seq<byte>, c: nat): (fs: seq<nat>)
    requires |m| == RAM_BYTES && c < FRAMES
    ensures |fs| == ENTRIES + 2
  {
    var d := DirOf(m, c);
    [d] + seq(ENTRIES, i requires 0 <= i < ENTRIES => Tab(m, d, i)) + [c]
  }

  /** The heap blocks of a list of frames. */
  function BlocksOf(fs: seq<nat>): set<int> {
    if fs == [] then {} else BlocksOf(fs[..|fs| - 1]) + {fs[|fs| - 1] - HEAP_FRAME}
  }

  function ChunkBlocks(m: seq<byte>, c: nat): set<int>
    requires |m| == RAM_BYTES && c < FRAMES
  {
    BlocksOf(ChunkFrames(m, c))
  }

  ghost predicate Distinct(fs: seq<nat>) {
    forall i, j :: 0 <= i < j < |fs| ==> fs[i] != fs[j]
  }

  ghost predicate AllSingle(live: Extents, fs: seq<nat>) {
    forall i :: 0 <= i < |fs| ==> Single(live, fs[i])
  }

  lemma {:induction false} BlocksOfMember(fs: seq<nat>, b: int)
    ensures b in BlocksOf(fs) <==> exists i :: 0 <= i < |fs| && fs[i] - HEAP_FRAME == b
  {
    if fs != [] {
      BlocksOfMember(fs[..|fs| - 1], b);
    }
  }

  lemma {:induction false} BlocksOfConcat(fs: seq<nat>, gs: seq<nat>)
    ensures BlocksOf(fs + gs) == BlocksOf(fs) + BlocksOf(gs)
  {
    if gs == [] {
      assert fs + gs == fs;
    } else {
      assert (fs + gs)[..|fs + gs| - 1] == fs + gs[..|gs| - 1];
      BlocksOfConcat(fs, gs[..|gs| - 1]);
    }
  }

  lemma BlocksOfOne(f: nat)
    ensures BlocksOf([f]) == {f - HEAP_FRAME}
  {
    assert [f][..0] == [];
  }

  lemma {:induction false} DistinctCount(fs: seq<nat>)
    requires Distinct(fs)
    ensures |BlocksOf(fs)| == |fs|
  {
    if fs != [] {
      DistinctCount(fs[..|fs| - 1]);
      BlocksOfMember(fs[..|fs| - 1], fs[|fs| - 1] - HEAP_FRAME);
    }
  }

  lemma ChunkFramesDistinct(m: seq<byte>, live: Extents, c: nat)
    requires Chunk(m, live, c)
    ensures Distinct(ChunkFrames(m, c)) && AllSingle(live, ChunkFrames(m, c))
  {
  }

  /** A chunk holds exactly 1026 one-block allocations. */
  lemma ChunkHolds1026Blocks(m: seq<byte>, live: Extents, c: nat)
    requires Chunk(m, live, c)
    ensures |ChunkBlocks(m, c)| == 1026
    ensures forall b | b in ChunkBlocks(m, c) :: 0 <= b && b in live && live[b] == 1
  {
    var fs := ChunkFrames(m, c);
    ChunkFramesDistinct(m, live, c);
    DistinctCount(fs);
    forall b | b in ChunkBlocks(m, c) ensures 0 <= b && b in live && live[b] == 1 {
      BlocksOfMember(fs, b);
      var i :| 0 <= i < |fs| && fs[i] - HEAP_FRAME == b;
      assert Single(live, fs[i]);
    }
  }

  /** Only frame f differs. */
  ghost predicate OnlyFrame(m: seq<byte>, m': seq<byte>, f: nat)
    requires |m| == |m'| == RAM_BYTES
  {
    forall g: nat :: g != f ==> SameFrame(m, m', g)
  }

  lemma OnlyFrameTrans(m: seq<byte>, m': seq<byte>, m'': seq<byte>, f: nat)
    requires |m| == |m'| == |m''| == RAM_BYTES
    requires OnlyFrame(m, m', f) && OnlyFrame(m', m'', f)
    ensures OnlyFrame(m, m'', f)
  {
    forall g: nat | g != f ensures SameFrame(m, m'', g) {
      assert SameFrame(m, m', g) && SameFrame(m', m'', g);
    }
  }

  lemma SingleIsHeld(live: Extents, f: nat)
    requires Single(live, f)
    ensures f < FRAMES && Held(live, f)
  {
    assert Covers(live, f - HEAP_FRAME, f - HEAP_FRAME);
  }

  /** What disturbs no held frame leaves every chunk, its frames and its whole map as they were. */
  lemma ChunkPreserved(m: seq<byte>, live: Extents, m': seq<byte>, live': Extents, c: nat)
    requires |m| == |m'| == RAM_BYTES && Chunk(m, live, c)
    requires Grown(live, live') && Preserved(live, m, m')
    ensures Chunk(m', live', c) && DirOf(m', c) == DirOf(m, c)
    ensures FrameOf(m', DirOf(m, c)) == FrameOf(m, DirOf(m, c))
    ensures View(m', c) == View(m, c) && ChunkFrames(m', c) == ChunkFrames(m, c)
    ensures ChunkBlocks(m', c) == ChunkBlocks(m, c)
  {
    var d := DirOf(m, c);
    SingleIsHeld(live, c);
    SingleIsHeld(live, d);
    assert SameFrame(m, m', c) && SameFrame(m, m', d);
    forall i: nat | i < ENTRIES ensures Tab(m', d, i) == Tab(m, d, i) {}
    assert ChunkFrames(m', c) == ChunkFrames(m, c);
    forall p: nat | p < FRAMES ensures PageEntry(m', d, p) == PageEntry(m, d, p) {
      SingleIsHeld(live, Tab(m, d, p / ENTRIES));
      assert SameFrame(m, m', Tab(m, d, p / ENTRIES));
    }
  }

  // ---------------------------------------------------------------- writing one word

  /** Memory m' is m with word j of frame f set to v. */
  ghost predicate WordWritten(m: seq<byte>, m': seq<byte>, f: nat, j: nat, v: u32) {
    && |m| == |m'| == RAM_BYTES && f < FRAMES && j < ENTRIES
    && Word(FrameOf(m', f), j) == v
    && (forall k: nat :: k < ENTRIES && k != j ==> Word(FrameOf(m', f), k) == Word(FrameOf(m, f), k))
    && OnlyFrame(m, m', f)
    && (forall a :: 0 <= a < RAM_BYTES && !(PAGE * f + 4 * j <= a < PAGE * f + 4 * j + 4) ==> m'[a] == m[a])
  }

  lemma StoredBytes(m: seq<byte>, m': seq<byte>, f: nat, j: nat, v: u32)
    requires |m| == |m'| == RAM_BYTES && f < FRAMES && j < ENTRIES
    requires var a := PAGE * f + 4 * j;
      m' == m[a := v % 256][a + 1 := v / 256 % 256][a + 2 := v / 65536 % 256][a + 3 := v / 16777216]
    ensures WordWritten(m, m', f, j, v)
  {
    var a := PAGE * f + 4 * j;
    forall g: nat | g != f ensures SameFrame(m, m', g) {
      SameOutside(m, m', g, a, a + 4);
    }
    forall k: nat | k < ENTRIES && k != j ensures Word(FrameOf(m', f), k) == Word(FrameOf(m, f), k) {
      assert forall i :: 4 * k <= i < 4 * k + 4 ==> FrameOf(m', f)[i] == m'[PAGE * f + i] == m[PAGE * f + i];
    }
    assert forall i :: 4 * j <= i < 4 * j + 4 ==> FrameOf(m', f)[i] == m'[PAGE * f + i];
    SplitWord(v);
  }

  lemma SplitWord(v: u32)
    ensures v == v % 256 + 256 * (v / 256 % 256) + 65536 * (v / 65536 % 256) + 16777216 * (v / 16777216)
  {
  }

  /** A store to the table entry of page p replaces that entry of the flat map and nothing else of the structure. */
  lemma EntryStored(m: seq<byte>, live: Extents, m': seq<byte>, d: nat, p: nat, v: u32)
    requires Directory(m, live, d) && p < FRAMES
    requires WordWritten(m, m', Tab(m, d, p / ENTRIES), p % ENTRIES, v)
    ensures Directory(m', live, d) && FrameOf(m', d) == FrameOf(m, d)
    ensures Flat(m', d) == Flat(m, d)[p := v]
  {
    var t := Tab(m, d, p / ENTRIES);
    assert SameFrame(m, m', d);
    SingleIsHeld(live, d);
    forall i: nat | i < ENTRIES ensures Tab(m', d, i) == Tab(m, d, i) {}
    forall q: nat | q < FRAMES ensures PageEntry(m', d, q) == if q == p then v else PageEntry(m, d, q) {
      if q / ENTRIES != p / ENTRIES {
        assert Tab(m, d, q / ENTRIES) != t;
        assert SameFrame(m, m', Tab(m, d, q / ENTRIES));
      } else if q != p {
        assert q % ENTRIES != p % ENTRIES;
      }
    }
  }
}
