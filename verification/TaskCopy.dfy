/**
  `copy_string_from_task`: a kernel page spliced into a task's map, a string copied out through it, the map restored.
*/
module TaskCopy {
  import opened Words
  import opened HeapTable
  import opened HeapRuns
  import opened Heap
  import opened Kheap
  import opened PageTables
  import opened Paging
  import opened PagingChunks
  import opened AddressSpace

  // ---------------------------------------------------------------- strings through a map

  /** Address va + i on 32 bits. */
  function Advance(va: u32, i: nat): u32 { (va + i) % RAM_BYTES }

  /** Where byte i of the string at va lies, through the map of chunk c. */
  function SourceAt(m: seq<byte>, c: nat, va: u32, i: nat): (a: nat)
    requires |m| == RAM_BYTES && c < FRAMES
    ensures a < RAM_BYTES
  {
    hide Translate;
    Translate(m, c, Advance(va, i))
  }

  function SourceByte(m: seq<byte>, c: nat, va: u32, i: nat): byte
    requires |m| == RAM_BYTES && c < FRAMES
  {
    hide SourceAt;
    m[SourceAt(m, c, va, i)]
  }

  /** Bytes before the NUL, at most n. */
  function StringLength(m: seq<byte>, c: nat, va: u32, n: nat): (l: nat)
    requires |m| == RAM_BYTES && c < FRAMES
    ensures l <= n && (forall i: nat :: i < l ==> SourceByte(m, c, va, i) != 0)
    ensures l < n ==> SourceByte(m, c, va, l) == 0
    decreases n
  {
    hide SourceByte, SourceAt;
    if n == 0 then 0
    else
      var l := StringLength(m, c, va, n - 1);
      if l == n - 1 && SourceByte(m, c, va, l) != 0 then n else l
  }

  /** Memory after the string of length l at va, read in m, was laid at physical address d and terminated. */
  ghost predicate Copied(m: seq<byte>, m': seq<byte>, c: nat, va: u32, d: nat, l: nat)
    requires |m| == |m'| == RAM_BYTES && c < FRAMES
  {
    && d + l < RAM_BYTES
    && (forall i: nat :: i < l ==> m'[d + i] == SourceByte(m, c, va, i))
    && m'[d + l] == 0
    && forall a :: 0 <= a < RAM_BYTES && !(d <= a <= d + l) ==> m'[a] == m[a]
  }

  // ---------------------------------------------------------------- writes that leave a map alone

  /** No frame of the chunk differs. */
  ghost predicate StructureKept(m: seq<byte>, m': seq<byte>, c: nat)
    requires |m| == |m'| == RAM_BYTES && c < FRAMES
  {
    forall i :: 0 <= i < |ChunkFrames(m, c)| ==> SameFrame(m, m', ChunkFrames(m, c)[i])
  }

  lemma MapKept(m: seq<byte>, m': seq<byte>, live: Extents, c: nat)
    requires |m| == |m'| == RAM_BYTES && c < FRAMES && Chunk(m, live, c) && StructureKept(m, m', c)
    ensures Chunk(m', live, c) && DirOf(m', c) == DirOf(m, c) && View(m', c) == View(m, c)
    ensures ChunkFrames(m', c) == ChunkFrames(m, c)
  {
    hide Word, FrameOf;
    var d, fs := DirOf(m, c), ChunkFrames(m, c);
    assert SameFrame(m, m', fs[0]) && SameFrame(m, m', fs[ENTRIES + 1]);
    assert fs[0] == d && fs[ENTRIES + 1] == c;
    forall i: nat | i < ENTRIES ensures Tab(m', d, i) == Tab(m, d, i) {}
    assert ChunkFrames(m', c) == fs;
    forall p: nat | p < FRAMES ensures PageEntry(m', d, p) == PageEntry(m, d, p) {
      assert fs[p / ENTRIES + 1] == Tab(m, d, p / ENTRIES);
      assert SameFrame(m, m', fs[p / ENTRIES + 1]);
    }
  }

  /** Bytes d..d + n lie in no frame of the chunk. */
  ghost predicate ClearOf(m: seq<byte>, c: nat, d: nat, n: nat)
    requires |m| == RAM_BYTES && c < FRAMES
  {
    forall i :: 0 <= i < |ChunkFrames(m, c)| ==>
      PAGE * ChunkFrames(m, c)[i] + PAGE <= d || d + n <= PAGE * ChunkFrames(m, c)[i]
  }

  lemma ClearWriteKeeps(m: seq<byte>, m': seq<byte>, c: nat, d: nat, n: nat)
    requires |m| == |m'| == RAM_BYTES && c < FRAMES && ClearOf(m, c, d, n)
    requires forall a :: 0 <= a < RAM_BYTES && !(d <= a < d + n) ==> m'[a] == m[a]
    ensures StructureKept(m, m', c)
  {
    hide ChunkFrames;
    forall i | 0 <= i < |ChunkFrames(m, c)| ensures SameFrame(m, m', ChunkFrames(m, c)[i]) {
      SameOutside(m, m', ChunkFrames(m, c)[i], d, d + n);
    }
  }

  /** The destination is contiguous, and the string up to its NUL lies outside it. */
  ghost predicate Copyable(m: seq<byte>, c: nat, dest: u32, src: u32, d: nat, count: nat)
    requires |m| == RAM_BYTES && c < FRAMES
  {
    && count >= 1 && d + count <= RAM_BYTES && ClearOf(m, c, d, count)
    && (forall i: nat :: i < count ==> SourceAt(m, c, dest, i) == d + i)
    && forall i: nat :: i <= StringLength(m, c, src, count - 1) && i < count - 1 ==>
       !(d <= SourceAt(m, c, src, i) < d + count)
  }

  /** Memory is m, with the first i bytes of the string laid at d; the map is that of m. */
  ghost predicate CopyingAt(m: seq<byte>, m': seq<byte>, live: Extents, c: nat, src: u32, d: nat, i: nat) {
    && |m| == |m'| == RAM_BYTES && c < FRAMES && Chunk(m', live, c) && View(m', c) == View(m, c)
    && forall a: nat :: a < RAM_BYTES ==> m'[a] == if d <= a < d + i then SourceByte(m, c, src, a - d) else m[a]
  }

  /** One byte more is laid at d + i. */
  lemma OneByteMore(m: seq<byte>, m': seq<byte>, m'': seq<byte>, live: Extents, c: nat, dest: u32, src: u32, d: nat,
                    count: nat, i: nat, b: byte)
    requires |m| == |m'| == |m''| == RAM_BYTES && c < FRAMES && Chunk(m, live, c)
    requires CopyingAt(m, m', live, c, src, d, i) && Copyable(m, c, dest, src, d, count) && i < count
    requires m'' == m'[d + i := b]
    ensures Chunk(m'', live, c) && View(m'', c) == View(m, c)
    ensures b == SourceByte(m, c, src, i) ==> CopyingAt(m, m'', live, c, src, d, i + 1)
  {
    hide Chunk, View, ChunkFrames, StructureKept, ClearOf, SourceByte, SourceAt, StringLength;
    ClearWriteKeeps(m, m'', c, d, count);
    MapKept(m, m'', live, c);
  }

  /** The byte at va + i, read while copying, is the one that was there before. */
  lemma SourceUndisturbed(m: seq<byte>, m': seq<byte>, live: Extents, c: nat, dest: u32, src: u32, d: nat, count: nat,
                          i: nat)
    requires |m| == RAM_BYTES && CopyingAt(m, m', live, c, src, d, i) && Copyable(m, c, dest, src, d, count)
    requires i <= StringLength(m, c, src, count - 1) && i < count - 1
    ensures m'[SourceAt(m, c, src, i)] == SourceByte(m, c, src, i)
  {
    hide Chunk, View, Translate, ClearOf, StringLength;
    var a := SourceAt(m, c, src, i);
    assert !(d <= a < d + count);
    assert m'[a] == m[a];
  }

  lemma DestinationAt(m: seq<byte>, c: nat, dest: u32, src: u32, d: nat, count: nat, i: nat)
    requires |m| == RAM_BYTES && c < FRAMES && Copyable(m, c, dest, src, d, count) && i < count
    ensures Translate(m, c, Advance(dest, i)) == d + i < RAM_BYTES
  {
    assert SourceAt(m, c, dest, i) == d + i;
  }

  lemma CopyingMap(m: seq<byte>, m': seq<byte>, live: Extents, c: nat, src: u32, d: nat, i: nat)
    requires CopyingAt(m, m', live, c, src, d, i)
    ensures |m| == |m'| == RAM_BYTES && c < FRAMES && Chunk(m', live, c) && View(m', c) == View(m, c)
  {
  }

  lemma CopyDone(m: seq<byte>, m': seq<byte>, m'': seq<byte>, live: Extents, c: nat, src: u32, d: nat, l: nat)
    requires |m| == |m''| == RAM_BYTES && CopyingAt(m, m', live, c, src, d, l) && d + l < RAM_BYTES
    requires m'' == m'[d + l := 0]
    ensures Copied(m, m'', c, src, d, l)
  {
    hide Chunk, View, SourceByte;
  }

  /** `src[i]` through the map, while copying. */
  method LoadSource(k: Machine, c: nat, dest: u32, src: u32, ghost d: nat, ghost count: nat, i: nat, ghost m: seq<byte>)
    returns (b: byte)
    requires k.Valid() && |m| == RAM_BYTES && CopyingAt(m, k.ram[..], k.heap.live, c, src, d, i)
    requires Copyable(m, c, dest, src, d, count) && i <= StringLength(m, c, src, count - 1) && i < count - 1
    ensures b == SourceByte(m, c, src, i)
  {
    hide Chunk, View, Translate, SourceByte, CopyingAt, Copyable, StringLength;
    CopyingMap(m, k.ram[..], k.heap.live, c, src, d, i);
    SourceUndisturbed(m, k.ram[..], k.heap.live, c, dest, src, d, count, i);
    var from := TranslateNow(k, c, Advance(src, i), m);
    b := k.ram[from];
  }

  /** `dest[i] = b` through the map, while copying. */
  method StoreDestination(k: Machine, c: nat, dest: u32, ghost src: u32, ghost d: nat, ghost count: nat, i: nat,
                          b: byte, ghost m: seq<byte>)
    requires k.Valid() && |m| == RAM_BYTES && c < FRAMES && Chunk(m, k.heap.live, c)
    requires CopyingAt(m, k.ram[..], k.heap.live, c, src, d, i) && Copyable(m, c, dest, src, d, count) && i < count
    modifies k.ram
    ensures Chunk(k.ram[..], k.heap.live, c) && View(k.ram[..], c) == View(m, c)
    ensures b == SourceByte(m, c, src, i) ==> CopyingAt(m, k.ram[..], k.heap.live, c, src, d, i + 1)
    ensures b == 0 ==> Copied(m, k.ram[..], c, src, d, i)
  {
    hide Chunk, View, Translate, SourceByte, CopyingAt, Copyable, StringLength, Copied;
    ghost var m' := k.ram[..];
    CopyingMap(m, m', k.heap.live, c, src, d, i);
    DestinationAt(m, c, dest, src, d, count, i);
    var to := TranslateNow(k, c, Advance(dest, i), m);
    k.ram[to] := b;
    OneByteMore(m, m', k.ram[..], k.heap.live, c, dest, src, d, count, i, b);
    if b == 0 {
      CopyDone(m, m', k.ram[..], k.heap.live, c, src, d, i);
    }
  }

  /** Bytes that `strncpy` may write for a count: a NUL also for none. */
  function Span(count: nat): nat { if count == 0 then 1 else count }

  /** `strncpy` with every access going through the current directory, that of chunk c. */
  method StrncpyMapped(k: Machine, c: nat, dest: u32, src: u32, ghost d: nat, count: nat)
    requires k.Valid() && c < FRAMES && Chunk(k.ram[..], k.heap.live, c)
    requires Copyable(k.ram[..], c, dest, src, d, Span(count))
    modifies k.ram
    ensures Copied(old(k.ram[..]), k.ram[..], c, src, d, StringLength(old(k.ram[..]), c, src, Span(count) - 1))
    ensures Chunk(k.ram[..], k.heap.live, c) && View(k.ram[..], c) == View(old(k.ram[..]), c)
  {
    hide Chunk, View, Translate, Copied, SourceByte, CopyingAt, Copyable, StringLength;
    ghost var m := k.ram[..];
    ghost var span := Span(count);
    CopyingStart(m, k.heap.live, c, src, d);
    var i := 0;
    while i < count - 1
      invariant 0 <= i <= StringLength(m, c, src, span - 1) && i < span
      invariant CopyingAt(m, k.ram[..], k.heap.live, c, src, d, i)
    {
      var b := LoadSource(k, c, dest, src, d, span, i, m);
      if b == 0 {
        break;
      }
      StoreDestination(k, c, dest, src, d, span, i, b, m);
      i := i + 1;
    }
    StoreDestination(k, c, dest, src, d, span, i, 0, m);
  }

  lemma CopyingStart(m: seq<byte>, live: Extents, c: nat, src: u32, d: nat)
    requires |m| == RAM_BYTES && c < FRAMES && Chunk(m, live, c)
    ensures CopyingAt(m, m, live, c, src, d, 0)
  {
    hide Chunk, View;
  }

  /** The walk the processor makes; the map is that of m. */
  method TranslateNow(k: Machine, c: nat, va: u32, ghost m: seq<byte>) returns (a: nat)
    requires k.Valid() && |m| == RAM_BYTES && c < FRAMES && Chunk(k.ram[..], k.heap.live, c)
    requires View(k.ram[..], c) == View(m, c)
    ensures a == Translate(m, c, va) < RAM_BYTES
  {
    hide Word, FrameOf;
    var word := LoadWord(k, c, 0);
    var entry := Get(k, word / PAGE, va / PAGE * PAGE);
    a := entry / PAGE * PAGE + va % PAGE;
  }

  // ---------------------------------------------------------------- the splice

  /** The table frame and word index of the entry of page p in chunk c. */
  function EntryTable(m: seq<byte>, c: nat, p: nat): nat
    requires |m| == RAM_BYTES && c < FRAMES && p < FRAMES
  {
    Tab(m, DirOf(m, c), p / ENTRIES)
  }

  function EntryAddress(m: seq<byte>, c: nat, p: nat): nat
    requires |m| == RAM_BYTES && c < FRAMES && p < FRAMES
  {
    PAGE * EntryTable(m, c, p) + 4 * (p % ENTRIES)
  }

  /** Address a is neither in page frame p nor one of the four bytes of p's entry. */
  predicate Elsewhere4(m: seq<byte>, c: nat, p: nat, a: nat)
    requires |m| == RAM_BYTES && c < FRAMES && p < FRAMES
  {
    a / PAGE != p && !(EntryAddress(m, c, p) <= a < EntryAddress(m, c, p) + 4)
  }

  /** The string at va, up to its NUL or max - 1 bytes, touches neither page p, nor frame p, nor the entry of page p. */
  ghost predicate SourceAvoids(m: seq<byte>, c: nat, va: u32, max: nat, p: nat)
    requires |m| == RAM_BYTES && c < FRAMES && p < FRAMES && max >= 1
  {
    forall i: nat :: i <= StringLength(m, c, va, max - 1) && i < max - 1 ==>
      Advance(va, i) / PAGE != p && Elsewhere4(m, c, p, SourceAt(m, c, va, i))
  }

  /** Outside frame p and the entry of p nothing differs, and the maps agree on all other pages. */
  ghost predicate SplicedOnly(m: seq<byte>, m': seq<byte>, c: nat, p: nat)
    requires |m| == |m'| == RAM_BYTES && c < FRAMES && p < FRAMES
  {
    && (forall a: nat :: a < RAM_BYTES && Elsewhere4(m, c, p, a) ==> m'[a] == m[a])
    && (forall q: nat :: q < FRAMES && q != p ==> View(m', c)[q] == View(m, c)[q])
  }

  /** Such a change does not show in a string that avoids p. */
  lemma SameString(m: seq<byte>, m': seq<byte>, c: nat, va: u32, max: nat, p: nat, n: nat)
    requires |m| == |m'| == RAM_BYTES && c < FRAMES && p < FRAMES && 1 <= max && n <= max - 1
    requires SplicedOnly(m, m', c, p) && SourceAvoids(m, c, va, max, p)
    ensures StringLength(m', c, va, n) == StringLength(m, c, va, n)
    ensures forall i: nat :: i <= StringLength(m, c, va, max - 1) && i < n ==>
      SourceAt(m', c, va, i) == SourceAt(m, c, va, i) && SourceByte(m', c, va, i) == SourceByte(m, c, va, i)
    decreases n
  {
    hide View, Elsewhere4;
    forall i: nat | i <= StringLength(m, c, va, max - 1) && i < n
      ensures SourceAt(m', c, va, i) == SourceAt(m, c, va, i) && SourceByte(m', c, va, i) == SourceByte(m, c, va, i)
    {
      assert Elsewhere4(m, c, p, SourceAt(m, c, va, i)) && Advance(va, i) / PAGE != p;
    }
    if n > 0 {
      SameString(m, m', c, va, max, p, n - 1);
      ShorterString(m, c, va, n - 1, max - 1);
    }
  }

  /** The length up to n is the length up to more, cut at n. */
  lemma {:induction false} ShorterString(m: seq<byte>, c: nat, va: u32, n: nat, n': nat)
    requires |m| == RAM_BYTES && c < FRAMES && n <= n'
    ensures StringLength(m, c, va, n) == if StringLength(m, c, va, n') < n then StringLength(m, c, va, n') else n
    decreases n' - n
  {
    hide SourceByte;
    if n < n' {
      ShorterString(m, c, va, n, n' - 1);
    }
  }

  lemma {:induction false} LengthIs(m: seq<byte>, c: nat, va: u32, n: nat, l: nat)
    requires |m| == RAM_BYTES && c < FRAMES && l <= n
    requires (forall i: nat :: i < l ==> SourceByte(m, c, va, i) != 0) && (l < n ==> SourceByte(m, c, va, l) == 0)
    ensures StringLength(m, c, va, n) == l
  {
    hide SourceByte;
    if n > 0 {
      LengthIs(m, c, va, n - 1, if l < n then l else l - 1);
    }
  }

  /** Only frame p differs, byte by byte. */
  ghost predicate OnlyBytesOf(m: seq<byte>, m': seq<byte>, p: nat)
    requires |m| == |m'| == RAM_BYTES
  {
    forall a: nat :: a < RAM_BYTES && a / PAGE != p ==> m'[a] == m[a]
  }

  lemma WordIsItsBytes(m: seq<byte>, m': seq<byte>, f: nat, j: nat, a: nat)
    requires |m| == |m'| == RAM_BYTES && f < FRAMES && j < ENTRIES
    requires Word(FrameOf(m, f), j) == Word(FrameOf(m', f), j)
    requires PAGE * f + 4 * j <= a < PAGE * f + 4 * j + 4
    ensures m[a] == m'[a]
  {
    var b := PAGE * f + 4 * j;
    assert forall i :: 4 * j <= i < 4 * j + 4 ==>
      FrameOf(m, f)[i] == m[PAGE * f + i] && FrameOf(m', f)[i] == m'[PAGE * f + i];
    FourBytes(m[b], m[b + 1], m[b + 2], m[b + 3], m'[b], m'[b + 1], m'[b + 2], m'[b + 3]);
  }

  lemma FourBytes(a0: byte, a1: byte, a2: byte, a3: byte, b0: byte, b1: byte, b2: byte, b3: byte)
    requires a0 as int + 256 * a1 as int + 65536 * a2 as int + 16777216 * a3 as int
          == b0 as int + 256 * b1 as int + 65536 * b2 as int + 16777216 * b3 as int
    ensures a0 == b0 && a1 == b1 && a2 == b2 && a3 == b3
  {
    FirstByte(a0, a1 as int + 256 * (a2 as int + 256 * a3 as int), b0, b1 as int + 256 * (b2 as int + 256 * b3 as int));
    FirstByte(a1, a2 as int + 256 * a3 as int, b1, b2 as int + 256 * b3 as int);
    FirstByte(a2, a3 as int, b2, b3 as int);
  }

  lemma FirstByte(a: byte, x: int, b: byte, y: int)
    requires a as int + 256 * x == b as int + 256 * y
    ensures a == b && x == y
  {
  }

  /** The page is mapped in: nothing else shows. */
  lemma Spliced(m0: seq<byte>, m1: seq<byte>, m2: seq<byte>, c: nat, p: nat, v: u32)
    requires |m0| == |m1| == |m2| == RAM_BYTES && c < FRAMES && p < FRAMES && OnlyBytesOf(m0, m1, p)
    requires DirOf(m1, c) == DirOf(m0, c) && ChunkFrames(m1, c) == ChunkFrames(m0, c) && View(m1, c) == View(m0, c)
    requires WordWritten(m1, m2, EntryTable(m1, c, p), p % ENTRIES, v) && View(m2, c) == View(m1, c)[p := v]
    ensures SplicedOnly(m0, m2, c, p) && EntryTable(m1, c, p) == EntryTable(m0, c, p)
  {
    hide Word, FrameOf, View, DirOf, Tab;
    assert ChunkFrames(m1, c)[p / ENTRIES + 1] == EntryTable(m1, c, p)
      && ChunkFrames(m0, c)[p / ENTRIES + 1] == EntryTable(m0, c, p);
  }

  /** The old entry is put back: outside frame p memory is what it was. */
  lemma Restored(m0: seq<byte>, m2: seq<byte>, m3: seq<byte>, m4: seq<byte>, c: nat, p: nat)
    requires |m0| == |m2| == |m3| == |m4| == RAM_BYTES && c < FRAMES && p < FRAMES
    requires SplicedOnly(m0, m2, c, p) && OnlyBytesOf(m2, m3, p)
    requires WordWritten(m3, m4, EntryTable(m0, c, p), p % ENTRIES, View(m0, c)[p])
    ensures OnlyBytesOf(m0, m4, p)
  {
    var t, j := EntryTable(m0, c, p), p % ENTRIES;
    assert View(m0, c)[p] == Word(FrameOf(m0, t), j);
    hide Word, FrameOf, View, DirOf, Tab, OnlyFrame;
    forall a: nat | a < RAM_BYTES && a / PAGE != p ensures m4[a] == m0[a] {
      if EntryAddress(m0, c, p) <= a < EntryAddress(m0, c, p) + 4 {
        WordIsItsBytes(m0, m4, t, j, a);
      } else {
        assert Elsewhere4(m0, c, p, a);
      }
    }
  }

  /** The frame of the kernel page that a request of max < 4096 bytes gets; none is taken for no bytes. */
  ghost function NextPageFrame(t: Table, max: nat): int {
    HEAP_FRAME + (if max == 0 then TailStart(t) else StartBlock(t, 1))
  }

  /** Whether such a request is refused. */
  predicate NoPage(t: Table, max: nat) {
    if max == 0 then LastTaken(t) else FreeBlocks(t) == 0
  }

  /** Where the caller's buffer may be: in no page structure, and not in the page to be spliced. */
  ghost predicate BufferClear(m: seq<byte>, c: nat, kc: nat, phys: u32, max: nat, p: nat)
    requires |m| == RAM_BYTES && c < FRAMES && kc < FRAMES
  {
    && phys + max <= RAM_BYTES && ClearOf(m, c, phys, max) && ClearOf(m, kc, phys, max)
    && (phys + max <= PAGE * p || PAGE * p + PAGE <= phys)
  }

  /** The two page structures in use: the task's, and the kernel's identity. */
  ghost predicate TwoMaps(m: seq<byte>, live: Extents, c: nat, kc: nat) {
    && |m| == RAM_BYTES && c < FRAMES && kc < FRAMES && Chunk(m, live, c) && Chunk(m, live, kc) && IdentityFrames(m, kc)
  }

  lemma NewFrameClear(m: seq<byte>, live: Extents, c: nat, p: nat, n: nat)
    requires |m| == RAM_BYTES && c < FRAMES && Chunk(m, live, c) && IsHeapFrame(p) && p - HEAP_FRAME !in live
    requires n <= PAGE
    ensures ClearOf(m, c, PAGE * p, n)
  {
    ChunkFramesAre(m, live, c);
    hide ChunkFrames, Chunk, Distinct;
    forall i | 0 <= i < |ChunkFrames(m, c)|
      ensures PAGE * ChunkFrames(m, c)[i] + PAGE <= PAGE * p || PAGE * p + n <= PAGE * ChunkFrames(m, c)[i]
    {
      assert Single(live, ChunkFrames(m, c)[i]);
    }
  }

  lemma OnlyBytesKeep(m: seq<byte>, m': seq<byte>, live: Extents, c: nat, p: nat)
    requires |m| == |m'| == RAM_BYTES && c < FRAMES && Chunk(m, live, c) && ClearOf(m, c, PAGE * p, PAGE)
    requires OnlyBytesOf(m, m', p)
    ensures Chunk(m', live, c) && DirOf(m', c) == DirOf(m, c) && View(m', c) == View(m, c)
    ensures ChunkFrames(m', c) == ChunkFrames(m, c)
  {
    hide View, Chunk, ChunkFrames, ClearOf, DirOf;
    ClearWriteKeeps(m, m', c, PAGE * p, PAGE);
    MapKept(m, m', live, c);
  }

  /** The string at va lies at address d of m', with its NUL. */
  ghost predicate StringAt(m: seq<byte>, c: nat, va: u32, l: nat, m': seq<byte>, d: nat)
    requires |m| == |m'| == RAM_BYTES && c < FRAMES
  {
    d + l < RAM_BYTES && m'[d + l] == 0 && forall i: nat :: i < l ==> m'[d + i] == SourceByte(m, c, va, i)
  }

  /** With page p mapped to itself, the copy into it is within bounds and its source is not disturbed. */
  lemma CopyableSpliced(m: seq<byte>, m': seq<byte>, c: nat, p: nat, va: u32, max: nat)
    requires |m| == |m'| == RAM_BYTES && c < FRAMES && p < FRAMES && 1 <= max < PAGE
    requires ChunkFrames(m', c) == ChunkFrames(m, c)
    requires SplicedOnly(m, m', c, p) && SourceAvoids(m, c, va, max, p) && ClearOf(m, c, PAGE * p, PAGE)
    requires View(m', c)[p] == PAGE * p + USER_WRITE
    ensures Copyable(m', c, PAGE * p, va, PAGE * p, max)
    ensures StringLength(m', c, va, max - 1) == StringLength(m, c, va, max - 1)
    ensures forall i: nat :: i < StringLength(m, c, va, max - 1) ==> SourceByte(m', c, va, i) == SourceByte(m, c, va, i)
  {
    hide View, ChunkFrames, Translate, Elsewhere4, SplicedOnly, SourceAvoids, SourceByte, StringLength;
    SameString(m, m', c, va, max, p, max - 1);
    forall i: nat | i < max ensures SourceAt(m', c, PAGE * p, i) == PAGE * p + i {
      OwnPage(m', c, p, i);
    }
    hide SourceAt;
    forall i: nat | i <= StringLength(m', c, va, max - 1) && i < max - 1
      ensures !(PAGE * p <= SourceAt(m', c, va, i) < PAGE * p + max)
    {
      SourceOutside(m, c, va, max, p, i);
    }
    assert ClearOf(m', c, PAGE * p, max);
  }

  lemma OwnPage(m: seq<byte>, c: nat, p: nat, i: nat)
    requires |m| == RAM_BYTES && c < FRAMES && p < FRAMES && i < PAGE && View(m, c)[p] == PAGE * p + USER_WRITE
    ensures SourceAt(m, c, PAGE * p, i) == PAGE * p + i
  {
    hide View;
    EntryFrame(PAGE * p, USER_WRITE);
    assert Advance(PAGE * p, i) == PAGE * p + i && (PAGE * p + i) / PAGE == p;
  }

  lemma SourceOutside(m: seq<byte>, c: nat, va: u32, max: nat, p: nat, i: nat)
    requires |m| == RAM_BYTES && c < FRAMES && p < FRAMES && 1 <= max < PAGE && SourceAvoids(m, c, va, max, p)
    requires i <= StringLength(m, c, va, max - 1) && i < max - 1
    ensures !(PAGE * p <= SourceAt(m, c, va, i) < PAGE * p + max)
  {
    hide StringLength, SourceAt;
    assert Elsewhere4(m, c, p, SourceAt(m, c, va, i));
  }

  lemma FlagsOfSplice(p: nat)
    requires p < FRAMES
    ensures Or32(PAGE * p, WRITEABLE + PRESENT + ACCESS_FROM_ALL) == PAGE * p + USER_WRITE
  {
    OrFlags(PAGE * p, 0, USER_WRITE);
  }

  lemma ChunkIsDirectory(m: seq<byte>, live: Extents, c: nat)
    requires Chunk(m, live, c)
    ensures |m| == RAM_BYTES && c < FRAMES && Directory(m, live, DirOf(m, c)) && View(m, c) == Flat(m, DirOf(m, c))
    ensures Word(FrameOf(m, c), 0) / PAGE == DirOf(m, c)
  {
  }

  lemma OnlyBytesRefl(m: seq<byte>, p: nat)
    requires |m| == RAM_BYTES
    ensures OnlyBytesOf(m, m, p)
  {
  }

  lemma CopiedInPage(m: seq<byte>, m2: seq<byte>, m3: seq<byte>, c: nat, va: u32, p: nat, l: nat)
    requires |m| == |m2| == |m3| == RAM_BYTES && c < FRAMES && p < FRAMES && l < PAGE
    requires Copied(m2, m3, c, va, PAGE * p, l)
    requires forall i: nat :: i < l ==> SourceByte(m2, c, va, i) == SourceByte(m, c, va, i)
    ensures OnlyBytesOf(m2, m3, p) && StringAt(m, c, va, l, m3, PAGE * p)
  {
    hide SourceByte;
  }

  /** After the copy the structure is as it was when the page had been mapped in. */
  lemma StructureAfterCopy(m: seq<byte>, m2: seq<byte>, m3: seq<byte>, live: Extents, c: nat, p: nat)
    requires |m| == |m2| == |m3| == RAM_BYTES && c < FRAMES && p < FRAMES && Chunk(m2, live, c)
    requires DirOf(m2, c) == DirOf(m, c) && ChunkFrames(m2, c) == ChunkFrames(m, c) && ClearOf(m, c, PAGE * p, PAGE)
    requires OnlyBytesOf(m2, m3, p)
    ensures Chunk(m3, live, c) && DirOf(m3, c) == DirOf(m, c) && EntryTable(m3, c, p) == EntryTable(m, c, p)
  {
    hide View, Chunk, DirOf, Tab;
    OnlyBytesKeep(m2, m3, live, c, p);
    assert ChunkFrames(m3, c)[p / ENTRIES + 1] == EntryTable(m3, c, p)
      && ChunkFrames(m, c)[p / ENTRIES + 1] == EntryTable(m, c, p);
  }

  lemma StringSurvives(m: seq<byte>, m3: seq<byte>, m4: seq<byte>, c: nat, va: u32, p: nat, l: nat, v: u32)
    requires |m| == |m3| == |m4| == RAM_BYTES && c < FRAMES && p < FRAMES && l < PAGE && ClearOf(m, c, PAGE * p, PAGE)
    requires StringAt(m, c, va, l, m3, PAGE * p) && WordWritten(m3, m4, EntryTable(m, c, p), p % ENTRIES, v)
    ensures StringAt(m, c, va, l, m4, PAGE * p)
  {
    hide SourceByte, Word, FrameOf, Tab, OnlyFrame;
    var t := EntryTable(m, c, p);
    assert ChunkFrames(m, c)[p / ENTRIES + 1] == t;
    assert PAGE * t + PAGE <= PAGE * p || PAGE * p + PAGE <= PAGE * t;
  }

  /** Page p is mapped to itself in chunk c; m was the memory before. */
  ghost predicate SplicedIn(m: seq<byte>, m': seq<byte>, live: Extents, c: nat, p: nat) {
    && |m| == |m'| == RAM_BYTES && c < FRAMES && p < FRAMES
    && Chunk(m', live, c) && DirOf(m', c) == DirOf(m, c) && ChunkFrames(m', c) == ChunkFrames(m, c)
    && SplicedOnly(m, m', c, p) && View(m', c)[p] == PAGE * p + USER_WRITE
  }

  /** The effect of `paging_map` of page p onto itself. */
  lemma MappedIn(m: seq<byte>, m': seq<byte>, live: Extents, c: nat, p: nat)
    requires |m| == |m'| == RAM_BYTES && c < FRAMES && p < FRAMES
    requires Chunk(m', live, c) && DirOf(m', c) == DirOf(m, c) && ChunkFrames(m', c) == ChunkFrames(m, c)
    requires var v := Or32(PAGE * p, WRITEABLE + PRESENT + ACCESS_FROM_ALL);
      && View(m', c) == View(m, c)[PAGE * p / PAGE := v]
      && WordWritten(m, m', Tab(m, DirOf(m, c), PAGE * p / PAGE / ENTRIES), PAGE * p / PAGE % ENTRIES, v)
    ensures SplicedIn(m, m', live, c, p)
  {
    hide View, Chunk, ChunkFrames, WordWritten, SplicedOnly, DirOf, Tab;
    FlagsOfSplice(p);
    assert PAGE * p / PAGE == p;
    OnlyBytesRefl(m, p);
    Spliced(m, m, m', c, p, PAGE * p + USER_WRITE);
  }

  /** `paging_get` through the directory of chunk c. */
  method GetEntry(k: Machine, c: nat, p: nat) returns (entry: u32)
    requires k.Valid() && c < FRAMES && p < FRAMES && Chunk(k.ram[..], k.heap.live, c)
    ensures entry == View(k.ram[..], c)[p]
  {
    hide View, Chunk, Directory, Flat;
    ChunkIsDirectory(k.ram[..], k.heap.live, c);
    var word := LoadWord(k, c, 0);
    entry := Get(k, word / PAGE, PAGE * p);
  }

  /** `paging_get` of the page's entry, then `paging_map` of the page onto itself. */
  method SpliceIn(k: Machine, c: nat, p: nat) returns (oldEntry: u32)
    requires k.Valid() && c < FRAMES && p < FRAMES && Chunk(k.ram[..], k.heap.live, c)
    modifies k.ram
    ensures oldEntry == View(old(k.ram[..]), c)[p] && SplicedIn(old(k.ram[..]), k.ram[..], k.heap.live, c, p)
  {
    hide View, Chunk, ChunkFrames, SplicedIn, WordWritten, OnlyTables, DirOf, Tab, Or32;
    ghost var m := k.ram[..];
    oldEntry := GetEntry(k, c, p);
    var _ := Map(k, c, PAGE * p, PAGE * p, WRITEABLE + PRESENT + ACCESS_FROM_ALL);
    MappedIn(m, k.ram[..], k.heap.live, c, p);
  }

  /** The string was copied into the spliced page. */
  ghost predicate PageFilled(m: seq<byte>, m': seq<byte>, live: Extents, c: nat, p: nat, va: u32, l: nat) {
    && |m| == |m'| == RAM_BYTES && c < FRAMES && p < FRAMES
    && (exists m2: seq<byte> :: |m2| == RAM_BYTES && SplicedOnly(m, m2, c, p) && OnlyBytesOf(m2, m', p))
    && Chunk(m', live, c) && DirOf(m', c) == DirOf(m, c) && EntryTable(m', c, p) == EntryTable(m, c, p)
    && StringAt(m, c, va, l, m', PAGE * p)
  }

  /** `strncpy` into the spliced page. */
  method FillPage(k: Machine, ghost m: seq<byte>, c: nat, p: nat, va: u32, max: nat)
    requires k.Valid() && SplicedIn(m, k.ram[..], k.heap.live, c, p) && max < PAGE
    requires ClearOf(m, c, PAGE * p, PAGE) && SourceAvoids(m, c, va, Span(max), p)
    modifies k.ram
    ensures k.Valid() && PageFilled(m, k.ram[..], k.heap.live, c, p, va, StringLength(m, c, va, Span(max) - 1))
  {
    hide View, Chunk, ChunkFrames, ClearOf, SourceAvoids, SplicedOnly, StringLength, SourceByte, Copyable, StringAt;
    ghost var m2 := k.ram[..];
    CopyableSpliced(m, m2, c, p, va, Span(max));
    StrncpyMapped(k, c, PAGE * p, va, PAGE * p, max);
    CopiedInPage(m, m2, k.ram[..], c, va, p, StringLength(m, c, va, Span(max) - 1));
    StructureAfterCopy(m, m2, k.ram[..], k.heap.live, c, p);
  }

  /** `paging_set` through the directory of chunk c. */
  method SetEntry(k: Machine, c: nat, p: nat, val: u32) returns (res: int)
    requires k.Valid() && c < FRAMES && p < FRAMES && Chunk(k.ram[..], k.heap.live, c)
    modifies k.ram
    ensures res == 0 && WordWritten(old(k.ram[..]), k.ram[..], EntryTable(old(k.ram[..]), c, p), p % ENTRIES, val)
  {
    hide View, Chunk, Directory, Flat, WordWritten;
    ChunkIsDirectory(k.ram[..], k.heap.live, c);
    var word := LoadWord(k, c, 0);
    res := Set(k, word / PAGE, PAGE * p, val);
  }

  /** `paging_set` of the old entry. */
  method SpliceOut(k: Machine, ghost m: seq<byte>, c: nat, p: nat, ghost va: u32, ghost l: nat, oldEntry: u32)
    returns (res: int)
    requires k.Valid() && PageFilled(m, k.ram[..], k.heap.live, c, p, va, l) && l < PAGE
    requires ClearOf(m, c, PAGE * p, PAGE)
    requires oldEntry == View(m, c)[p]
    modifies k.ram
    ensures res == 0 && k.Valid() && OnlyBytesOf(m, k.ram[..], p) && StringAt(m, c, va, l, k.ram[..], PAGE * p)
  {
    hide View, Chunk, ChunkFrames, ClearOf, SplicedOnly, OnlyBytesOf, StringAt, Directory, WordWritten;
    ghost var m3 := k.ram[..];
    ghost var m2: seq<byte> :| |m2| == RAM_BYTES && SplicedOnly(m, m2, c, p) && OnlyBytesOf(m2, m3, p);
    res := SetEntry(k, c, p, oldEntry);
    Restored(m, m2, m3, k.ram[..], c, p);
    StringSurvives(m, m3, k.ram[..], c, va, p, l, oldEntry);
  }

  /**
    From `paging_get` to `paging_set` of `copy_string_from_task`: page p in, copy through the task's map, old entry
    back.
  */
  method SpliceCopy(k: Machine, c: nat, p: nat, va: u32, max: nat) returns (res: int)
    requires k.Valid() && c < FRAMES && p < FRAMES && Chunk(k.ram[..], k.heap.live, c) && max < PAGE
    requires ClearOf(k.ram[..], c, PAGE * p, PAGE) && SourceAvoids(k.ram[..], c, va, Span(max), p)
    modifies k.ram
    ensures res == 0 && k.Valid() && OnlyBytesOf(old(k.ram[..]), k.ram[..], p)
    ensures StringAt(old(k.ram[..]), c, va, StringLength(old(k.ram[..]), c, va, Span(max) - 1), k.ram[..], PAGE * p)
  {
    hide View, Chunk, ClearOf, SourceAvoids, SplicedIn, StringLength, PageFilled, OnlyBytesOf, StringAt;
    ghost var m := k.ram[..];
    var oldEntry := SpliceIn(k, c, p);
    FillPage(k, m, c, p, va, max);
    res := SpliceOut(k, m, c, p, va, StringLength(m, c, va, Span(max) - 1), oldEntry);
  }

  // ---------------------------------------------------------------- the whole call

  /** The temporary page is a block that was free, so it is clear of every page structure in use. */
  lemma TemporaryPage(t: Table, live: Extents, t': Table, live': Extents, m: seq<byte>, m': seq<byte>, size: u32,
    a: u32)
    requires |m| == |m'| == RAM_BYTES && 0 < size < PAGE && Decodes(t, live) && Served(t, live, t', live', size, a)
    requires forall x :: 0 <= x < RAM_BYTES ==> m'[x] == if a <= x < a + size then 0 else m[x]
    ensures a == PAGE * NextPageFrame(t, size) && GivenPage(NextPageFrame(t, size), live, live', m, m')
  {
    hide IsFirstFit, FirstFitFrom, Mark, Decodes, StartBlock;
    BlocksForExact(size);
    assert BlocksFor(size) == 1;
    var s := (a - HEAP_ADDRESS) / PAGE;
    assert s == StartBlock(t, 1);
    assert s + 1 <= HEAP_BLOCKS;
    forall x: nat | x < RAM_BYTES && x / PAGE != NextPageFrame(t, size) ensures m'[x] == m[x] {
      assert !(a <= x < a + size);
    }
  }

  /** For no bytes it is not even taken. */
  lemma TrailingPage(t: Table, live: Extents, m: seq<byte>)
    requires |m| == RAM_BYTES && |t| == HEAP_BLOCKS && Decodes(t, live) && !LastTaken(t)
    ensures TrailingBlock(t) == PAGE * NextPageFrame(t, 0) > 0 && GivenPage(NextPageFrame(t, 0), live, live, m, m)
  {
    hide Decodes;
    TailStartIsTail(t);
    var s := TailStart(t);
    assert s < |t|;
    FreeIsUncovered(t, live, s);
    if s in live {
      LiveIsCovered(t, live, s);
    }
  }

  lemma LiveIsCovered(t: Table, live: Extents, s: nat)
    requires Decodes(t, live) && s in live
    ensures Covered(live, s)
  {
    assert IsExtent(t, s, live[s]);
    assert Covers(live, s, s);
  }

  /** Frame p was free and at most its bytes differ; giving it back leaves the allocations there were. */
  ghost predicate GivenPage(p: int, live0: Extents, live: Extents, m0: seq<byte>, m: seq<byte>) {
    && |m0| == |m| == RAM_BYTES && p >= 0 && IsHeapFrame(p) && p - HEAP_FRAME !in live0 && OnlyBytesOf(m0, m, p)
    && Grown(live0, live) && live - {p - HEAP_FRAME} == live0
       && (p - HEAP_FRAME in live || !Covered(live, p - HEAP_FRAME))
  }

  /** The page structure c after bytes of the free frame p have changed. */
  lemma FreeFrameWritten(m: seq<byte>, m': seq<byte>, live: Extents, live': Extents, c: nat, p: nat)
    requires |m| == |m'| == RAM_BYTES && c < FRAMES && Chunk(m, live, c) && Grown(live, live')
    requires IsHeapFrame(p) && p - HEAP_FRAME !in live && OnlyBytesOf(m, m', p)
    ensures ClearOf(m, c, PAGE * p, PAGE) && ClearOf(m', c, PAGE * p, PAGE)
    ensures Chunk(m', live, c) && Chunk(m', live', c)
    ensures DirOf(m', c) == DirOf(m, c) && View(m', c) == View(m, c) && ChunkFrames(m', c) == ChunkFrames(m, c)
  {
    hide View, Chunk, ChunkFrames, DirOf, OnlyBytesOf, Grown;
    NewFrameClear(m, live, c, p, PAGE);
    OnlyBytesKeep(m, m', live, c, p);
    NothingDone(live, m');
    ChunkPreserved(m', live, m', live', c);
  }

  /** A string that avoids p is the same string after bytes of frame p have changed. */
  lemma AvoidsStill(m: seq<byte>, m': seq<byte>, c: nat, va: u32, max: nat, p: nat)
    requires |m| == |m'| == RAM_BYTES && c < FRAMES && p < FRAMES && max >= 1 && OnlyBytesOf(m, m', p)
    requires SourceAvoids(m, c, va, max, p)
    requires View(m', c) == View(m, c) && ChunkFrames(m', c) == ChunkFrames(m, c)
    ensures SourceAvoids(m', c, va, max, p)
    ensures StringLength(m', c, va, max - 1) == StringLength(m, c, va, max - 1)
    ensures forall i: nat :: i < StringLength(m, c, va, max - 1) ==> SourceByte(m', c, va, i) == SourceByte(m, c, va, i)
  {
    hide View, DirOf, Tab, SourceAt, SourceByte, StringLength;
    SameString(m, m', c, va, max, p, max - 1);
    assert ChunkFrames(m', c)[p / ENTRIES + 1] == EntryTable(m', c, p)
      && ChunkFrames(m, c)[p / ENTRIES + 1] == EntryTable(m, c, p);
  }

  /** Through an identity map, an address is its own translation. */
  lemma IdentitySource(m: seq<byte>, kc: nat, a: u32, i: nat)
    requires |m| == RAM_BYTES && kc < FRAMES && IdentityFrames(m, kc) && a + i < RAM_BYTES
    ensures SourceAt(m, kc, a, i) == a + i
  {
    hide View;
    assert Advance(a, i) == a + i;
    assert View(m, kc)[(a + i) / PAGE] / PAGE == (a + i) / PAGE;
  }

  /** Read back through the kernel's map, the copied string has the length it had in the task. */
  lemma KernelStringLength(m: seq<byte>, c: nat, va: u32, n: nat, m': seq<byte>, kc: nat, d: u32)
    requires |m| == |m'| == RAM_BYTES && c < FRAMES && kc < FRAMES && IdentityFrames(m', kc) && d + n < RAM_BYTES
    requires StringAt(m, c, va, StringLength(m, c, va, n), m', d)
    ensures StringLength(m', kc, d, n) == StringLength(m, c, va, n)
    ensures forall i: nat :: i < StringLength(m, c, va, n) ==> SourceByte(m', kc, d, i) == SourceByte(m, c, va, i)
  {
    hide View, IdentityFrames;
    var l := StringLength(m, c, va, n);
    forall i: nat | i <= n ensures SourceByte(m', kc, d, i) == m'[d + i] {
      IdentitySource(m', kc, d, i);
    }
    hide SourceByte, StringLength;
    forall i: nat | i < l ensures SourceByte(m', kc, d, i) == SourceByte(m, c, va, i) != 0 {
      assert SourceByte(m', kc, d, i) == m'[d + i];
    }
    assert m'[d + l] == 0 && SourceByte(m', kc, d, l) == m'[d + l];
    LengthIs(m', kc, d, n, l);
  }

  /** From the temporary page to the caller's buffer, within the kernel's own map. */
  lemma CopyableOut(m: seq<byte>, kc: nat, phys: u32, max: nat, p: nat)
    requires |m| == RAM_BYTES && kc < FRAMES && p < FRAMES && 1 <= max < PAGE && IdentityFrames(m, kc)
    requires phys + max <= RAM_BYTES && ClearOf(m, kc, phys, max) && (phys + max <= PAGE * p || PAGE * p + PAGE <= phys)
    ensures Copyable(m, kc, phys, PAGE * p, phys, max)
  {
    hide View, IdentityFrames, ClearOf, StringLength, SourceAt;
    forall i: nat | i < max
      ensures SourceAt(m, kc, phys, i) == phys + i && SourceAt(m, kc, PAGE * p, i) == PAGE * p + i {
      IdentitySource(m, kc, phys, i);
      IdentitySource(m, kc, PAGE * p, i);
    }
  }

  /** What the call leaves: the string at phys, and every byte outside it and outside frame p as before. */
  ghost predicate StringOut(m: seq<byte>, m': seq<byte>, c: nat, va: u32, phys: u32, l: nat, p: int)
    requires |m| == |m'| == RAM_BYTES && c < FRAMES
  {
    && StringAt(m, c, va, l, m', phys)
    && forall a: nat :: a < RAM_BYTES && a / PAGE != p && !(phys <= a <= phys + l) ==> m'[a] == m[a]
  }

  lemma CopiedOut(m0: seq<byte>, m1: seq<byte>, m4: seq<byte>, m5: seq<byte>, c: nat, va: u32, kc: nat, phys: u32,
                  l: nat, p: nat)
    requires |m0| == |m1| == |m4| == |m5| == RAM_BYTES && c < FRAMES && kc < FRAMES && p < FRAMES
    requires OnlyBytesOf(m0, m1, p) && OnlyBytesOf(m1, m4, p) && Copied(m4, m5, kc, PAGE * p, phys, l)
    requires forall i: nat :: i < l ==>
        SourceByte(m4, kc, PAGE * p, i) == SourceByte(m1, c, va, i) == SourceByte(m0, c, va, i)
    ensures StringOut(m0, m5, c, va, phys, l, p)
  {
    hide SourceByte;
  }

  lemma BufferWritten(m0: seq<byte>, m4: seq<byte>, m5: seq<byte>, live: Extents, c: nat, phys: u32, max: nat, l: nat)
    requires |m0| == |m4| == |m5| == RAM_BYTES && c < FRAMES && l < max && Chunk(m4, live, c)
    requires View(m4, c) == View(m0, c) && ChunkFrames(m4, c) == ChunkFrames(m0, c) && ClearOf(m0, c, phys, max)
    requires forall a :: 0 <= a < RAM_BYTES && !(phys <= a <= phys + l) ==> m5[a] == m4[a]
    ensures Chunk(m5, live, c) && View(m5, c) == View(m0, c)
  {
    hide View, Chunk, ChunkFrames;
    assert ClearOf(m4, c, phys, max);
    ClearWriteKeeps(m4, m5, c, phys, max);
    MapKept(m4, m5, live, c);
  }

  /** The first half: the string is in the temporary page, the page structures and the rest of memory are as before. */
  ghost predicate InTemporary(p: int, live0: Extents, m0: seq<byte>, live: Extents, m: seq<byte>, c: nat, kc: nat,
                              va: u32, n: nat) {
    && c < FRAMES && kc < FRAMES && n >= 1 && GivenPage(p, live0, live, m0, m)
    && StringAt(m0, c, va, StringLength(m0, c, va, n - 1), m, PAGE * p)
    && Chunk(m, live0, c) && View(m, c) == View(m0, c) && ChunkFrames(m, c) == ChunkFrames(m0, c)
    && Chunk(m, live0, kc) && Chunk(m, live, kc) && View(m, kc) == View(m0, kc)
       && ChunkFrames(m, kc) == ChunkFrames(m0, kc)
  }

  lemma FirstHalf(p: int, live0: Extents, m0: seq<byte>, m1: seq<byte>, live: Extents, m: seq<byte>, c: nat, kc: nat,
                  va: u32, n: nat, l: nat)
    requires |m| == RAM_BYTES && c < FRAMES && kc < FRAMES && n >= 1
    requires Chunk(m0, live0, c) && Chunk(m0, live0, kc)
    requires GivenPage(p, live0, live, m0, m1) && OnlyBytesOf(m1, m, p)
    requires StringAt(m1, c, va, StringLength(m1, c, va, n - 1), m, PAGE * p)
    requires StringLength(m1, c, va, n - 1) == StringLength(m0, c, va, n - 1) == l
    requires forall i: nat :: i < l ==> SourceByte(m1, c, va, i) == SourceByte(m0, c, va, i)
    ensures InTemporary(p, live0, m0, live, m, c, kc, va, n)
  {
    hide View, Chunk, ChunkFrames, StringLength, SourceByte, Grown;
    FreeFrameWritten(m0, m, live0, live, c, p);
    FreeFrameWritten(m0, m, live0, live, kc, p);
  }

  /** `kzalloc` of the temporary page. */
  method TakeTemporary(k: Machine, max: nat) returns (tmp: u32)
    requires k.Valid() && max < PAGE
    modifies k.heap, k.heap.entries, k.ram
    ensures k.Valid() && k.heap.spill == old(k.heap.spill)
    ensures tmp == 0 <==> NoPage(old(k.heap.entries[..]), max)
    ensures tmp == 0 ==>
        k.heap.entries[..] == old(k.heap.entries[..]) && k.heap.live == old(k.heap.live) && k.ram[..] == old(k.ram[..])
    ensures tmp != 0 ==>
      && tmp == PAGE * NextPageFrame(old(k.heap.entries[..]), max)
      && GivenPage(NextPageFrame(old(k.heap.entries[..]), max), old(k.heap.live), k.heap.live, old(k.ram[..]),
         k.ram[..])
  {
    hide Decodes, Served, FreeBlocks, Fits, GivenPage, Preserved, Grown, Honest, NextPageFrame;
    ghost var t0, live0, m0 := k.heap.entries[..], k.heap.live, k.ram[..];
    if max == 0 {
      tmp := k.Kzalloc(max);
      if !LastTaken(t0) {
        TrailingPage(t0, live0, m0);
      }
    } else {
      OneBlockHonest(t0, max);
      tmp := k.Kzalloc(max);
      if tmp != 0 {
        TemporaryPage(t0, live0, k.heap.entries[..], k.heap.live, m0, k.ram[..], max, tmp);
      }
    }
  }

  /** `kzalloc` of the temporary page, and the copy into it through the task's map. */
  method CopyIn(k: Machine, c: nat, ghost kc: nat, va: u32, max: nat) returns (res: int, tmp: u32)
    requires k.Valid() && max < PAGE && c < FRAMES && kc < FRAMES
    requires Chunk(k.ram[..], k.heap.live, c) && Chunk(k.ram[..], k.heap.live, kc)
    requires !NoPage(k.heap.entries[..], max) ==>
      var p := NextPageFrame(k.heap.entries[..], max);
      0 <= p < FRAMES ==> SourceAvoids(k.ram[..], c, va, Span(max), p)
    modifies k.heap, k.heap.entries, k.ram
    ensures k.Valid() && k.heap.spill == old(k.heap.spill)
    ensures tmp == 0 <==> NoPage(old(k.heap.entries[..]), max)
    ensures tmp == 0 ==>
        res == -ENOMEM && k.heap.entries[..] == old(k.heap.entries[..]) && k.heap.live == old(k.heap.live)
          && k.ram[..] == old(k.ram[..])
    ensures tmp != 0 ==> res == 0 && tmp == PAGE * NextPageFrame(old(k.heap.entries[..]), max)
    ensures tmp != 0 ==>
      InTemporary(NextPageFrame(old(k.heap.entries[..]), max), old(k.heap.live), old(k.ram[..]), k.heap.live, k.ram[..],
        c, kc, va, Span(max))
  {
    hide View, Chunk, ChunkFrames, StringLength, SourceByte, SourceAvoids, InTemporary, Decodes, NextPageFrame, NoPage;
    hide OnlyBytesOf, Grown, StringAt;
    ghost var t0, live0, m0 := k.heap.entries[..], k.heap.live, k.ram[..];
    tmp := TakeTemporary(k, max);
    if tmp == 0 {
      return -ENOMEM, 0;
    }
    ghost var m1, n := k.ram[..], Span(max);
    ghost var p := NextPageFrame(t0, max);
    FreeFrameWritten(m0, m1, live0, k.heap.live, c, p);
    AvoidsStill(m0, m1, c, va, n, p);
    res := SpliceCopy(k, c, tmp / PAGE, va, max);
    FirstHalf(p, live0, m0, m1, k.heap.live, k.ram[..], c, kc, va, n, StringLength(m0, c, va, n - 1));
  }

  /** What the copy into the buffer leaves, before the page is given back. */
  lemma SecondHalf(p: int, live0: Extents, m0: seq<byte>, live: Extents, m: seq<byte>, m': seq<byte>, c: nat, kc: nat,
                   va: u32, phys: u32, n: nat)
    requires InTemporary(p, live0, m0, live, m, c, kc, va, n) && |m'| == RAM_BYTES
    requires IdentityFrames(m0, kc) && BufferClear(m0, c, kc, phys, n, p) && n < PAGE
    requires Copied(m, m', kc, PAGE * p, phys, StringLength(m, kc, PAGE * p, n - 1))
    ensures StringOut(m0, m', c, va, phys, StringLength(m0, c, va, n - 1), p)
    ensures Chunk(m', live0, c) && View(m', c) == View(m0, c) && Chunk(m', live0, kc) && View(m', kc) == View(m0, kc)
  {
    hide View, Chunk, ChunkFrames, StringLength, SourceByte, OnlyBytesOf, Copied, ClearOf, StringAt;
    var l := StringLength(m0, c, va, n - 1);
    KernelStringLength(m0, c, va, n - 1, m, kc, PAGE * p);
    OnlyBytesRefl(m0, p);
    CopiedOut(m0, m0, m, m', c, va, kc, phys, l, p);
    CopiedElsewhere(m, m', kc, PAGE * p, phys, l);
    BufferWritten(m0, m, m', live0, c, phys, n, l);
    BufferWritten(m0, m, m', live0, kc, phys, n, l);
  }

  lemma CopiedElsewhere(m: seq<byte>, m': seq<byte>, c: nat, va: u32, d: nat, l: nat)
    requires |m| == |m'| == RAM_BYTES && c < FRAMES && Copied(m, m', c, va, d, l)
    ensures forall a :: 0 <= a < RAM_BYTES && !(d <= a <= d + l) ==> m'[a] == m[a]
  {
  }

  /**
   `copy_string_from_task`, for max >= 0: c holds the task's page structure, kc the kernel's own. While the task's map
   is in use the kernel stack is reached through it, so it must lead there. The heap table and both address maps are
   exactly what they were; the buffer holds the task's string, cut to max - 1 bytes and terminated; no other byte
   outside the temporary page differs.
   */
  method CopyStringFromTask(k: Machine, c: nat, kc: nat, virtual: u32, phys: u32, max: nat) returns (res: int)
    requires k.Valid() && TwoMaps(k.ram[..], k.heap.live, c, kc)
    requires max < PAGE && !NoPage(k.heap.entries[..], max) ==>
      var p := NextPageFrame(k.heap.entries[..], max);
      0 <= p < FRAMES ==>
        && SourceAvoids(k.ram[..], c, virtual, Span(max), p) && BufferClear(k.ram[..], c, kc, phys, Span(max), p)
        && KernelStackMapped(k.ram[..], c)
    modifies k.heap, k.heap.entries, k.ram
    ensures k.Valid() && TwoMaps(k.ram[..], k.heap.live, c, kc) && k.heap.spill == old(k.heap.spill)
    ensures k.heap.entries[..] == old(k.heap.entries[..]) && k.heap.live == old(k.heap.live)
    ensures View(k.ram[..], c) == View(old(k.ram[..]), c) && View(k.ram[..], kc) == View(old(k.ram[..]), kc)
    ensures res == if max >= PAGE then -EINVARG else if NoPage(old(k.heap.entries[..]), max) then -ENOMEM else 0
    ensures res != 0 ==> k.ram[..] == old(k.ram[..])
    ensures res == 0 ==>
      StringOut(old(k.ram[..]), k.ram[..], c, virtual, phys, StringLength(old(k.ram[..]), c, virtual, Span(max) - 1),
                NextPageFrame(old(k.heap.entries[..]), max))
  {
    hide View, Chunk, ChunkFrames, StringLength, SourceAvoids, BufferClear, InTemporary, Decodes, NextPageFrame, NoPage;
    hide IdentityFrames, StringOut, Copyable, Copied;
    if max >= PAGE {
      return -EINVARG;
    }
    ghost var t0, live0, m0 := k.heap.entries[..], k.heap.live, k.ram[..];
    ghost var p, n := NextPageFrame(t0, max), Span(max);
    var tmp;
    res, tmp := CopyIn(k, c, kc, virtual, max);
    if tmp == 0 {
      return;
    }
    ghost var m := k.ram[..];
    ReadyToCopyOut(p, live0, m0, k.heap.live, m, c, kc, virtual, phys, n);
    StrncpyMapped(k, kc, phys, tmp, phys, max);
    SecondHalf(p, live0, m0, k.heap.live, m, k.ram[..], c, kc, virtual, phys, n);
    IdentityStill(m0, k.ram[..], kc);
    k.Kfree(tmp);
    EncodeUnique(t0, k.heap.entries[..], live0);
  }

  lemma IdentityStill(m: seq<byte>, m': seq<byte>, c: nat)
    requires |m| == |m'| == RAM_BYTES && c < FRAMES && IdentityFrames(m, c) && View(m', c) == View(m, c)
    ensures IdentityFrames(m', c)
  {
  }

  lemma ReadyToCopyOut(p: int, live0: Extents, m0: seq<byte>, live: Extents, m: seq<byte>, c: nat, kc: nat, va: u32,
                       phys: u32, n: nat)
    requires InTemporary(p, live0, m0, live, m, c, kc, va, n) && n < PAGE && 0 <= p < FRAMES
    requires IdentityFrames(m0, kc) && BufferClear(m0, c, kc, phys, n, p)
    ensures Chunk(m, live, kc) && Copyable(m, kc, phys, PAGE * p, phys, n)
    ensures p >= HEAP_FRAME && live - {p - HEAP_FRAME} == live0
    ensures (p - HEAP_FRAME in live || !Covered(live, p - HEAP_FRAME))
    ensures HEAP_ADDRESS <= PAGE * p < HEAP_ADDRESS + 0x8000_0000 && (PAGE * p - HEAP_ADDRESS) / PAGE == p - HEAP_FRAME
  {
    hide View, Chunk, ChunkFrames, StringLength, Copyable;
    FrameBlock(p);
    assert IdentityFrames(m, kc) && ClearOf(m, kc, phys, n);
    CopyableOut(m, kc, phys, n, p);
  }

  // ---------------------------------------------------------------- strings of a loaded process

  /** Address va is in the program or the stack of the process. */
  predicate OwnByte(s: Space, va: u32) {
    PROGRAM_VIRTUAL <= va < PROGRAM_VIRTUAL + PAGE * BlocksFor(s.size) || STACK_VIRTUAL_END <= va < STACK_VIRTUAL_START
  }

  /** An own byte of a process lies in one of its two allocations. */
  lemma OwnByteOwned(m: seq<byte>, live: Extents, s: Space, va: u32)
    requires Loaded(m, live, s) && OwnByte(s, va)
    ensures var f := Translate(m, s.chunk / PAGE, va) / PAGE;
      f >= HEAP_FRAME && exists b: nat :: b in WritableStarts(s) && Covers(live, b, f - HEAP_FRAME)
  {
    TranslateLoaded(m, live, s, va);
    hide Chunk, View, Translate, ChunkBlocks;
    var stack := STACK_VIRTUAL_END <= va < STACK_VIRTUAL_START;
    var base := if stack then s.stack else s.ptr;
    var o := if stack then va - STACK_VIRTUAL_END else va - PROGRAM_VIRTUAL;
    BlockOfByte(base, o);
    assert base / PAGE - HEAP_FRAME in WritableStarts(s);
    assert Covers(live, base / PAGE - HEAP_FRAME, base / PAGE + o / PAGE - HEAP_FRAME);
  }

  lemma BlockOfByte(base: nat, o: nat)
    requires base % PAGE == 0
    ensures (base + o) / PAGE == base / PAGE + o / PAGE
  {
  }

  /** The string, up to its NUL or n - 1 bytes, lies in the program and the stack of the process. */
  ghost predicate OwnString(m: seq<byte>, s: Space, va: u32, n: nat)
    requires |m| == RAM_BYTES && s.chunk / PAGE < FRAMES && n >= 1
  {
    forall i: nat :: i <= StringLength(m, s.chunk / PAGE, va, n - 1) && i < n - 1 ==> OwnByte(s, Advance(va, i))
  }

  /** Such a string avoids every free page outside the program's, as `copy_string_from_task` asks of its source. */
  lemma OwnStringAvoids(t: Table, m: seq<byte>, live: Extents, s: Space, va: u32, n: nat, p: nat)
    requires Decodes(t, live) && Loaded(m, live, s) && n >= 1 && IsHeapFrame(p) && !Held(live, p)
    requires OwnString(m, s, va, n) && !IsProgramPage(s, p)
    ensures SourceAvoids(m, s.chunk / PAGE, va, n, p)
  {
    hide Loaded, StringLength, Decodes, Elsewhere4, OwnByte, Translate;
    LoadedFacts(m, live, s);
    forall i: nat | i <= StringLength(m, s.chunk / PAGE, va, n - 1) && i < n - 1
      ensures Advance(va, i) / PAGE != p && Elsewhere4(m, s.chunk / PAGE, p, SourceAt(m, s.chunk / PAGE, va, i))
    {
      OwnByteAvoids(t, m, live, s, Advance(va, i), p);
      OwnByteInside(s, Advance(va, i));
    }
  }

  lemma OwnByteAvoids(t: Table, m: seq<byte>, live: Extents, s: Space, va: u32, p: nat)
    requires Decodes(t, live) && Loaded(m, live, s) && OwnByte(s, va) && IsHeapFrame(p) && !Held(live, p)
    ensures s.chunk / PAGE < FRAMES && Elsewhere4(m, s.chunk / PAGE, p, Translate(m, s.chunk / PAGE, va))
  {
    hide Decodes, View, Translate, Chunk, ChunkBlocks, BlocksFor, DirOf, Tab;
    var c := s.chunk / PAGE;
    OwnByteOwned(m, live, s, va);
    var f := Translate(m, c, va) / PAGE;
    var b: nat :| b in WritableStarts(s) && Covers(live, b, f - HEAP_FRAME);
    var e := EntryTable(m, c, p);
    TableBlock(m, live, c, p);
    if f == e {
      assert Covers(live, e - HEAP_FRAME, e - HEAP_FRAME);
      ExtentsDisjoint(t, live, b, e - HEAP_FRAME, f - HEAP_FRAME);
    }
  }

  lemma OwnByteInside(s: Space, va: u32)
    requires OwnByte(s, va)
    ensures IsProgramPage(s, va / PAGE) || IsStackPage(va / PAGE)
  {
  }

  lemma TableBlock(m: seq<byte>, live: Extents, c: nat, p: nat)
    requires Chunk(m, live, c) && p < FRAMES
    ensures Single(live, EntryTable(m, c, p)) && EntryTable(m, c, p) - HEAP_FRAME in ChunkBlocks(m, c)
  {
    hide BlocksOf;
    var fs := ChunkFrames(m, c);
    BlocksOfMember(fs, EntryTable(m, c, p) - HEAP_FRAME);
    assert fs[p / ENTRIES + 1] == EntryTable(m, c, p);
  }

  /** The temporary page is a free heap block. */
  lemma NextPageFree(t: Table, live: Extents, max: nat)
    requires |t| == HEAP_BLOCKS && Decodes(t, live) && !NoPage(t, max)
    ensures var p := NextPageFrame(t, max); p >= 0 && IsHeapFrame(p) && !Held(live, p)
  {
    hide FreeBlocks, Decodes;
    if max == 0 {
      TailStartIsTail(t);
      FreeIsUncovered(t, live, TailStart(t));
    } else {
      OneBlockFits(t);
      FirstFitFromIsLeast(t, 1, 0);
      assert FreeRun(t, StartBlock(t, 1), 1);
      FreeIsUncovered(t, live, StartBlock(t, 1));
    }
  }
}
