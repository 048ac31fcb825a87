/** The root directory of fat16.c: counting, loading, 8.3 names and lookup. */
module FatDirectory {
  import opened Words
  import opened DiskStream
  import opened FatChain
  import opened HeapTable
  import opened HeapRuns
  import opened Kheap

  const DELETED := 0xE5
  const MAX_PATH := 108
  const DOT := 46

  // ---------------------------------------------------------------- slots of a directory on disk

  function SlotMark(image: Image, base: int, i: nat): byte { image(base + ITEM * i) }

  function Slot(image: Image, base: int, i: nat): (s: seq<byte>)
    ensures |s| == ITEM
  {
    seq(ITEM, j => image(base + ITEM * i + j))
  }

  predicate IsLive(image: Image, base: int, i: nat) {
    SlotMark(image, base, i) != 0 && SlotMark(image, base, i) != DELETED
  }

  /** Slot n is the first whose name starts with 0: the end marker. */
  ghost predicate EndsAt(image: Image, base: int, n: nat) {
    SlotMark(image, base, n) == 0 && forall i: nat :: i < n ==> SlotMark(image, base, i) != 0
  }

  /** Slots before n that are not deleted. */
  function LiveCount(image: Image, base: int, n: nat): (r: nat)
    ensures r <= n
  {
    if n == 0 then 0 else LiveCount(image, base, n - 1) + (if SlotMark(image, base, n - 1) == DELETED then 0 else 1)
  }

  lemma {:induction false} LiveCountAll(image: Image, base: int, n: nat)
    ensures LiveCount(image, base, n) == n <==> forall i: nat :: i < n ==> SlotMark(image, base, i) != DELETED
  {
    if n > 0 {
      LiveCountAll(image, base, n - 1);
    }
  }

  lemma {:induction false} LiveCountMore(image: Image, base: int, m: nat, n: nat, j: nat)
    requires m <= j < n && SlotMark(image, base, j) != DELETED
    ensures LiveCount(image, base, n) > LiveCount(image, base, m)
  {
    if m < n - 1 && j < n - 1 {
      LiveCountMore(image, base, m, n - 1, j);
    } else {
      LiveCountGrows(image, base, m, n - 1);
    }
  }

  lemma {:induction false} LiveCountGrows(image: Image, base: int, m: nat, n: nat)
    requires m <= n
    ensures LiveCount(image, base, n) >= LiveCount(image, base, m)
  {
    if m < n {
      LiveCountGrows(image, base, m, n - 1);
    }
  }

  /** One read of the scan: the mark of slot i. */
  method ReadMark(stream: Stream, item: array<byte>, ghost base: int, ghost i: nat)
    requires item.Length == ITEM && stream.pos == base + ITEM * i && base >= 0 && base % SECTOR == 0
    modifies stream, item
    ensures stream.pos == base + ITEM * (i + 1) && item[0] == SlotMark(stream.image, base, i)
  {
    SlotAligned(base, i);
    SmallReadsFit(stream.pos);
    StreamByteFits(stream.image, stream.stack, stream.pos, ITEM, 0);
    stream.Read(item, 0, ITEM);
  }

  lemma SlotAligned(base: nat, i: nat)
    requires base % SECTOR == 0
    ensures (base + ITEM * i) % ITEM == 0
  {
    var q := base / SECTOR;
    assert base == SECTOR * q;
    DivModUnique(base + ITEM * i, ITEM, 16 * q + i, 0);
  }

  /**
   `fat16_get_total_items_for_directory`: it stops at the end marker, at slot n, with the number of slots before it
   that are not deleted. Every 32-byte read is inside a sector. Without a marker the scan would not end.
   */
  method GetTotalItems(stream: Stream, startSector: nat, ghost n: nat) returns (res: nat)
    requires EndsAt(stream.image, startSector * SECTOR, n)
    modifies stream
    ensures res == LiveCount(stream.image, startSector * SECTOR, n)
  {
    var item := new byte[ITEM];
    var i := 0;
    ghost var base, at := startSector * SECTOR, 0;
    stream.Seek(startSector * SECTOR);
    while true
      invariant 0 <= at <= n && stream.pos == base + ITEM * at && base % SECTOR == 0
      invariant i == LiveCount(stream.image, base, at)
      decreases n - at
    {
      ReadMark(stream, item, base, at);
      if item[0] == 0x00 {
        break;
      }
      at := at + 1;
      if item[0] == DELETED {
        continue;
      }
      i := i + 1;
    }
    res := i;
  }

  // ---------------------------------------------------------------- loading the root directory

  /**
    `struct fat_directory`: the items as bytes, the count that lookups go by, and where the directory and the data
    start.
  */
  class Directory {
    const addr: u32
    const items: array<byte>
    const total: nat
    const sectorPos: nat
    const endingSectorPos: nat

    constructor (addr: u32, items: array<byte>, total: nat, sectorPos: nat, endingSectorPos: nat)
      ensures this.addr == addr && this.items == items && this.total == total
      ensures this.sectorPos == sectorPos && this.endingSectorPos == endingSectorPos
    {
      this.addr, this.items, this.total := addr, items, total;
      this.sectorPos, this.endingSectorPos := sectorPos, endingSectorPos;
    }
  }

  /** The directory is the root directory of the disk, whose end marker is in slot n. */
  ghost predicate RootLoaded(dir: Directory, image: Image, h: Header, n: nat)
    reads dir.items
  {
    && dir.items.Length == h.rootEntries * ITEM
    && (forall i: nat :: i < dir.items.Length ==> dir.items[i] == image(RootSector(h) * SECTOR + i))
    && EndsAt(image, RootSector(h) * SECTOR, n) && dir.total == LiveCount(image, RootSector(h) * SECTOR, n)
    && dir.sectorPos == RootSector(h) && dir.endingSectorPos == DataSector(AsWritten, h)
  }

  /** The items, as many as the directory has slots, as bytes in a buffer. */
  method ReadItems(stream: Stream, rootDirSectorPos: nat, rootDirSize: nat) returns (items: array<byte>)
    modifies stream
    ensures fresh(items) && items.Length == rootDirSize
    ensures forall i: nat :: i < rootDirSize ==> items[i] == stream.image(rootDirSectorPos * SECTOR + i)
  {
    items := new byte[rootDirSize];
    stream.Seek(rootDirSectorPos * SECTOR);
    forall i: nat | i < rootDirSize
      ensures StreamByte(stream.image, stream.stack, stream.pos, i) == stream.image(stream.pos + i)
    {
      StreamByteFits(stream.image, stream.stack, stream.pos, rootDirSize, i);
    }
    hide StreamByte;
    stream.Read(items, 0, rootDirSize);
  }

  /** What a request leaves of the room: its blocks are gone, or nothing when it takes none or is refused. */
  lemma RoomAfterRequest(t: Table, size: u32)
    requires size <= 0xffff_f000
    ensures RoomLeft(t, t, BlocksFor(size))
    ensures BlocksFor(size) > 0 && Fits(t, BlocksFor(size)) ==>
              RoomLeft(t, Mark(t, StartBlock(t, BlocksFor(size)), BlocksFor(size)), BlocksFor(size))
  {
    forall n: nat | n >= BlocksFor(size) && Fits(t, n) ensures Fits(t, n - BlocksFor(size)) {
      var s: nat :| FreeRun(t, s, n);
      assert FreeRun(t, s, n - BlocksFor(size));
    }
    if BlocksFor(size) > 0 && Fits(t, BlocksFor(size)) {
      RoomAfterMark(t, BlocksFor(size));
    }
  }

  /** A `kzalloc`, with what it leaves of the room. */
  method TakeBuffer(k: Machine, size: u32) returns (p: u32)
    requires k.Valid() && size <= 0xffff_f000 && (size > 0 ==> Honest(k.heap.entries[..], BlocksFor(size)))
    modifies k.heap, k.heap.entries, k.ram
    ensures k.Valid() && k.heap.spill == old(k.heap.spill)
    ensures Grown(old(k.heap.live), k.heap.live) && Preserved(old(k.heap.live), old(k.ram[..]), k.ram[..])
    ensures RoomLeft(old(k.heap.entries[..]), k.heap.entries[..], BlocksFor(size))
    ensures size > 0 ==> (p != 0 <==> Fits(old(k.heap.entries[..]), BlocksFor(size)))
    ensures size == 0 || p == 0 ==> k.heap.entries[..] == old(k.heap.entries[..]) && k.heap.live == old(k.heap.live)
    ensures size > 0 && p != 0 ==>
      Served(old(k.heap.entries[..]), old(k.heap.live), k.heap.entries[..], k.heap.live, size, p)
  {
    hide Served, Honest, BlocksFor, Preserved, Grown, Decodes, Fits, RoomLeft, TrailingBlock;
    ghost var t := k.heap.entries[..];
    p := k.Kzalloc(size);
    RoomAfterRequest(t, size);
    if size > 0 && p != 0 {
      ServedTable(t, old(k.heap.live), k.heap.entries[..], k.heap.live, size, p);
    }
  }

  lemma ServedTable(t: Table, live: Extents, t': Table, live': Extents, size: u32, p: u32)
    requires 0 < size <= 0xffff_f000 && Served(t, live, t', live', size, p)
    ensures BlocksFor(size) > 0 && Fits(t, BlocksFor(size))
    ensures t' == Mark(t, StartBlock(t, BlocksFor(size)), BlocksFor(size))
  {
    BlocksForExact(size);
  }

  /**
   `fat16_get_root_directory`: the whole root directory in a new allocation of its size, or -ENOMEM and nothing when
   the heap has no run for it.
   */
  method GetRootDirectory(k: Machine, stream: Stream, h: Header, ghost n: nat) returns (res: int, dir: Directory?)
    requires k.Valid() && EndsAt(stream.image, RootSector(h) * SECTOR, n)
    requires h.rootEntries > 0 ==> Honest(k.heap.entries[..], BlocksFor(h.rootEntries * ITEM))
    modifies stream, k.heap, k.heap.entries, k.ram
    ensures k.Valid() && k.heap.spill == old(k.heap.spill)
    ensures Grown(old(k.heap.live), k.heap.live) && Preserved(old(k.heap.live), old(k.ram[..]), k.ram[..])
    ensures res == 0 || res == -ENOMEM
    ensures h.rootEntries > 0 ==> (res == 0 <==> Fits(old(k.heap.entries[..]), BlocksFor(h.rootEntries * ITEM)))
    ensures res != 0 || h.rootEntries == 0 ==>
        k.heap.entries[..] == old(k.heap.entries[..]) && k.heap.live == old(k.heap.live)
    ensures RoomLeft(old(k.heap.entries[..]), k.heap.entries[..], BlocksFor(h.rootEntries * ITEM))
    ensures res == 0 ==> dir != null && fresh(dir) && fresh(dir.items) && RootLoaded(dir, stream.image, h, n)
    ensures res == 0 && h.rootEntries > 0 ==>
      Served(old(k.heap.entries[..]), old(k.heap.live), k.heap.entries[..], k.heap.live, h.rootEntries * ITEM, dir.addr)
  {
    hide Served, Honest, BlocksFor, Preserved, Grown, LiveCount, EndsAt, Decodes, Fits, RoomLeft, RootLoaded;
    var rootDirSectorPos := h.fatCopies * h.sectorsPerFat + h.reserved;
    var rootDirSize := h.rootEntries * ITEM;
    dir := null;
    var totalItems := GetTotalItems(stream, rootDirSectorPos, n);
    var addr := TakeBuffer(k, rootDirSize);
    if addr == 0 {
      return -ENOMEM, null;
    }
    dir := ReadDirectory(stream, h, n, addr, totalItems);
    res := 0;
  }

  /** From the buffer on: the items, and the object that names them. */
  method ReadDirectory(stream: Stream, h: Header, ghost n: nat, addr: u32, totalItems: nat) returns (dir: Directory)
    requires EndsAt(stream.image, RootSector(h) * SECTOR, n)
    requires totalItems == LiveCount(stream.image, RootSector(h) * SECTOR, n)
    modifies stream
    ensures fresh(dir) && fresh(dir.items) && dir.addr == addr && RootLoaded(dir, stream.image, h, n)
  {
    hide LiveCount, EndsAt;
    var rootDirSectorPos := h.fatCopies * h.sectorsPerFat + h.reserved;
    var rootDirSize := h.rootEntries * ITEM;
    var items := ReadItems(stream, rootDirSectorPos, rootDirSize);
    dir := new Directory(addr, items, totalItems, rootDirSectorPos, rootDirSectorPos + rootDirSize / SECTOR);
  }

  // ---------------------------------------------------------------- names

  predicate Blank(b: byte) { b == 0 || b == 0x20 }

  /** The bytes before the first NUL or space. */
  function Text(s: seq<byte>): (t: seq<byte>)
    ensures |t| <= |s| && t == s[..|t|]
    ensures forall i :: 0 <= i < |t| ==> !Blank(t[i])
    ensures |t| < |s| ==> Blank(s[|t|])
  {
    if s == [] || Blank(s[0]) then [] else [s[0]] + Text(s[1..])
  }

  /** What `fat16_get_full_relative_filename` renders: both scans run on to the first blank, wherever it is. */
  function Rendered(s: seq<byte>): seq<byte>
    requires |s| == ITEM
  {
    Text(s) + (if Blank(s[8]) then [] else [DOT] + Text(s[8..]))
  }

  /** The 8.3 name of the FAT specification: eight and three bytes, each cut at padding. */
  function Name83(s: seq<byte>): seq<byte>
    requires |s| == ITEM
  {
    Text(s[..8]) + (if Blank(s[8]) then [] else [DOT] + Text(s[8..11]))
  }

  lemma TextOfPrefix(s: seq<byte>, k: nat)
    requires k < |s|
    ensures |Text(s)| >= |Text(s[..k])| && Text(s[..k]) == Text(s)[..|Text(s[..k])|]
    ensures |Text(s)| == |Text(s[..k])| <==> |Text(s[..k])| < k || Blank(s[k])
  {
    var a, b := Text(s), Text(s[..k]);
    assert forall i :: 0 <= i < |b| ==> s[i] == b[i] && !Blank(s[i]);
    assert |b| < k ==> Blank(s[..k][|b|]) && s[..k][|b|] == s[|b|];
    assert forall i :: 0 <= i < |a| ==> a[i] == s[i] && !Blank(s[i]);
  }

  /** The rendering is the 8.3 name exactly when a full name or extension is followed by a blank byte. */
  lemma RenderedExact(s: seq<byte>)
    requires |s| == ITEM
    ensures Rendered(s) == Name83(s) <==>
            && (|Text(s[..8])| < 8 || Blank(s[8]))
            && (Blank(s[8]) || |Text(s[8..11])| < 3 || Blank(s[11]))
  {
    TextOfPrefix(s, 8);
    TextOfPrefix(s[8..], 3);
    assert s[8..][..3] == s[8..11];
    if Rendered(s) == Name83(s) {
      assert |Rendered(s)| == |Name83(s)|;
    }
  }

  /** "ABCDEFGH" with extension "TXT" of an archived file comes out as "ABCDEFGHTXT.TXT". */
  lemma EightLetterNameFails(s: seq<byte>)
    requires |s| == ITEM && s[..12] == [65, 66, 67, 68, 69, 70, 71, 72, 84, 88, 84, 0x20]
    ensures |Name83(s)| == 12 && |Rendered(s)| == 15
  {
    assert !Blank(s[10]) && Blank(s[11]);
    assert forall i :: 0 <= i < 11 ==> s[i] == s[..12][i] && !Blank(s[i]);
    assert |Text(s)| == 11 && |Text(s[8..])| == 3 && |Text(s[..8])| == 8 && |Text(s[8..11])| == 3;
  }

  // ---------------------------------------------------------------- rendering and comparing, as loops

  function ItemAt(items: seq<byte>, i: nat): (s: seq<byte>)
    requires ITEM * i + ITEM <= |items|
    ensures |s| == ITEM
  {
    items[ITEM * i..ITEM * i + ITEM]
  }

  /** A blank byte ends both scans before the slot does (in DOS directories the reserved byte 12 is 0). */
  predicate Tame(s: seq<byte>)
    requires |s| == ITEM
  {
    exists j :: 8 <= j < ITEM && Blank(s[j])
  }

  lemma TameText(s: seq<byte>)
    requires |s| == ITEM && Tame(s)
    ensures |Text(s)| < ITEM && |Text(s[8..])| < ITEM - 8
  {
    var j :| 8 <= j < ITEM && Blank(s[j]);
    assert s[8..][j - 8] == s[j];
    var a, b := Text(s), Text(s[8..]);
    assert forall i :: 0 <= i < |a| ==> !Blank(s[i]) by {
      assert forall i :: 0 <= i < |a| ==> a[i] == s[i];
    }
    assert forall i :: 0 <= i < |b| ==> !Blank(s[8..][i]) by {
      assert forall i :: 0 <= i < |b| ==> b[i] == s[8..][i];
    }
  }

  /** `fat16_to_proper_string`: copies up to the first blank and moves the output cursor. */
  method ToProperString(out: array<byte>, at: nat, src: array<byte>, from: nat, ghost stop: nat) returns (next: nat)
    requires from <= stop <= src.Length && out != src
    requires |Text(src[from..stop])| < stop - from && at + |Text(src[from..stop])| < out.Length
    modifies out
    ensures next == at + |Text(src[from..stop])|
    ensures out[at..next] == Text(src[from..stop])
    ensures forall a :: 0 <= a < at || next < a < out.Length ==> out[a] == old(out[a])
    ensures out[next] == old(out[next]) || out[next] == 0
  {
    ghost var t := Text(src[from..stop]);
    var i := 0;
    while src[from + i] != 0x00 && src[from + i] != 0x20
      invariant 0 <= i <= |t|
      invariant out[at..at + i] == t[..i]
      invariant forall a :: 0 <= a < at || at + i <= a < out.Length ==> out[a] == old(out[a])
      decreases |t| - i
    {
      assert src[from..stop][i] == src[from + i];
      out[at + i] := src[from + i];
      i := i + 1;
    }
    assert i == |t| by {
      assert src[from..stop][i] == src[from + i];
    }
    if src[from + i] == 0x20 {
      out[at + i] := 0x00;
    }
    next := at + i;
  }

  /** The C string at the start of a buffer. */
  function CString(s: seq<byte>): (t: seq<byte>)
    ensures |t| <= |s| && t == s[..|t|] && 0 !in t && (|t| < |s| ==> s[|t|] == 0)
  {
    if s == [] || s[0] == 0 then [] else [s[0]] + CString(s[1..])
  }

  lemma CStringIs(s: seq<byte>, n: nat)
    requires n < |s| && s[n] == 0 && 0 !in s[..n]
    ensures CString(s) == s[..n]
  {
    var t := CString(s);
    assert forall i :: 0 <= i < |t| ==> s[i] != 0 by {
      assert forall i :: 0 <= i < |t| ==> t[i] == s[i] && t[i] in t;
    }
    assert forall i :: 0 <= i < n ==> s[i] != 0 by {
      assert forall i :: 0 <= i < n ==> s[..n][i] == s[i] && s[..n][i] in s[..n];
    }
  }

  /** `fat16_get_full_relative_filename` into a cleared buffer of 108 bytes. */
  method GetFullRelativeFilename(items: array<byte>, i: nat, out: array<byte>)
    requires ITEM * i + ITEM <= items.Length && out.Length == MAX_PATH && out != items
    requires Tame(ItemAt(items[..], i))
    modifies out
    ensures CString(out[..]) == Rendered(ItemAt(items[..], i))
    ensures |Rendered(ItemAt(items[..], i))| < MAX_PATH
  {
    hide Text, ItemAt, CString, Tame, Rendered;
    ghost var s := ItemAt(items[..], i);
    TameText(s);
    ItemParts(items, i);
    forall a | 0 <= a < out.Length {
      out[a] := 0;
    }
    var next := RenderInto(items, ITEM * i, out, s);
    assert items[..] == old(items[..]);
    NoZero(s);
    assert out[..][..next] == out[..next];
    CStringIs(out[..], next);
  }

  /** Name and extension of the slot at base, into the cleared buffer. */
  method RenderInto(items: array<byte>, base: nat, out: array<byte>, ghost s: seq<byte>) returns (next: nat)
    requires base + ITEM <= items.Length && out.Length == MAX_PATH && out != items && |s| == ITEM
    requires items[base..base + ITEM] == s && items[base + 8..base + ITEM] == s[8..] && s[8] == items[base + 8]
    requires |Text(s)| < ITEM && |Text(s[8..])| < ITEM - 8
    requires forall a :: 0 <= a < out.Length ==> out[a] == 0
    modifies out
    ensures next < MAX_PATH && out[next] == 0 && out[..next] == Rendered(s)
  {
    hide Text;
    next := ToProperString(out, 0, items, base, base + ITEM);
    assert out[..next] == Text(s) by {
      assert out[0..next] == out[..next];
    }
    if items[base + 8] != 0x00 && items[base + 8] != 0x20 {
      out[next] := DOT;
      next := AppendExtension(out, next + 1, items, base, s);
    }
  }

  lemma ItemParts(items: array<byte>, i: nat)
    requires ITEM * i + ITEM <= items.Length
    ensures var s, base := ItemAt(items[..], i), ITEM * i;
      items[base..base + ITEM] == s && items[base + 8..base + ITEM] == s[8..] && s[8] == items[base + 8]
  {
  }

  /** The second `fat16_to_proper_string`, behind the dot. */
  method AppendExtension(out: array<byte>, at: nat, items: array<byte>, base: nat, ghost s: seq<byte>)
    returns (next: nat)
    requires base + ITEM <= items.Length && out != items && |s| == ITEM && items[base + 8..base + ITEM] == s[8..]
    requires |Text(s[8..])| < ITEM - 8 && at + |Text(s[8..])| < out.Length && at > 0 && !Blank(s[8])
    requires |Text(s)| == at - 1 && out[..at - 1] == Text(s) && out[at - 1] == DOT
    modifies out
    ensures next == at + |Text(s[8..])| && out[..next] == Rendered(s)
    ensures out[next] == old(out[next]) || out[next] == 0
    ensures forall a :: next < a < out.Length ==> out[a] == old(out[a])
  {
    hide Text;
    ghost var head := out[..at];
    assert head == Text(s) + [DOT];
    next := ToProperString(out, at, items, base + 8, base + ITEM);
    assert out[..at] == head;
    assert out[..next] == out[..at] + out[at..next];
  }

  lemma NoZero(s: seq<byte>)
    requires |s| == ITEM
    ensures 0 !in Rendered(s)
  {
  }

  /** `tolower` */
  function Lower(b: byte): byte { if 65 <= b <= 90 then b + 32 else b }

  ghost predicate SameIgnoringCase(a: seq<byte>, b: seq<byte>) {
    |a| == |b| && forall i :: 0 <= i < |a| ==> Lower(a[i]) == Lower(b[i])
  }

  /** `istrncmp` of a buffer and a NUL-terminated name, both shorter than n: zero exactly for equal names up to case. */
  method Istrncmp(s1: array<byte>, name: seq<byte>, n: nat) returns (r: int)
    requires n <= s1.Length && |CString(s1[..])| < n && 0 !in name && |name| < n
    ensures r == 0 <==> SameIgnoringCase(CString(s1[..]), name)
  {
    ghost var t := CString(s1[..]);
    var s2 := name + [0];
    var i := 0;
    while i < n
      invariant 0 <= i <= n && i <= |t| && i <= |name|
      invariant forall j :: 0 <= j < i ==> Lower(t[j]) == Lower(name[j])
    {
      var u1, u2 := s1[i], s2[i];
      assert i < |t| ==> u1 == t[i] != 0;
      assert i == |t| ==> u1 == 0;
      assert i < |name| ==> u2 == name[i] != 0;
      if u1 != u2 && Lower(u1) != Lower(u2) {
        return u1 as int - u2 as int;
      }
      if u1 == 0 {
        return 0;
      }
      i := i + 1;
    }
    r := 0;
  }

  /** Slot i of the loaded directory renders to the name, ignoring case. */
  ghost predicate Matches(items: seq<byte>, i: nat, name: seq<byte>) {
    ITEM * i + ITEM <= |items| && SameIgnoringCase(Rendered(ItemAt(items, i)), name)
  }

  /** The comparison that `fat16_find_item_in_directory` makes of slot i. */
  method MatchSlot(items: array<byte>, i: nat, name: seq<byte>) returns (same: bool)
    requires ITEM * i + ITEM <= items.Length && 0 !in name && |name| < MAX_PATH && Tame(ItemAt(items[..], i))
    ensures same <==> Matches(items[..], i, name)
  {
    hide Rendered, SameIgnoringCase, ItemAt, Tame, CString;
    var tmp := new byte[MAX_PATH];
    GetFullRelativeFilename(items, i, tmp);
    var r := Istrncmp(tmp, name, MAX_PATH);
    same := r == 0;
  }

  /** How many of the first n slots have the name. */
  ghost function MatchCount(items: seq<byte>, n: nat, name: seq<byte>): (m: nat)
    ensures m <= n
  {
    if n == 0 then 0 else MatchCount(items, n - 1, name) + (if Matches(items, n - 1, name) then 1 else 0)
  }

  /** The attribute bit of a subdirectory, 0x10. */
  predicate IsSubdirectory(items: seq<byte>, i: nat)
    requires ITEM * i + ITEM <= |items|
  {
    items[ITEM * i + 11] / 16 % 2 == 1
  }

  /** None of the first n slots that has the name is a subdirectory. */
  ghost predicate FilesOnly(items: seq<byte>, n: nat, name: seq<byte>)
    requires ITEM * n <= |items|
  {
    forall i: nat :: i < n && Matches(items, i, name) ==> !IsSubdirectory(items, i)
  }

  // ---------------------------------------------------------------- what lookup finds

  ghost predicate SlotNamed(image: Image, base: int, i: nat, name: seq<byte>) {
    SameIgnoringCase(Rendered(Slot(image, base, i)), name)
  }

  /** The slot that a lookup among the first m settles on: the last that renders to the name. */
  ghost function LookedUp(image: Image, base: int, m: nat, name: seq<byte>): Option<nat> {
    if m == 0 then None
    else if SlotNamed(image, base, m - 1, name) then Some(m - 1)
    else LookedUp(image, base, m - 1, name)
  }

  lemma {:induction false} LookedUpIs(image: Image, base: int, m: nat, name: seq<byte>)
    ensures var r := LookedUp(image, base, m, name);
      && (r.None? <==> forall i: nat :: i < m ==> !SlotNamed(image, base, i, name))
      && (r.Some? ==> r.value < m && SlotNamed(image, base, r.value, name)
                      && forall i: nat :: r.value < i < m ==> !SlotNamed(image, base, i, name))
  {
    hide SlotNamed;
    if m > 0 {
      LookedUpIs(image, base, m - 1, name);
    }
  }

  /** The lookup, which visits as many slots as there are live entries, finds the name. */
  ghost predicate LookupFinds(image: Image, base: int, n: nat, name: seq<byte>) {
    LookedUp(image, base, LiveCount(image, base, n), name).Some?
  }

  /** Some live entry of the directory has the name. */
  ghost predicate EntryExists(image: Image, base: int, n: nat, name: seq<byte>) {
    exists i: nat :: i < n && IsLive(image, base, i) && SlotNamed(image, base, i, name)
  }

  /** No slot that the lookup visits is a deleted one. */
  ghost predicate NoneDeleted(image: Image, base: int, n: nat) {
    forall i: nat :: i < LiveCount(image, base, n) ==> SlotMark(image, base, i) != DELETED
  }

  lemma DeletedNameNotLive(image: Image, base: int, i: nat, j: nat)
    requires SlotMark(image, base, i) == DELETED && IsLive(image, base, j)
    ensures !SlotNamed(image, base, j, Rendered(Slot(image, base, i)))
  {
    var a, b := Slot(image, base, i), Slot(image, base, j);
    assert a[0] == DELETED && Text(a)[0] == DELETED && Rendered(a)[0] == DELETED;
    if |Text(b)| > 0 {
      assert Rendered(b)[0] == b[0];
    } else if |Rendered(b)| > 0 {
      assert Rendered(b)[0] == DOT;
    }
  }

  /**
   Lookup succeeds for exactly the names of the live entries, whatever the name, if and only if none of the slots it
   visits (as many as there are live entries) is a deleted one.
   */
  lemma LookupExact(image: Image, base: int, n: nat)
    requires EndsAt(image, base, n)
    ensures (forall name: seq<byte> :: LookupFinds(image, base, n, name) <==> EntryExists(image, base, n, name))
            <==> NoneDeleted(image, base, n)
  {
    var visited := LiveCount(image, base, n);
    if forall i: nat :: i < visited ==> SlotMark(image, base, i) != DELETED {
      LiveCountAll(image, base, visited);
      forall j: nat | visited <= j < n ensures SlotMark(image, base, j) == DELETED {
        if SlotMark(image, base, j) != DELETED {
          LiveCountMore(image, base, visited, n, j);
        }
      }
      hide LiveCount, SlotNamed;
      forall name: seq<byte> ensures LookupFinds(image, base, n, name) <==> EntryExists(image, base, n, name) {
        LookedUpIs(image, base, visited, name);
        if LookupFinds(image, base, n, name) {
          assert IsLive(image, base, LookedUp(image, base, visited, name).value);
        }
      }
    } else {
      var i: nat :| i < visited && SlotMark(image, base, i) == DELETED;
      var name := Rendered(Slot(image, base, i));
      LookedUpIs(image, base, visited, name);
      assert SlotNamed(image, base, i, name);
      assert LookupFinds(image, base, n, name);
      forall j: nat | j < n && IsLive(image, base, j) ensures !SlotNamed(image, base, j, name) {
        DeletedNameNotLive(image, base, i, j);
      }
      assert !EntryExists(image, base, n, name);
    }
  }

  // ---------------------------------------------------------------- names of the FAT specification

  /** The attribute bit 0x08 of a volume label; the parts of long names have it too. */
  predicate IsLabel(s: seq<byte>)
    requires |s| == ITEM
  {
    s[11] / 8 % 2 == 1
  }

  /** Slot i is an entry with this 8.3 name: live, no label, and named so whatever the case. */
  ghost predicate EntryNamed(image: Image, base: int, n: nat, i: nat, name: seq<byte>) {
    && i < n && IsLive(image, base, i) && !IsLabel(Slot(image, base, i))
    && SameIgnoringCase(Name83(Slot(image, base, i)), name)
  }

  /** The lookup of a name is right: it finds an entry with that name, or nothing when there is none. */
  ghost predicate LookupRight(image: Image, base: int, n: nat, name: seq<byte>) {
    match LookedUp(image, base, LiveCount(image, base, n), name)
    case Some(i) => EntryNamed(image, base, n, i, name)
    case None => forall i: nat :: !EntryNamed(image, base, n, i, name)
  }

  /**
    Slot i of the m visited is in order: not deleted, rendered as its 8.3 name, and hidden by a later file if a label.
  */
  ghost predicate SlotInOrder(image: Image, base: int, m: nat, i: nat) {
    && SlotMark(image, base, i) != DELETED && Rendered(Slot(image, base, i)) == Name83(Slot(image, base, i))
    && (IsLabel(Slot(image, base, i)) ==> Hidden(image, base, m, i))
  }

  /** A later slot that is no label has the same name. */
  ghost predicate Hidden(image: Image, base: int, m: nat, i: nat) {
    exists j: nat :: i < j < m && !IsLabel(Slot(image, base, j))
      && SlotNamed(image, base, j, Rendered(Slot(image, base, i)))
  }

  ghost predicate AllInOrder(image: Image, base: int, n: nat) {
    forall i: nat :: i < LiveCount(image, base, n) ==> SlotInOrder(image, base, LiveCount(image, base, n), i)
  }

  lemma SameCaseTrans(a: seq<byte>, b: seq<byte>, c: seq<byte>)
    requires SameIgnoringCase(a, b) && SameIgnoringCase(b, c)
    ensures SameIgnoringCase(a, c) && SameIgnoringCase(b, a)
  {
  }

  /** When none of the visited slots is deleted, they are all the live ones. */
  lemma VisitedAreLive(image: Image, base: int, n: nat, i: nat)
    requires EndsAt(image, base, n) && NoneDeleted(image, base, n)
    ensures i < n && IsLive(image, base, i) <==> i < LiveCount(image, base, n)
  {
    var visited := LiveCount(image, base, n);
    LiveCountAll(image, base, visited);
    if visited <= i < n && SlotMark(image, base, i) != DELETED {
      LiveCountMore(image, base, visited, n, i);
    }
  }

  lemma InOrderNotDeleted(image: Image, base: int, n: nat)
    requires AllInOrder(image, base, n)
    ensures NoneDeleted(image, base, n)
  {
    hide LiveCount, Rendered, Name83, IsLabel, SlotMark, Hidden, Slot;
    var m := LiveCount(image, base, n);
    forall i: nat | i < m ensures SlotMark(image, base, i) != DELETED {
      assert SlotInOrder(image, base, m, i);
    }
  }

  /** A label in order is not the last slot of its name. */
  lemma LabelNotLast(image: Image, base: int, m: nat, i: nat, name: seq<byte>)
    requires SlotInOrder(image, base, m, i) && IsLabel(Slot(image, base, i)) && SlotNamed(image, base, i, name)
    ensures exists j: nat :: i < j < m && SlotNamed(image, base, j, name)
  {
    var j: nat :| i < j < m && SlotNamed(image, base, j, Rendered(Slot(image, base, i)));
    hide Rendered, Slot, SameIgnoringCase;
    var a, b := Rendered(Slot(image, base, j)), Rendered(Slot(image, base, i));
    assert SlotNamed(image, base, j, b);
    assert SameIgnoringCase(a, b);
    assert SameIgnoringCase(b, name);
    SameCaseTrans(a, b, name);
    assert SlotNamed(image, base, j, name);
  }

  /** With all visited slots in order every lookup is right. */
  lemma InOrderIsRight(image: Image, base: int, n: nat, name: seq<byte>)
    requires EndsAt(image, base, n) && AllInOrder(image, base, n)
    ensures LookupRight(image, base, n, name)
  {
    hide LiveCount, EndsAt, Rendered, Name83, SameIgnoringCase, IsLabel, SlotMark, Slot;
    var m := LiveCount(image, base, n);
    LookedUpIs(image, base, m, name);
    InOrderNotDeleted(image, base, n);
    match LookedUp(image, base, m, name)
    case Some(i) =>
      assert SlotInOrder(image, base, m, i);
      VisitedAreLive(image, base, n, i);
      if IsLabel(Slot(image, base, i)) {
        LabelNotLast(image, base, m, i, name);
      }
    case None =>
      forall i: nat | i < n && IsLive(image, base, i) ensures !EntryNamed(image, base, n, i, name) {
        VisitedAreLive(image, base, n, i);
        assert SlotInOrder(image, base, m, i) && !SlotNamed(image, base, i, name);
      }
  }

  /** No byte of the slot is a dot. */
  predicate Dotless(s: seq<byte>) { DOT !in s }

  lemma TextDotless(s: seq<byte>)
    requires Dotless(s)
    ensures DOT !in Text(s)
  {
    assert forall i :: 0 <= i < |Text(s)| ==> Text(s)[i] == s[i] && s[i] in s;
  }

  /** Where the first dot of a name is; its length if there is none. */
  function FirstDot(s: seq<byte>): nat {
    if s == [] || s[0] == DOT then 0 else 1 + FirstDot(s[1..])
  }

  lemma {:induction false} FirstDotOf(a: seq<byte>, x: seq<byte>)
    requires DOT !in a && (x == [] || x[0] == DOT)
    ensures FirstDot(a + x) == |a|
  {
    if a == [] {
      assert a + x == x;
    } else {
      assert (a + x)[1..] == a[1..] + x && (a + x)[0] == a[0] && a[0] in a;
      FirstDotOf(a[1..], x);
    }
  }

  lemma {:induction false} SameFirstDot(s: seq<byte>, t: seq<byte>)
    requires SameIgnoringCase(s, t)
    ensures FirstDot(s) == FirstDot(t)
  {
    if s != [] {
      assert Lower(s[0]) == Lower(t[0]);
      SameFirstDot(s[1..], t[1..]);
    }
  }

  /** Names that agree up to case have their first dot at the same place. */
  lemma SameParts(a: seq<byte>, x: seq<byte>, b: seq<byte>, y: seq<byte>)
    requires DOT !in a && DOT !in b && (x == [] || x[0] == DOT) && (y == [] || y[0] == DOT)
    requires SameIgnoringCase(a + x, b + y)
    ensures |a| == |b| && |x| == |y|
  {
    FirstDotOf(a, x);
    FirstDotOf(b, y);
    SameFirstDot(a + x, b + y);
  }

  /** A rendering that some dotless slot has for its 8.3 name is the 8.3 name of its own slot. */
  lemma RenderedAs83(s: seq<byte>, r: seq<byte>)
    requires |s| == |r| == ITEM && Dotless(s) && Dotless(r) && SameIgnoringCase(Name83(r), Rendered(s))
    ensures Rendered(s) == Name83(s)
  {
    TextDotless(s);
    DotlessPart(r, 0, 8);
    TextDotless(r[..8]);
    var x := if Blank(s[8]) then [] else [DOT] + Text(s[8..]);
    var y := if Blank(r[8]) then [] else [DOT] + Text(r[8..11]);
    hide Text;
    SameParts(Text(r[..8]), y, Text(s), x);
    RenderedExact(s);
    PartLengths(s, r);
  }

  lemma DotlessPart(s: seq<byte>, i: nat, j: nat)
    requires i <= j <= |s| && Dotless(s)
    ensures Dotless(s[i..j])
  {
    assert forall k :: 0 <= k < j - i ==> s[i..j][k] == s[i + k] && s[i + k] in s;
  }

  /** What the lengths of name and extension say about running past their fields. */
  lemma PartLengths(s: seq<byte>, r: seq<byte>)
    requires |s| == |r| == ITEM
    ensures |Text(r[..8])| == |Text(s)| ==> |Text(s[..8])| < 8 || Blank(s[8])
    ensures |Text(r[8..11])| == |Text(s[8..])| ==> |Text(s[8..11])| < 3 || Blank(s[11])
    ensures Blank(s[8]) ==> Text(s[8..]) == []
    ensures Blank(r[8]) <==> Text(r[8..11]) == []
  {
    TextOfPrefix(s, 8);
    TextOfPrefix(s[8..], 3);
    assert s[8..][..3] == s[8..11];
  }

  /** The dotless case: every lookup is right exactly when all visited slots are in order. */
  lemma NamesExact(image: Image, base: int, n: nat)
    requires EndsAt(image, base, n)
    requires forall i: nat :: i < LiveCount(image, base, n) ==> Dotless(Slot(image, base, i))
    ensures (forall name: seq<byte> :: LookupRight(image, base, n, name)) <==> AllInOrder(image, base, n)
  {
    hide LiveCount, EndsAt, LookupRight, SlotInOrder;
    if AllInOrder(image, base, n) {
      forall name: seq<byte> ensures LookupRight(image, base, n, name) {
        InOrderIsRight(image, base, n, name);
      }
    }
    if forall name: seq<byte> :: LookupRight(image, base, n, name) {
      forall i: nat | i < LiveCount(image, base, n) ensures SlotInOrder(image, base, LiveCount(image, base, n), i) {
        RightIsInOrder(image, base, n, i);
      }
    }
  }

  /** A visited slot under whose own rendering the lookup is right is in order. */
  lemma RightIsInOrder(image: Image, base: int, n: nat, i: nat)
    requires EndsAt(image, base, n) && i < LiveCount(image, base, n)
    requires forall j: nat :: j < LiveCount(image, base, n) ==> Dotless(Slot(image, base, j))
    requires LookupRight(image, base, n, Rendered(Slot(image, base, i)))
    ensures SlotInOrder(image, base, LiveCount(image, base, n), i)
  {
    hide LiveCount, EndsAt, Rendered, Name83, IsLabel, Slot, Dotless;
    var m, s := LiveCount(image, base, n), Slot(image, base, i);
    LookedUpIs(image, base, m, Rendered(s));
    assert SlotNamed(image, base, i, Rendered(s));
    var j := LookedUp(image, base, m, Rendered(s)).value;
    assert EntryNamed(image, base, n, j, Rendered(s)) && j >= i;
    RenderedAs83(s, Slot(image, base, j));
    if SlotMark(image, base, i) == DELETED {
      DeletedUnnamed(image, base, i, j);
    }
  }

  /** No live slot has an 8.3 name that a deleted one renders to. */
  lemma DeletedUnnamed(image: Image, base: int, i: nat, j: nat)
    requires SlotMark(image, base, i) == DELETED && IsLive(image, base, j)
    ensures !SameIgnoringCase(Name83(Slot(image, base, j)), Rendered(Slot(image, base, i)))
  {
    var a, b := Slot(image, base, i), Slot(image, base, j);
    assert a[0] == DELETED && Text(a)[0] == DELETED && Rendered(a)[0] == DELETED;
    assert b[..8][0] == b[0];
    if |Text(b[..8])| > 0 {
      assert Name83(b)[0] == b[0];
    } else if |Name83(b)| > 0 {
      assert Name83(b)[0] == DOT;
    }
  }

  // ---------------------------------------------------------------- the loaded directory

  /** A slot of the loaded directory is the slot on the disk. */
  lemma LoadedSlot(dir: Directory, image: Image, h: Header, n: nat, i: nat)
    requires RootLoaded(dir, image, h, n) && i < h.rootEntries
    ensures ITEM * i + ITEM <= dir.items.Length && ItemAt(dir.items[..], i) == Slot(image, RootSector(h) * SECTOR, i)
  {
  }

  // ---------------------------------------------------------------- fields of an item

  /** Little-endian fields of a directory item. */
  function Field16(items: seq<byte>, at: nat): u16
    requires at + 2 <= |items|
  {
    items[at] as int + 256 * items[at + 1] as int
  }

  /** `fat16_get_first_cluster`: the two halves are or-ed, the high one unshifted. */
  function FirstCluster(how: Reading, items: seq<byte>, i: nat): nat
    requires ITEM * i + ITEM <= |items|
  {
    var high, low := Field16(items, ITEM * i + 20), Field16(items, ITEM * i + 26);
    match how
    case AsWritten => BitOr(high, low)
    case AsSpecified => high * 0x1_0000 + low
  }

  /** The code has the right first cluster exactly when the high half is zero, as it always is in FAT16. */
  lemma FirstClusterExact(items: seq<byte>, i: nat)
    requires ITEM * i + ITEM <= |items|
    ensures FirstCluster(AsWritten, items, i) == FirstCluster(AsSpecified, items, i) <==>
        Field16(items, ITEM * i + 20) == 0
  {
    hide Field16;
    PowersUsed();
    OrBound(Field16(items, ITEM * i + 20), Field16(items, ITEM * i + 26), 16);
    assert Pow2(16) == 0x1_0000 by {
      Pow2Add(8, 8);
      assert Pow2(8) == 256;
    }
  }

  /** The size field of slot i. */
  function FileSize(items: seq<byte>, i: nat): u32
    requires ITEM * i + ITEM <= |items|
  {
    Field16(items, ITEM * i + 28) + 65536 * Field16(items, ITEM * i + 30)
  }

  /** Byte j of a little-endian word. */
  function ByteOfWord(w: u32, j: nat): int {
    if j == 0 then w % 256 else if j == 1 then w / 256 % 256 else if j == 2 then w / 65536 % 256 else w / 16777216
  }

  /** Bytes 28 to 31 of the slot are the size, lowest byte first. */
  lemma FileSizeBytes(items: seq<byte>, i: nat)
    requires ITEM * i + ITEM <= |items|
    ensures forall j: nat :: j < 4 ==> items[ITEM * i + 28 + j] == ByteOfWord(FileSize(items, i), j)
  {
    var at := ITEM * i + 28;
    FourDigits(items[at], items[at + 1], items[at + 2], items[at + 3]);
  }

  lemma FourDigits(a: byte, b: byte, c: byte, d: byte)
    ensures var w := a as int + 256 * b as int + 65536 * (c as int + 256 * d as int);
      w < 0x1_0000_0000 && w % 256 == a && w / 256 % 256 == b && w / 65536 % 256 == c && w / 16777216 == d
  {
    var y := c as int + 256 * d as int;
    var x := b as int + 256 * y;
    var w := a as int + 256 * x;
    DivModUnique(w, 256, x, a);
    DivModUnique(x, 256, y, b);
    DivModUnique(y, 256, d, c);
    DivModUnique(w, 65536, y, a as int + 256 * b as int);
    DivModUnique(w, 16777216, d, a as int + 256 * b as int + 65536 * c as int);
  }

  /** The fields of an item, read in its slot alone. */
  lemma SlotFields(items: seq<byte>, i: nat)
    requires ITEM * i + ITEM <= |items|
    ensures FileSize(items, i) == FileSize(ItemAt(items, i), 0)
    ensures forall how :: FirstCluster(how, items, i) == FirstCluster(how, ItemAt(items, i), 0)
    ensures IsSubdirectory(items, i) <==> IsSubdirectory(ItemAt(items, i), 0)
  {
    hide Field16, ItemAt;
    var s := ItemAt(items, i);
    SameField(items, i, 20);
    SameField(items, i, 26);
    SameField(items, i, 28);
    SameField(items, i, 30);
    assert s[11] == items[ITEM * i + 11] by {
      ItemByte(items, i, 11);
    }
  }

  lemma ItemByte(items: seq<byte>, i: nat, j: nat)
    requires ITEM * i + ITEM <= |items| && j < ITEM
    ensures ItemAt(items, i)[j] == items[ITEM * i + j]
  {
  }

  lemma SameField(items: seq<byte>, i: nat, j: nat)
    requires ITEM * i + ITEM <= |items| && j + 2 <= ITEM
    ensures Field16(items, ITEM * i + j) == Field16(ItemAt(items, i), j)
  {
    assert ItemAt(items, i)[j] == items[ITEM * i + j] && ItemAt(items, i)[j + 1] == items[ITEM * i + j + 1];
  }
}
