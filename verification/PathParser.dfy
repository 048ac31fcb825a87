/** pparser.c: a path split into components that live in heap blocks. */
module PathParser {
  import opened Words
  import opened HeapTable
  import opened HeapRuns
  import opened Kheap
  import opened PageTables
  import opened PagingChunks
  import opened FatDirectory

  const SLASH: byte := 47
  const COLON: byte := 58
  const ZERO: byte := 48

  // ---------------------------------------------------------------- what a path means

  /** The bytes before the first slash. */
  function UpToSlash(s: seq<byte>): (c: seq<byte>)
    ensures |c| <= |s| && c == s[..|c|] && SLASH !in c && (|c| < |s| ==> s[|c|] == SLASH)
  {
    if s == [] || s[0] == SLASH then [] else [s[0]] + UpToSlash(s[1..])
  }

  /** What is left after a component and its slash. */
  function AfterPart(s: seq<byte>): (r: seq<byte>)
    ensures |r| <= |s| && (UpToSlash(s) != [] ==> |r| < |s|)
  {
    if |UpToSlash(s)| < |s| then s[|UpToSlash(s)| + 1..] else []
  }

  /** The components up to the first empty one. */
  function Components(s: seq<byte>): seq<seq<byte>>
    decreases |s|
  {
    if UpToSlash(s) == [] then [] else [UpToSlash(s)] + Components(AfterPart(s))
  }

  function Join(cs: seq<seq<byte>>): seq<byte> {
    if cs == [] then [] else if |cs| == 1 then cs[0] else cs[0] + [SLASH] + Join(cs[1..])
  }

  predicate ProperComponents(cs: seq<seq<byte>>) {
    forall i :: 0 <= i < |cs| ==> cs[i] != [] && SLASH !in cs[i]
  }

  lemma {:induction false} UpToSlashOf(c: seq<byte>, rest: seq<byte>)
    requires SLASH !in c && (rest == [] || rest[0] == SLASH)
    ensures UpToSlash(c + rest) == c
  {
    if c == [] {
      assert c + rest == rest;
    } else {
      UpToSlashOf(c[1..], rest);
      assert (c + rest)[1..] == c[1..] + rest;
      assert c[0] in c;
    }
  }

  /** Parsing undoes printing. */
  lemma {:induction false} ComponentsOfJoin(cs: seq<seq<byte>>)
    requires ProperComponents(cs)
    ensures Components(Join(cs)) == cs
  {
    if |cs| == 1 {
      UpToSlashOf(cs[0], []);
      assert cs[0] + [] == cs[0];
    } else if |cs| > 1 {
      ComponentsOfJoin(cs[1..]);
      UpToSlashOf(cs[0], [SLASH] + Join(cs[1..]));
      assert Join(cs) == cs[0] + ([SLASH] + Join(cs[1..]));
      assert AfterPart(Join(cs)) == Join(cs[1..]);
    }
  }

  /** j is s, or s up to a slash that another slash or the end of s follows, or s starts with a slash and j is empty. */
  predicate CutAtEmpty(j: seq<byte>, s: seq<byte>) {
    && |j| <= |s| && j == s[..|j|]
    && (|j| < |s| ==> s[|j|] == SLASH && (j == [] || |j| + 1 == |s| || s[|j| + 1] == SLASH))
  }

  lemma CutAfter(c: seq<byte>, j: seq<byte>, r: seq<byte>)
    requires c != [] && CutAtEmpty(j, r)
    ensures CutAtEmpty(if j == [] then c else c + [SLASH] + j, c + [SLASH] + r)
  {
    var k, s := c + [SLASH] + j, c + [SLASH] + r;
    assert s[..|k|] == k && s[..|c|] == c && s[|c|] == SLASH;
    assert forall i :: 0 <= i < |r| ==> s[|c| + 1 + i] == r[i];
  }

  lemma {:induction false} ComponentsProper(s: seq<byte>)
    ensures ProperComponents(Components(s))
    decreases |s|
  {
    var r, cs := AfterPart(s), Components(s);
    if cs != [] {
      ComponentsProper(r);
      assert cs == [UpToSlash(s)] + Components(r);
      hide Components;
      forall i | 0 <= i < |cs| ensures cs[i] != [] && SLASH !in cs[i] {
        assert i > 0 ==> cs[i] == Components(r)[i - 1];
      }
    }
  }

  /** On any text the components are proper, and printed again they are the text up to its first empty component. */
  lemma {:induction false} JoinOfComponents(s: seq<byte>)
    ensures ProperComponents(Components(s)) && CutAtEmpty(Join(Components(s)), s)
    decreases |s|
  {
    hide CutAtEmpty, ProperComponents;
    ComponentsProper(s);
    var c, r, cs := UpToSlash(s), AfterPart(s), Components(s);
    if c == [] {
      CutNone(s);
    } else {
      JoinOfComponents(r);
      assert cs == [c] + Components(r) && cs[1..] == Components(r);
      JoinNonEmpty(Components(r));
      hide Components, Join;
      if |c| < |s| {
        CutAfter(c, Join(Components(r)), r);
        assert s == c + [SLASH] + r;
      } else {
        CutWhole(s);
      }
      JoinMore(c, Components(r));
    }
  }

  lemma JoinMore(c: seq<byte>, cs: seq<seq<byte>>)
    ensures Join([c] + cs) == if cs == [] then c else c + [SLASH] + Join(cs)
  {
    assert ([c] + cs)[1..] == cs;
  }

  lemma CutNone(s: seq<byte>)
    requires UpToSlash(s) == []
    ensures CutAtEmpty([], s)
  {
  }

  lemma JoinNonEmpty(cs: seq<seq<byte>>)
    requires ProperComponents(cs)
    ensures Join(cs) == [] <==> cs == []
  {
  }

  lemma CutWhole(s: seq<byte>)
    ensures CutAtEmpty(s, s)
  {
  }

  /** `pathparser_path_valid_format` with the length test of `pathparser_parse`. */
  predicate Accepted(path: seq<byte>) {
    |path| <= MAX_PATH && |path| >= 3 && 48 <= path[0] <= 57 && path[1] == COLON && path[2] == SLASH
  }

  /** Parsing "d:/c1/.../ck" gives d and [c1, ..., ck]. */
  lemma ParsedPath(d: nat, cs: seq<seq<byte>>)
    requires d < 10 && ProperComponents(cs) && 3 + |Join(cs)| <= MAX_PATH
    ensures var path := [ZERO + d, COLON, SLASH] + Join(cs);
      Accepted(path) && path[0] - 48 == d && Components(path[3..]) == cs
  {
    var path := [ZERO + d, COLON, SLASH] + Join(cs);
    assert path[3..] == Join(cs);
    ComponentsOfJoin(cs);
  }

  // ---------------------------------------------------------------- the parsed path in memory

  class PathPart {
    const addr: u32
    const text: array<byte>
    const textAddr: u32
    var next: PathPart?

    constructor (addr: u32, text: array<byte>, textAddr: u32)
      ensures this.addr == addr && this.text == text && this.textAddr == textAddr && next == null
    {
      this.addr, this.text, this.textAddr, next := addr, text, textAddr, null;
    }
  }

  class PathRoot {
    const addr: u32
    const driveNo: int
    var first: PathPart?

    constructor (addr: u32, driveNo: int)
      ensures this.addr == addr && this.driveNo == driveNo && first == null
    {
      this.addr, this.driveNo, first := addr, driveNo, null;
    }
  }

  /** The next links spell the parts. */
  ghost predicate Linked(first: PathPart?, parts: seq<PathPart>)
    reads parts
  {
    && first == (if parts == [] then null else parts[0])
    && forall i: nat :: i < |parts| ==> parts[i].next == PartAfter(parts, i)
  }

  function PartAfter(parts: seq<PathPart>, i: nat): PathPart?
    requires i < |parts|
  {
    if i + 1 < |parts| then parts[i + 1] else null
  }

  ghost predicate DistinctParts(parts: seq<PathPart>) {
    && (forall i: nat, j: nat :: i < j < |parts| ==> parts[i] != parts[j])
    && forall i: nat :: i < |parts| ==>
         parts[i].text.Length == MAX_PATH && parts[i].addr % PAGE == 0 && parts[i].textAddr % PAGE == 0
  }

  /** The C strings in the buffers of the parts. */
  ghost function Texts(parts: seq<PathPart>): (cs: seq<seq<byte>>)
    reads set i | 0 <= i < |parts| :: parts[i].text
    ensures |cs| == |parts|
  {
    if parts == [] then [] else Texts(parts[..|parts| - 1]) + [CString(parts[|parts| - 1].text[..])]
  }

  /** Frames held by a parsed path: its root, then buffer and node of every part. */
  function PathFrames(root: nat, parts: seq<PathPart>): (fs: seq<nat>)
    ensures |fs| == 2 * |parts| + 1 && fs[0] == root
  {
    if parts == [] then [root]
    else
      var last := parts[|parts| - 1];
      PathFrames(root, parts[..|parts| - 1]) + [last.textAddr / PAGE, last.addr / PAGE]
  }

  lemma {:induction false} PathFrameAt(root: nat, parts: seq<PathPart>, i: nat, j: nat)
    requires i < |parts| && j == 2 * i + 1
    ensures PathFrames(root, parts)[j] == parts[i].textAddr / PAGE
    ensures PathFrames(root, parts)[j + 1] == parts[i].addr / PAGE
  {
    if i < |parts| - 1 {
      PathFrameAt(root, parts[..|parts| - 1], i, j);
    }
  }

  /** The copy loop of `pathparser_get_path_part`; every store is inside the 108 bytes. */
  method CopyPart(path: seq<byte>, cursor: nat) returns (buf: array<byte>, i: nat)
    requires cursor <= |path| && 0 !in path && |path| - cursor < MAX_PATH
    ensures fresh(buf) && buf.Length == MAX_PATH
    ensures i == |UpToSlash(path[cursor..])| && CString(buf[..]) == UpToSlash(path[cursor..])
  {
    ghost var rest, part := path[cursor..], UpToSlash(path[cursor..]);
    buf := new byte[MAX_PATH](_ => 0);
    i := 0;
    while cursor + i < |path| && path[cursor + i] != SLASH
      invariant 0 <= i <= |part|
      invariant buf[..i] == part[..i]
      invariant forall a :: i <= a < MAX_PATH ==> buf[a] == 0
      decreases |part| - i
    {
      assert rest[i] == path[cursor + i];
      assert i < |part|;
      buf[i] := path[cursor + i];
      i := i + 1;
    }
    assert i == |part| by {
      assert forall j :: 0 <= j < |part| ==> part[j] == rest[j] == path[cursor + j] && part[j] in part;
    }
    assert buf[..][..i] == part;
    assert 0 !in part by {
      assert forall j :: 0 <= j < |part| ==> part[j] == path[cursor + j] && path[cursor + j] in path;
    }
    CStringIs(buf[..], i);
  }

  /**
   `pathparser_get_path_part`: the next component in a fresh cleared buffer of 108 bytes, and the cursor behind its
   slash. For an empty component the buffer is given back at once and nothing is left of it.
   */
  method GetPathPart(k: Machine, path: seq<byte>, cursor: nat) returns (text: array?<byte>, addr: u32, next: nat)
    requires k.Valid() && FreeBlocks(k.heap.entries[..]) > 0
    requires cursor <= |path| && 0 !in path && |path| - cursor < MAX_PATH
    modifies k.heap, k.heap.entries, k.ram
    ensures k.Valid() && k.heap.spill == old(k.heap.spill)
    ensures cursor <= next <= |path| && path[next..] == AfterPart(path[cursor..])
    ensures text == null <==> UpToSlash(path[cursor..]) == []
    ensures text == null ==> k.heap.live == old(k.heap.live) && k.heap.entries[..] == old(k.heap.entries[..])
    ensures text != null ==>
      && fresh(text) && text.Length == MAX_PATH && CString(text[..]) == UpToSlash(path[cursor..])
      && addr % PAGE == 0 && IsHeapFrame(addr / PAGE) && addr / PAGE - HEAP_FRAME !in old(k.heap.live)
      && k.heap.live == old(k.heap.live)[addr / PAGE - HEAP_FRAME := 1]
      && FreeBlocks(k.heap.entries[..]) == FreeBlocks(old(k.heap.entries[..])) - 1
      && RoomLeft(old(k.heap.entries[..]), k.heap.entries[..], 1)
    ensures Preserved(old(k.heap.live), old(k.ram[..]), k.ram[..])
  {
    hide FreeBlocks, RoomLeft, Preserved, Held, Decodes, Cleared, OnlyFrame;
    ghost var rest := path[cursor..];
    addr := KzallocPage(k, MAX_PATH);
    var i;
    text, i := CopyPart(path, cursor);
    next := cursor + i;
    if next < |path| && path[next] == SLASH {
      next := next + 1;
    }
    if i == 0 {
      FrameBlock(addr / PAGE);
      k.Kfree(addr);
      text := null;
      TakenAndGiven(old(k.heap.live), addr / PAGE - HEAP_FRAME);
      EncodeUnique(k.heap.entries[..], old(k.heap.entries[..]), old(k.heap.live));
    }
  }

  lemma TakenAndGiven(live: Extents, b: nat)
    requires b !in live
    ensures live[b := 1] - {b} == live
  {
  }

  // ---------------------------------------------------------------- parsing

  /**
    Heap and memory since (live0, t0, m0): the frames fs were added, `used` blocks of room are gone, nothing held
    changed.
  */
  ghost predicate Took(k: Machine, live0: Extents, t0: Table, m0: seq<byte>, fs: seq<nat>)
    reads k, k.heap, k.heap.entries, k.ram
  {
    && k.Valid() && |m0| == RAM_BYTES
    && Added(live0, k.heap.live, fs)
    && FreeBlocks(t0) == FreeBlocks(k.heap.entries[..]) + |fs|
    && RoomLeft(t0, k.heap.entries[..], |fs|)
    && Preserved(live0, m0, k.ram[..])
  }

  lemma TookNothing(k: Machine)
    requires k.Valid()
    ensures Took(k, k.heap.live, k.heap.entries[..], k.ram[..], [])
  {
    hide FreeBlocks;
  }

  /** One more page-sized allocation. */
  lemma TookOne(k: Machine, live0: Extents, t0: Table, m0: seq<byte>, fs: seq<nat>,
                live: Extents, t: Table, m: seq<byte>, f: nat)
    requires k.Valid() && |m0| == |m| == RAM_BYTES && IsHeapFrame(f)
    requires Added(live0, live, fs) && FreeBlocks(t0) == FreeBlocks(t) + |fs| && RoomLeft(t0, t, |fs|)
    requires Preserved(live0, m0, m)
    requires f - HEAP_FRAME !in live && k.heap.live == live[f - HEAP_FRAME := 1]
    requires FreeBlocks(k.heap.entries[..]) == FreeBlocks(t) - 1 && RoomLeft(t, k.heap.entries[..], 1)
    requires Preserved(live, m, k.ram[..])
    ensures Took(k, live0, t0, m0, fs + [f])
  {
    hide FreeBlocks, RoomLeft, Preserved, Added;
    AddOne(live0, live, fs, f);
    RoomLeftTrans(t0, t, k.heap.entries[..], |fs|, 1);
    AddedSingle(live0, live, fs);
    PreservedTrans(live0, m0, live, m, k.ram[..]);
  }

  /** A `kzalloc` of at most a page, on top of what was taken since (live0, t0, m0). */
  method TakePage(k: Machine, size: u32, ghost live0: Extents, ghost t0: Table, ghost m0: seq<byte>, ghost fs: seq<nat>)
    returns (p: u32)
    requires Took(k, live0, t0, m0, fs) && FreeBlocks(k.heap.entries[..]) > 0 && 0 < size <= PAGE
    modifies k.heap, k.heap.entries, k.ram
    ensures k.heap.spill == old(k.heap.spill) && p % PAGE == 0
    ensures Took(k, live0, t0, m0, fs + [p / PAGE])
  {
    hide Added, FreeBlocks, RoomLeft, Preserved;
    ghost var live, t, m := k.heap.live, k.heap.entries[..], k.ram[..];
    p := KzallocPage(k, size);
    TookOne(k, live0, t0, m0, fs, live, t, m, p / PAGE);
  }

  /** `pathparser_parse_path_part`: buffer, node and the link from the part before. */
  method ParsePathPart(k: Machine, last: PathPart?, path: seq<byte>, cursor: nat,
                       ghost live0: Extents, ghost t0: Table, ghost m0: seq<byte>, ghost fs: seq<nat>)
    returns (part: PathPart?, next: nat)
    requires cursor <= |path| && 0 !in path && |path| - cursor < MAX_PATH
    requires Took(k, live0, t0, m0, fs)
    requires FreeBlocks(k.heap.entries[..]) >= if UpToSlash(path[cursor..]) == [] then 1 else 2
    modifies k.heap, k.heap.entries, k.ram, last
    ensures k.heap.spill == old(k.heap.spill)
    ensures cursor <= next <= |path| && path[next..] == AfterPart(path[cursor..])
    ensures part == null <==> UpToSlash(path[cursor..]) == []
    ensures part == null ==> Took(k, live0, t0, m0, fs) && k.heap.entries[..] == old(k.heap.entries[..])
    ensures part != null ==>
      && fresh(part) && fresh(part.text) && part.next == null
      && part.text.Length == MAX_PATH && CString(part.text[..]) == UpToSlash(path[cursor..])
      && part.addr % PAGE == 0 && part.textAddr % PAGE == 0
      && Took(k, live0, t0, m0, fs + [part.textAddr / PAGE, part.addr / PAGE])
    ensures last != null ==> last.next == if part == null then old(last.next) else part
  {
    hide Added, FreeBlocks, RoomLeft, Preserved, CString, UpToSlash, AfterPart;
    ghost var live, t, m := k.heap.live, k.heap.entries[..], k.ram[..];
    var text, textAddr;
    text, textAddr, next := GetPathPart(k, path, cursor);
    if text == null {
      TookSame(k, live0, t0, m0, fs, live, t, m);
      return null, next;
    }
    TookOne(k, live0, t0, m0, fs, live, t, m, textAddr / PAGE);
    ghost var fs1 := fs + [textAddr / PAGE];
    var addr := TakePage(k, 8, live0, t0, m0, fs1);
    assert fs1 + [addr / PAGE] == fs + [textAddr / PAGE, addr / PAGE];
    part := new PathPart(addr, text, textAddr);
    if last != null {
      last.next := part;
    }
  }

  lemma TookSame(k: Machine, live0: Extents, t0: Table, m0: seq<byte>, fs: seq<nat>, live: Extents, t: Table,
                 m: seq<byte>)
    requires k.Valid() && |m0| == |m| == RAM_BYTES
    requires Added(live0, live, fs) && FreeBlocks(t0) == FreeBlocks(t) + |fs| && RoomLeft(t0, t, |fs|)
    requires Preserved(live0, m0, m)
    requires k.heap.live == live && k.heap.entries[..] == t && Preserved(live, m, k.ram[..])
    ensures Took(k, live0, t0, m0, fs)
  {
    hide FreeBlocks, RoomLeft, Preserved, Added;
    AddedSingle(live0, live, fs);
    PreservedTrans(live0, m0, live, m, k.ram[..]);
  }

  /** One more component. */
  lemma OneMorePart(parts: seq<PathPart>, part: PathPart, s: seq<byte>)
    requires UpToSlash(s) != [] && CString(part.text[..]) == UpToSlash(s)
    ensures Texts(parts + [part]) + Components(AfterPart(s)) == Texts(parts) + Components(s)
  {
    TextsAppend(parts, part);
    NoComponent(s);
    hide UpToSlash, AfterPart, CString, Texts, Components;
    var u := [UpToSlash(s)];
    assert Texts(parts) + u + Components(AfterPart(s)) == Texts(parts) + (u + Components(AfterPart(s)));
  }

  lemma TextsAppend(parts: seq<PathPart>, part: PathPart)
    ensures Texts(parts + [part]) == Texts(parts) + [CString(part.text[..])]
  {
    hide CString;
    assert (parts + [part])[..|parts|] == parts;
  }

  lemma OneMoreFrame(root: nat, parts: seq<PathPart>, part: PathPart)
    ensures PathFrames(root, parts + [part]) == PathFrames(root, parts) + [part.textAddr / PAGE, part.addr / PAGE]
  {
    assert (parts + [part])[..|parts|] == parts;
  }

  /** The loop of `pathparser_parse`: from the first part on, one part after the other is linked to the one before. */
  method ParseRest(k: Machine, root: PathRoot, path: seq<byte>, start: nat,
                   ghost live0: Extents, ghost t0: Table, ghost m0: seq<byte>) returns (ghost parts: seq<PathPart>)
    requires 3 <= start <= |path| <= MAX_PATH && 0 !in path
    requires root.first != null && root.first.next == null && DistinctParts([root.first])
    requires Took(k, live0, t0, m0, PathFrames(root.addr / PAGE, [root.first]))
    requires root.first.text != k.ram
    requires FreeBlocks(k.heap.entries[..]) >= 2 * |Components(path[start..])| + 1
    modifies k.heap, k.heap.entries, k.ram, root.first
    ensures k.heap.spill == old(k.heap.spill)
    ensures Linked(root.first, parts) && DistinctParts(parts)
    ensures Texts(parts) == [old(CString(root.first.text[..]))] + Components(path[start..])
    ensures Took(k, live0, t0, m0, PathFrames(root.addr / PAGE, parts))
  {
    hide Added, FreeBlocks, RoomLeft, Preserved, CString, UpToSlash, AfterPart, PathFrames, Components, Texts;
    hide PartAfter;
    OnePart(root.first);
    var part: PathPart?, cursor := root.first, start;
    parts := [root.first];
    ghost var goal := Texts(parts) + Components(path[start..]);
    ghost var room := FreeBlocks(k.heap.entries[..]);
    OneText(root.first);
    while part != null
      invariant start <= cursor <= |path| && |parts| >= 1 && root.first == parts[0]
      invariant forall i: nat :: i < |parts| ==>
          (i == 0 || (fresh(parts[i]) && fresh(parts[i].text))) && parts[i].text != k.ram
      invariant part != null ==> part == parts[|parts| - 1] && Texts(parts) + Components(path[cursor..]) == goal
      invariant part == null ==> Texts(parts) == goal
      invariant part != null ==> FreeBlocks(k.heap.entries[..]) >= 2 * |Components(path[cursor..])| + 1
      invariant Linked(root.first, parts) && DistinctParts(parts)
      invariant Took(k, live0, t0, m0, PathFrames(root.addr / PAGE, parts)) && k.heap.spill == old(k.heap.spill)
      decreases |path| - cursor, if part == null then 0 else 1
    {
      NoComponent(path[cursor..]);
      ghost var rest, ps := path[cursor..], parts;
      part, cursor := ParsePathPart(k, part, path, cursor, live0, t0, m0, PathFrames(root.addr / PAGE, parts));
      if part != null {
        parts := ps + [part];
        LinkedAppend(root.first, ps, part);
        OneMorePart(ps, part, rest);
        OneMoreFrame(root.addr / PAGE, ps, part);
      }
    }
  }

  lemma LinkedAppend(first: PathPart?, ps: seq<PathPart>, part: PathPart)
    requires |ps| >= 1 && first == ps[0] && DistinctParts(ps) && part !in ps && part.next == null
    requires forall i: nat :: i < |ps| ==> ps[i].next == if i == |ps| - 1 then part else PartAfter(ps, i)
    requires part.text.Length == MAX_PATH && part.addr % PAGE == 0 && part.textAddr % PAGE == 0
    ensures Linked(first, ps + [part]) && DistinctParts(ps + [part])
  {
    var parts := ps + [part];
    forall i: nat | i < |parts| ensures parts[i].next == PartAfter(parts, i) {
      if i < |ps| {
        assert parts[i] == ps[i];
      }
    }
    forall i: nat, j: nat | i < j < |parts| ensures parts[i] != parts[j] {
      if j == |ps| {
        assert ps[i] in ps;
      }
    }
  }

  lemma OnePart(part: PathPart)
    requires part.next == null
    ensures Linked(part, [part])
  {
  }

  lemma OneText(part: PathPart)
    ensures Texts([part]) == [CString(part.text[..])]
  {
    assert [part][..0] == [];
  }

  /**
   `pathparser_parse`: for an accepted path a root with the drive number and one linked part per component, in 2 k + 1
   one-block allocations; for any other path null, and nothing happens. The source does not test its allocations, so
   the blocks must be there.
   */
  method Parse(k: Machine, path: seq<byte>) returns (root: PathRoot?, ghost parts: seq<PathPart>)
    requires k.Valid() && 0 !in path
    requires Accepted(path) ==> FreeBlocks(k.heap.entries[..]) >= 2 * |Components(path[3..])| + 2
    modifies k.heap, k.heap.entries, k.ram
    ensures k.Valid() && k.heap.spill == old(k.heap.spill)
    ensures root != null <==> Accepted(path)
    ensures root == null ==>
        k.heap.live == old(k.heap.live) && k.heap.entries[..] == old(k.heap.entries[..]) && k.ram[..] == old(k.ram[..])
    ensures root != null ==>
      && fresh(root) && root.addr % PAGE == 0 && root.driveNo == path[0] as int - 48
      && Linked(root.first, parts) && DistinctParts(parts) && Texts(parts) == Components(path[3..])
      && Took(k, old(k.heap.live), old(k.heap.entries[..]), old(k.ram[..]), PathFrames(root.addr / PAGE, parts))
  {
    hide Added, FreeBlocks, RoomLeft, Preserved, CString, UpToSlash, AfterPart, Components;
    parts := [];
    if |path| > MAX_PATH {
      return null, parts;
    }
    if !(|path| >= 3 && 48 <= path[0] <= 57 && path[1..3] == [COLON, SLASH]) {
      return null, parts;
    }
    ghost var live0, t0, m0 := k.heap.live, k.heap.entries[..], k.ram[..];
    TookNothing(k);
    var addr := TakePage(k, 8, live0, t0, m0, []);
    assert [] + [addr / PAGE] == PathFrames(addr / PAGE, []);
    hide PathFrames, Texts;
    root := new PathRoot(addr, path[0] as int - 48);
    parts := ParseParts(k, root, path, live0, t0, m0);
  }

  /** `pathparser_parse` from the first part on. */
  method ParseParts(k: Machine, root: PathRoot, path: seq<byte>, ghost live0: Extents, ghost t0: Table,
                    ghost m0: seq<byte>)
    returns (ghost parts: seq<PathPart>)
    requires 0 !in path && Accepted(path) && root.first == null
    requires Took(k, live0, t0, m0, PathFrames(root.addr / PAGE, [])) && root.addr % PAGE == 0
    requires FreeBlocks(k.heap.entries[..]) >= 2 * |Components(path[3..])| + 1
    modifies k.heap, k.heap.entries, k.ram, root
    ensures k.heap.spill == old(k.heap.spill)
    ensures Linked(root.first, parts) && DistinctParts(parts) && Texts(parts) == Components(path[3..])
    ensures Took(k, live0, t0, m0, PathFrames(root.addr / PAGE, parts))
  {
    hide Added, FreeBlocks, RoomLeft, Preserved, CString, UpToSlash, AfterPart, Components, PathFrames, Texts;
    parts := [];
    NoComponent(path[3..]);
    var part, cursor := ParsePathPart(k, null, path, 3, live0, t0, m0, PathFrames(root.addr / PAGE, []));
    NoText();
    if part == null {
      return;
    }
    root.first := part;
    OneMoreFrame(root.addr / PAGE, [], part);
    assert [] + [part] == [part];
    parts := ParseRest(k, root, path, cursor, live0, t0, m0);
  }

  lemma NoText()
    ensures Texts([]) == []
  {
  }

  lemma NoComponent(s: seq<byte>)
    ensures UpToSlash(s) == [] <==> Components(s) == []
    ensures UpToSlash(s) != [] ==> |AfterPart(s)| < |s| && Components(s) == [UpToSlash(s)] + Components(AfterPart(s))
  {
  }

  // ---------------------------------------------------------------- freeing

  /** A `kfree` of the i-th frame of a list whose frames 1 to i - 1 are gone. */
  method FreeNext(k: Machine, p: u32, ghost live: Extents, ghost fs: seq<nat>, ghost i: nat)
    requires k.Valid() && Distinct(fs) && AllSingle(live, fs) && 1 <= i < |fs|
    requires p % PAGE == 0 && p / PAGE == fs[i] && k.heap.live == live - BlocksOf(fs[1..i])
    modifies k.heap`live, k.heap.entries
    ensures k.Valid() && k.heap.live == live - BlocksOf(fs[1..i + 1])
  {
    hide BlocksOf, Cleared, Distinct;
    Elsewhere(fs, 1, i, i);
    assert Single(live, fs[i]);
    FrameBlock(fs[i]);
    k.Kfree(p);
    NextGone(live, fs, i);
  }

  /** The two `kfree` calls for one part. */
  method FreePart(k: Machine, part: PathPart, ghost live: Extents, ghost fs: seq<nat>, ghost i: nat)
    requires k.Valid() && Distinct(fs) && AllSingle(live, fs) && 1 <= i < i + 1 < |fs|
    requires part.textAddr % PAGE == 0 && part.textAddr / PAGE == fs[i]
    requires part.addr % PAGE == 0 && part.addr / PAGE == fs[i + 1] && k.heap.live == live - BlocksOf(fs[1..i])
    modifies k.heap`live, k.heap.entries
    ensures k.Valid() && k.heap.live == live - BlocksOf(fs[1..i + 2])
  {
    hide BlocksOf, Distinct, AllSingle;
    FreeNext(k, part.textAddr, live, fs, i);
    FreeNext(k, part.addr, live, fs, i + 1);
  }

  /** A `kfree` of the first frame of a list when the others are gone. */
  method FreeFirst(k: Machine, p: u32, ghost live: Extents, ghost fs: seq<nat>)
    requires k.Valid() && Distinct(fs) && AllSingle(live, fs) && fs != []
    requires p % PAGE == 0 && p / PAGE == fs[0] && k.heap.live == live - BlocksOf(fs[1..|fs|])
    modifies k.heap`live, k.heap.entries
    ensures k.Valid() && k.heap.live == live - BlocksOf(fs)
  {
    hide BlocksOf, Cleared, Distinct;
    Elsewhere(fs, 1, |fs|, 0);
    assert Single(live, fs[0]);
    FrameBlock(fs[0]);
    k.Kfree(p);
    FirstAndRest(live, fs);
  }

  /** `pathparser_free`: exactly the blocks of the parsed path are given back. */
  method Free(k: Machine, root: PathRoot, ghost parts: seq<PathPart>)
    requires k.Valid() && Linked(root.first, parts) && DistinctParts(parts) && root.addr % PAGE == 0
    requires Distinct(PathFrames(root.addr / PAGE, parts))
    requires AllSingle(k.heap.live, PathFrames(root.addr / PAGE, parts))
    modifies k.heap`live, k.heap.entries
    ensures k.Valid() && k.heap.live == old(k.heap.live) - BlocksOf(PathFrames(root.addr / PAGE, parts))
  {
    hide BlocksOf, Cleared, Distinct, PathFrames, AllSingle, Linked, DistinctParts;
    ghost var live, fs := k.heap.live, PathFrames(root.addr / PAGE, parts);
    FreeParts(k, root.first, parts, root.addr / PAGE);
    FreeFirst(k, root.addr, live, fs);
  }

  lemma PartAddresses(parts: seq<PathPart>, i: nat)
    requires DistinctParts(parts) && i < |parts|
    ensures parts[i].addr % PAGE == 0 && parts[i].textAddr % PAGE == 0
  {
  }

  /** The loop of `pathparser_free`. */
  method FreeParts(k: Machine, first: PathPart?, ghost parts: seq<PathPart>, ghost root: nat)
    requires k.Valid() && Linked(first, parts) && DistinctParts(parts)
    requires Distinct(PathFrames(root, parts)) && AllSingle(k.heap.live, PathFrames(root, parts))
    modifies k.heap`live, k.heap.entries
    ensures k.Valid() && |PathFrames(root, parts)| >= 1
    ensures k.heap.live == old(k.heap.live) - BlocksOf(PathFrames(root, parts)[1..|PathFrames(root, parts)|])
  {
    hide BlocksOf, Cleared, Distinct, PathFrames, AllSingle, Decodes, DistinctParts;
    ghost var live, fs := k.heap.live, PathFrames(root, parts);
    NoneGone(live, fs);
    var part := first;
    ghost var i: nat, gone: nat := 0, 1;
    while part != null
      invariant i <= |parts| && part == (if i < |parts| then parts[i] else null) && gone == 2 * i + 1
      invariant k.Valid() && k.heap.live == live - BlocksOf(fs[1..gone])
      decreases |parts| - i
    {
      var nextPart := part.next;
      PartAddresses(parts, i);
      PathFrameAt(root, parts, i, gone);
      FreePart(k, part, live, fs, gone);
      part := nextPart;
      i, gone := i + 1, gone + 2;
    }
    assert gone == |fs|;
  }

  lemma FirstAndRest(live: Extents, fs: seq<nat>)
    requires fs != []
    ensures live - BlocksOf(fs[1..|fs|]) - {fs[0] - HEAP_FRAME} == live - BlocksOf(fs)
  {
    hide BlocksOf;
    assert fs == [fs[0]] + fs[1..|fs|];
    BlocksOfConcat([fs[0]], fs[1..|fs|]);
    BlocksOfOne(fs[0]);
  }

  /**
   A path parsed and freed again leaves the heap table byte for byte as it was, for every path, accepted or not; in
   between k components hold exactly 2 k + 1 blocks, and the drive and the components are those of the path.
   */
  method ParseThenFree(k: Machine, path: seq<byte>) returns (ghost held: nat, ghost texts: seq<seq<byte>>)
    requires k.Valid() && 0 !in path
    requires Accepted(path) ==> FreeBlocks(k.heap.entries[..]) >= 2 * |Components(path[3..])| + 2
    modifies k.heap, k.heap.entries, k.ram
    ensures k.Valid() && k.heap.entries[..] == old(k.heap.entries[..])
    ensures Preserved(old(k.heap.live), old(k.ram[..]), k.ram[..])
    ensures Accepted(path) ==> texts == Components(path[3..]) && held == 2 * |texts| + 1
    ensures !Accepted(path) ==> held == 0 && texts == []
  {
    hide Added, FreeBlocks, RoomLeft, CString, UpToSlash, AfterPart, Components, Texts, PathFrames, BlocksOf, Accepted;
    hide Distinct, AllSingle;
    ghost var live0, t0 := k.heap.live, k.heap.entries[..];
    held, texts := 0, [];
    ghost var parts;
    var root;
    root, parts := Parse(k, path);
    if root == null {
      return;
    }
    ghost var fs := PathFrames(root.addr / PAGE, parts);
    AddedSingle(live0, k.heap.live, fs);
    DistinctCount(fs);
    held, texts := |BlocksOf(fs)|, Texts(parts);
    RemoveAdded(live0, k.heap.live, fs);
    Free(k, root, parts);
    EncodeUnique(t0, k.heap.entries[..], live0);
  }
}
