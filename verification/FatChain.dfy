/**
 The file allocation table of fat16.c: links, the chain walk, and the bytes of a chain. Each notion has two readings,
 the one the code computes and the one of the FAT specification (Microsoft FAT specification v1.03, "FAT Data
 Structure"); the lemmas say exactly when they coincide.
 */
module FatChain {
  import opened Words
  import opened DiskStream

  datatype Option<+T> = None | Some(value: T)

  type u16 = x: int | 0 <= x < 0x1_0000

  const ITEM := 32

  /** The fields of the boot sector that place FAT, root directory and data. */
  datatype Header = Header(fatCopies: nat, sectorsPerFat: nat, reserved: nat, rootEntries: u16)

  /** A mounted volume: the disk, its header, and the sectors per cluster. */
  datatype Volume = Volume(image: Image, h: Header, spc: nat) {
    predicate Valid() { spc >= 1 }
  }

  datatype Reading = AsWritten | AsSpecified

  function RootSector(h: Header): nat { h.fatCopies * h.sectorsPerFat + h.reserved }

  /** The sector where cluster 2 starts: `ending_sector_pos` drops a last root directory sector that is not full. */
  function DataSector(how: Reading, h: Header): nat {
    match how
    case AsWritten => RootSector(h) + h.rootEntries * ITEM / SECTOR
    case AsSpecified => RootSector(h) + (h.rootEntries * ITEM + SECTOR - 1) / SECTOR
  }

  /** The data area is sought where the specification puts it exactly when the root directory fills its sectors. */
  lemma DataSectorExact(h: Header)
    ensures DataSector(AsWritten, h) == DataSector(AsSpecified, h) <==> h.rootEntries % 16 == 0
    ensures h.rootEntries % 16 != 0 ==> DataSector(AsSpecified, h) == DataSector(AsWritten, h) + 1
  {
    var x := h.rootEntries;
    assert x * ITEM == 512 * (x / 16) + 32 * (x % 16);
  }

  function ClusterBytes(v: Volume): nat { v.spc * SECTOR }

  /** `fat16_cluster_to_sector`, as a byte position. */
  function ClusterPos(v: Volume, how: Reading, c: nat): int { (DataSector(how, v.h) + (c - 2) * v.spc) * SECTOR }

  /** Where a FAT entry is read: the code multiplies the table position by the entry offset. */
  function FatPos(how: Reading, reserved: nat, c: nat): int {
    match how
    case AsWritten => Signed32((reserved * SECTOR) * (c * 2) % 0x1_0000_0000)
    case AsSpecified => reserved * SECTOR + c * 2
  }

  function LittleEndian16(image: Image, pos: int): (r: nat)
    ensures r < 0x1_0000
  {
    image(pos) as int + 256 * image(pos + 1) as int
  }

  function Link(v: Volume, how: Reading, c: nat): (r: nat)
    ensures r < 0x1_0000
  {
    LittleEndian16(v.image, FatPos(how, v.h.reserved, c))
  }

  /** Link values that end a walk with an error: the five FAT12 codes and 0, against everything but 2..0xFFEF. */
  predicate Refused(how: Reading, e: nat) {
    match how
    case AsWritten => e == 0xFF8 || e == 0xFFF || e == 0xFF7 || e == 0xFF0 || e == 0xFF6 || e == 0
    case AsSpecified => !(2 <= e <= 0xFFEF)
  }

  /** k links on from cluster c; None if one of them is refused. */
  function Walk(v: Volume, how: Reading, c: nat, k: nat): Option<nat>
    decreases k
  {
    if k == 0 then Some(c)
    else if Refused(how, Link(v, how, c)) then None
    else Walk(v, how, Link(v, how, c), k - 1)
  }

  /** The walk restarted from where a shorter walk ended is the longer walk: for any table, also a cyclic one. */
  lemma {:induction false} WalkCompose(v: Volume, how: Reading, c: nat, a: nat, b: nat)
    ensures Walk(v, how, c, a + b) ==
            match Walk(v, how, c, a) { case None => None case Some(m) => Walk(v, how, m, b) }
    decreases a
  {
    if a > 0 && !Refused(how, Link(v, how, c)) {
      WalkCompose(v, how, Link(v, how, c), a - 1, b);
    }
  }

  /** A walk succeeds exactly when each of its first k links is proper. */
  lemma {:induction false} WalkSucceedsExact(v: Volume, how: Reading, c: nat, k: nat)
    ensures Walk(v, how, c, k).Some? <==>
            forall j: nat | j < k :: Walk(v, how, c, j).Some? && !Refused(how, Link(v, how, Walk(v, how, c, j).value))
    decreases k
  {
    if k > 0 {
      WalkSucceedsExact(v, how, c, k - 1);
      WalkCompose(v, how, c, k - 1, 1);
      assert Walk(v, how, c, k).Some? <==>
        Walk(v, how, c, k - 1).Some? && !Refused(how, Link(v, how, Walk(v, how, c, k - 1).value));
    }
  }

  lemma WalkPrefix(v: Volume, how: Reading, c: nat, j: nat, k: nat)
    requires j <= k && Walk(v, how, c, k).Some?
    ensures Walk(v, how, c, j).Some?
  {
    WalkCompose(v, how, c, j, k - j);
  }

  // ---------------------------------------------------------------- where the two readings coincide

  /** The two tests of a link value agree exactly on 0 and on proper values other than the five FAT12 codes. */
  lemma RefusedExact(e: nat)
    requires e < 0x1_0000
    ensures (Refused(AsWritten, e) <==> Refused(AsSpecified, e)) <==>
            e == 0 || (2 <= e <= 0xFFEF && e !in {0xFF0, 0xFF6, 0xFF7, 0xFF8, 0xFFF})
  {
  }

  /** Whatever the table holds, the code reads the right link exactly when the two positions are the same. */
  lemma LinkPositionExact(p: int, q: int)
    ensures (forall image: Image :: LittleEndian16(image, p) == LittleEndian16(image, q)) <==> p == q
  {
    if p != q {
      var image: Image := x => if x == p then 1 else 0;
      assert LittleEndian16(image, p) % 2 == 1 && LittleEndian16(image, q) % 2 == 0;
    }
  }

  /** Short of a 32-bit wrap-around the positions never coincide. */
  lemma FatPosNeverRight(reserved: nat, c: nat)
    requires reserved >= 1 && (reserved * SECTOR) * (c * 2) < 0x8000_0000
    ensures FatPos(AsWritten, reserved, c) != FatPos(AsSpecified, reserved, c)
  {
    if c > 0 {
      ProductBeatsSum(reserved * SECTOR, c * 2);
    }
  }

  lemma ProductBeatsSum(t: nat, u: nat)
    requires t >= 3 && u >= 2
    ensures t * u > t + u
  {
    assert (t - 2) * (u - 2) >= 0;
    assert (t - 2) * (u - 2) == t * u - 2 * t - 2 * u + 4;
  }

  /** On the boot disk (200 reserved sectors) the entry of cluster 2 is sought at 409600 instead of 102404. */
  lemma FatPosOnBootDisk()
    ensures FatPos(AsWritten, 200, 2) == 409600 && FatPos(AsSpecified, 200, 2) == 102404
  {
  }

  /** The two readings see one and the same link at cluster c. */
  predicate LinksAgree(v: Volume, c: nat) {
    Link(v, AsWritten, c) == Link(v, AsSpecified, c)
    && (Refused(AsWritten, Link(v, AsSpecified, c)) <==> Refused(AsSpecified, Link(v, AsSpecified, c)))
  }

  /** Where the links met on the way agree, the code walks the chain of the specification. */
  lemma {:induction false} WalksAgree(v: Volume, c: nat, k: nat)
    requires forall j: nat :: j < k && Walk(v, AsSpecified, c, j).Some? ==>
        LinksAgree(v, Walk(v, AsSpecified, c, j).value)
    ensures Walk(v, AsWritten, c, k) == Walk(v, AsSpecified, c, k)
    decreases k
  {
    if k > 0 {
      assert Walk(v, AsSpecified, c, 0) == Some(c);
      assert LinksAgree(v, c);
      var e := Link(v, AsSpecified, c);
      if !Refused(AsSpecified, e) {
        forall j: nat | j < k - 1 && Walk(v, AsSpecified, e, j).Some?
          ensures LinksAgree(v, Walk(v, AsSpecified, e, j).value) {
          assert Walk(v, AsSpecified, c, j + 1) == Walk(v, AsSpecified, e, j);
        }
        WalksAgree(v, e, k - 1);
      }
    }
  }

  // ---------------------------------------------------------------- the bytes of a chain

  /** Byte x of the chain that starts at cluster c: the clusters of the chain laid end to end. */
  predicate HasByte(v: Volume, how: Reading, c: nat, x: nat)
    requires v.Valid()
  {
    Walk(v, how, c, Quot(x, ClusterBytes(v))).Some?
  }

  function ChainByte(v: Volume, how: Reading, c: nat, x: nat): byte
    requires v.Valid() && HasByte(v, how, c, x)
  {
    v.image(ClusterPos(v, how, Walk(v, how, c, Quot(x, ClusterBytes(v))).value) + Rest(x, ClusterBytes(v)))
  }

  // ---------------------------------------------------------------- what the recursive read delivers

  /** Byte i of a read at `offset`: every round of one cluster starts at the same offset inside its own cluster. */
  function RawByte(v: Volume, how: Reading, stack: Stack, c: nat, offset: nat, i: nat): byte
    requires v.Valid() && RawHasByte(v, how, c, offset, i)
  {
    var cs := ClusterBytes(v);
    var m := Walk(v, how, c, Quot(offset, cs) + Quot(i, cs)).value;
    StreamByte(v.image, stack, ClusterPos(v, how, m) + Rest(offset, cs), Rest(i, cs))
  }

  predicate RawHasByte(v: Volume, how: Reading, c: nat, offset: nat, i: nat)
    requires v.Valid()
  {
    Walk(v, how, c, Quot(offset, ClusterBytes(v)) + Quot(i, ClusterBytes(v))).Some?
  }

  /** The request stays in its cluster and sector, or starts on their boundary. */
  predicate RequestFits(spc: nat, offset: nat, total: nat)
    requires spc >= 1
  {
    && (Rest(offset, spc * SECTOR) == 0 || Rest(offset, spc * SECTOR) + total <= spc * SECTOR)
    && (offset % SECTOR == 0 || offset % SECTOR + total <= SECTOR)
  }

  /** The cluster k links on, if there is one, does not lie before the disk, as clusters 0 and 1 may. */
  predicate OnDisk(v: Volume, how: Reading, c: nat, k: nat) {
    Walk(v, how, c, k).Some? ==> ClusterPos(v, how, Walk(v, how, c, k).value) >= 0
  }

  lemma SectorAligned(v: Volume, how: Reading, c: nat, offset: nat)
    requires v.Valid()
    ensures ClusterBytes(v) % SECTOR == 0 && ClusterPos(v, how, c) % SECTOR == 0
    ensures (ClusterPos(v, how, c) + Rest(offset, ClusterBytes(v))) % SECTOR == offset % SECTOR
    ensures c >= 2 ==> ClusterPos(v, how, c) >= 0
  {
    hide DataSector;
    ModOfMultiple(offset, v.spc);
    TimesSector(v.spc);
    TimesSector(DataSector(how, v.h) + (c - 2) * v.spc);
    PlusSectors(DataSector(how, v.h) + (c - 2) * v.spc, Rest(offset, ClusterBytes(v)));
    if c >= 2 {
      MulMonotone(0, c - 2, v.spc);
    }
  }

  lemma TimesSector(k: int)
    ensures k * SECTOR % SECTOR == 0
  {
  }

  lemma PlusSectors(k: int, r: int)
    ensures (k * SECTOR + r) % SECTOR == r % SECTOR
  {
  }

  lemma ModOfMultiple(x: nat, n: nat)
    requires n >= 1
    ensures x % (n * SECTOR) % SECTOR == x % SECTOR
  {
    var q, r := x / (n * SECTOR), x % (n * SECTOR);
    assert x == q * (n * SECTOR) + r;
    assert q * (n * SECTOR) == (q * n) * SECTOR;
    assert x == (q * n + r / SECTOR) * SECTOR + r % SECTOR;
    DivModUnique(x, SECTOR, q * n + r / SECTOR, r % SECTOR);
  }

  lemma SplitOffset(offset: nat, i: nat, cs: nat)
    requires cs >= 1
    requires Rest(offset, cs) == 0 || Rest(offset, cs) + i < cs
    ensures Quot(offset + i, cs) == Quot(offset, cs) + Quot(i, cs)
    ensures Rest(offset + i, cs) == Rest(offset, cs) + Rest(i, cs)
  {
    QuotRest(offset, cs);
    QuotRest(i, cs);
    if Rest(offset, cs) != 0 {
      QuotUnique(i, cs, 0, i);
    }
    var q := Quot(offset, cs) + Quot(i, cs);
    assert q * cs == Quot(offset, cs) * cs + Quot(i, cs) * cs;
    QuotUnique(offset + i, cs, q, Rest(offset, cs) + Rest(i, cs));
  }

  /** A request that fits delivers the bytes of the chain that is walked. */
  lemma RawIsChain(v: Volume, how: Reading, stack: Stack, c: nat, offset: nat, total: nat, i: nat)
    requires v.Valid() && RequestFits(v.spc, offset, total) && i < total
    requires offset % SECTOR == 0 || OnDisk(v, how, c, Quot(offset, ClusterBytes(v)))
    ensures RawHasByte(v, how, c, offset, i) <==> HasByte(v, how, c, offset + i)
    ensures RawHasByte(v, how, c, offset, i) ==>
        RawByte(v, how, stack, c, offset, i) == ChainByte(v, how, c, offset + i)
  {
    var cs := ClusterBytes(v);
    SplitOffset(offset, i, cs);
    if RawHasByte(v, how, c, offset, i) {
      var k := Quot(offset, cs) + Quot(i, cs);
      if offset % SECTOR != 0 {
        SmallRequest(v, offset, total, i);
      }
      hide Walk, StreamByte, RequestFits, ClusterPos, Quot, Rest;
      StreamByteOnDisk(v, how, stack, Walk(v, how, c, k).value, offset, total, i);
    }
  }

  lemma SmallRequest(v: Volume, offset: nat, total: nat, i: nat)
    requires v.Valid() && RequestFits(v.spc, offset, total) && i < total && offset % SECTOR != 0
    ensures Quot(i, ClusterBytes(v)) == 0
  {
    QuotUnique(i, ClusterBytes(v), 0, i);
  }

  /** A request that fits reads its bytes from the disk and not from the stack. */
  lemma StreamByteOnDisk(v: Volume, how: Reading, stack: Stack, m: nat, offset: nat, total: nat, i: nat)
    requires v.Valid() && RequestFits(v.spc, offset, total) && i < total
    requires offset % SECTOR == 0 || ClusterPos(v, how, m) >= 0
    ensures var cs := ClusterBytes(v);
      var pos := ClusterPos(v, how, m) + Rest(offset, cs);
      StreamByte(v.image, stack, pos, Rest(i, cs)) == v.image(pos + Rest(i, cs))
  {
    hide StreamByte;
    var cs := ClusterBytes(v);
    SectorAligned(v, how, m, offset);
    var pos := ClusterPos(v, how, m) + Rest(offset, cs);
    if offset % SECTOR == 0 {
      StreamByteFits(v.image, stack, pos, cs, Rest(i, cs));
    } else {
      RestBelow(i, cs);
      StreamByteFits(v.image, stack, pos, total, Rest(i, cs));
    }
  }

  lemma RestBelow(x: nat, d: nat)
    requires d >= 1
    ensures Rest(x, d) <= x
  {
    QuotRest(x, d);
  }
}
