/** When the recursive read of fat16.c delivers the file: exactly, over all disks and all stack contents. */
module FatExact {
  import opened Words
  import opened DiskStream
  import opened FatChain

  const EIO := 1

  /** The result of the recursive read: the walk to the cluster of the last round must succeed. */
  function ReadResult(v: Volume, how: Reading, c: nat, offset: nat, total: nat): int
    requires v.Valid()
  {
    if RawHasByte(v, how, c, offset, if total == 0 then 0 else total - 1) then 0 else -EIO
  }

  /** The specification's chain is long enough for the request. */
  ghost predicate ChainCovers(v: Volume, c: nat, offset: nat, total: nat)
    requires v.Valid()
  {
    forall x: nat | offset <= x < offset + total :: HasByte(v, AsSpecified, c, x)
  }

  /** The read, with links and data area found as `how` says, succeeds and delivers the specification's bytes. */
  ghost predicate DeliversFile(v: Volume, how: Reading, stack: Stack, c: nat, offset: nat, total: nat)
    requires v.Valid()
  {
    && ReadResult(v, how, c, offset, total) == 0
    && forall i: nat | i < total ::
         && RawHasByte(v, how, c, offset, i) && HasByte(v, AsSpecified, c, offset + i)
         && RawByte(v, how, stack, c, offset, i) == ChainByte(v, AsSpecified, c, offset + i)
  }

  // ---------------------------------------------------------------- requests that fit

  /** The code reads right all links that a walk of k links meets. */
  ghost predicate LinksMetAgree(v: Volume, c: nat, k: nat) {
    forall j: nat :: j < k && Walk(v, AsSpecified, c, j).Some? ==> LinksAgree(v, Walk(v, AsSpecified, c, j).value)
  }

  lemma {:induction false} SpecifiedClusters(v: Volume, c: nat, k: nat)
    requires c >= 2
    ensures Walk(v, AsSpecified, c, k).Some? ==> Walk(v, AsSpecified, c, k).value >= 2
    decreases k
  {
    if k > 0 && !Refused(AsSpecified, Link(v, AsSpecified, c)) {
      SpecifiedClusters(v, Link(v, AsSpecified, c), k - 1);
    }
  }

  /** With links and data area found right, every request that fits and is covered delivers the file. */
  lemma MeantReadDelivers(v: Volume, stack: Stack, c: nat, offset: nat, total: nat)
    requires v.Valid() && c >= 2 && total > 0 && RequestFits(v.spc, offset, total) && ChainCovers(v, c, offset, total)
    ensures DeliversFile(v, AsSpecified, stack, c, offset, total)
  {
    hide Quot, Rest, RawByte, ChainByte, RequestFits;
    var k := Quot(offset, ClusterBytes(v));
    SpecifiedClusters(v, c, k);
    if Walk(v, AsSpecified, c, k).Some? {
      SectorAligned(v, AsSpecified, Walk(v, AsSpecified, c, k).value, offset);
    }
    hide Walk, ClusterPos;
    forall i: nat | i < total
      ensures RawHasByte(v, AsSpecified, c, offset, i) && HasByte(v, AsSpecified, c, offset + i)
      ensures RawByte(v, AsSpecified, stack, c, offset, i) == ChainByte(v, AsSpecified, c, offset + i)
    {
      RawIsChain(v, AsSpecified, stack, c, offset, total, i);
      assert HasByte(v, AsSpecified, c, offset + i);
    }
  }

  /** Where links and data area are as the specification has them, both readings deliver the same. */
  lemma ReadingsAgree(v: Volume, stack: Stack, c: nat, offset: nat, i: nat, last: nat)
    requires v.Valid() && v.h.rootEntries % 16 == 0
    requires Quot(offset, ClusterBytes(v)) + Quot(i, ClusterBytes(v)) <= last && LinksMetAgree(v, c, last)
    ensures RawHasByte(v, AsWritten, c, offset, i) == RawHasByte(v, AsSpecified, c, offset, i)
    ensures RawHasByte(v, AsWritten, c, offset, i) ==>
              RawByte(v, AsWritten, stack, c, offset, i) == RawByte(v, AsSpecified, stack, c, offset, i)
  {
    hide Walk, Quot, Rest, StreamByte;
    WalksAgree(v, c, Quot(offset, ClusterBytes(v)) + Quot(i, ClusterBytes(v)));
    DataSectorExact(v.h);
  }

  /** As the code stands: on a volume whose root directory fills its sectors, wherever the links met are read right. */
  lemma FittingReadDelivers(v: Volume, stack: Stack, c: nat, offset: nat, total: nat)
    requires v.Valid() && c >= 2 && total > 0 && RequestFits(v.spc, offset, total) && ChainCovers(v, c, offset, total)
    requires v.h.rootEntries % 16 == 0 && LinksMetAgree(v, c, Quot(offset + total - 1, ClusterBytes(v)))
    ensures DeliversFile(v, AsWritten, stack, c, offset, total)
  {
    hide RawByte, RawHasByte, HasByte, ChainByte, Quot, ChainCovers, LinksMetAgree;
    var cs := ClusterBytes(v);
    MeantReadDelivers(v, stack, c, offset, total);
    forall i: nat | i < total
      ensures RawHasByte(v, AsWritten, c, offset, i) == RawHasByte(v, AsSpecified, c, offset, i)
      ensures RawHasByte(v, AsWritten, c, offset, i) ==>
                RawByte(v, AsWritten, stack, c, offset, i) == RawByte(v, AsSpecified, stack, c, offset, i)
    {
      LinksOfByte(v.spc, offset, total, i);
      ReadingsAgree(v, stack, c, offset, i, Quot(offset + total - 1, cs));
    }
  }

  /** The links met for byte i are among those met for the last byte. */
  lemma LinksOfByte(spc: nat, offset: nat, total: nat, i: nat)
    requires spc >= 1 && RequestFits(spc, offset, total) && i < total
    ensures Quot(offset, spc * SECTOR) + Quot(i, spc * SECTOR) <= Quot(offset + total - 1, spc * SECTOR)
  {
    var cs := spc * SECTOR;
    SplitOffset(offset, i, cs);
    QuotMonotone(offset + i, offset + total - 1, cs);
  }

  lemma QuotMonotone(x: nat, y: nat, d: nat)
    requires d >= 1 && x <= y
    ensures Quot(x, d) <= Quot(y, d)
  {
    QuotRest(x, d);
    QuotRest(y, d);
    if Quot(x, d) > Quot(y, d) {
      MulMonotone(Quot(y, d) + 1, Quot(x, d), d);
    }
  }

  /** The request lies in the first cluster of the chain and in one sector, or starts on a sector boundary. */
  predicate FirstClusterRequest(spc: nat, offset: nat, total: nat) {
    offset + total <= spc * SECTOR && (offset % SECTOR == 0 || offset % SECTOR + total <= SECTOR)
  }

  lemma FirstClusterDelivers(v: Volume, stack: Stack, c: nat, offset: nat, total: nat)
    requires v.Valid() && c >= 2 && total > 0 && FirstClusterRequest(v.spc, offset, total) && v.h.rootEntries % 16 == 0
    ensures DeliversFile(v, AsWritten, stack, c, offset, total) && ChainCovers(v, c, offset, total)
  {
    var cs := ClusterBytes(v);
    QuotUnique(offset, cs, 0, offset);
    forall x: nat | offset <= x < offset + total ensures HasByte(v, AsSpecified, c, x) && Quot(x, cs) == 0 {
      QuotUnique(x, cs, 0, x);
    }
    FittingReadDelivers(v, stack, c, offset, total);
  }

  // ---------------------------------------------------------------- disks on which a read goes wrong

  /** A FAT that sends cluster c to d, and d, when it is another one, to the end mark 0xFFFF. */
  predicate TwoLinks(v: Volume, c: nat, d: nat) {
    Link(v, AsSpecified, c) == d && (d != c ==> Link(v, AsSpecified, d) == 0xFFFF)
  }

  /** Such a disk, on which beyond that only position q may be non-zero. */
  function LinkImage(reserved: nat, c: nat, d: nat, q: int): Image {
    var t, u := FatPos(AsSpecified, reserved, c), FatPos(AsSpecified, reserved, d);
    x => if x == t then d % 256 else if x == t + 1 then d / 256 % 256
         else if x == u || x == u + 1 then 255
         else if x == q then 1 else 0
  }

  lemma LinkImageLinks(v: Volume, c: nat, d: nat, q: int)
    requires v.image == LinkImage(v.h.reserved, c, d, q) && d < 0x1_0000
    ensures TwoLinks(v, c, d)
  {
  }

  lemma TwoLinksWalk(v: Volume, c: nat, d: nat, k: nat)
    requires TwoLinks(v, c, d) && 2 <= d <= 0xFFEF
    ensures k == 0 ==> Walk(v, AsSpecified, c, k) == Some(c)
    ensures k == 1 ==> Walk(v, AsSpecified, c, k) == Some(d)
    ensures d == c ==> Walk(v, AsSpecified, c, k) == Some(c)
  {
    if d == c {
      LoopWalk(v, c, k);
    } else if k == 1 {
      assert Walk(v, AsSpecified, d, 0) == Some(d);
    }
  }

  lemma {:induction false} LoopWalk(v: Volume, c: nat, k: nat)
    requires Link(v, AsSpecified, c) == c && 2 <= c <= 0xFFEF
    ensures Walk(v, AsSpecified, c, k) == Some(c)
    decreases k
  {
    if k > 0 {
      LoopWalk(v, c, k - 1);
    }
  }

  /** A chain of two clusters covers what lies in them; a loop covers everything. */
  lemma TwoLinksCover(v: Volume, c: nat, d: nat, offset: nat, total: nat)
    requires v.Valid() && TwoLinks(v, c, d) && 2 <= d <= 0xFFEF
    requires d == c || offset + total <= 2 * ClusterBytes(v)
    ensures ChainCovers(v, c, offset, total)
  {
    hide Walk, TwoLinks;
    var cs := ClusterBytes(v);
    forall x: nat | offset <= x < offset + total ensures HasByte(v, AsSpecified, c, x) {
      if d != c {
        QuotUnique(x, cs, if x < cs then 0 else 1, if x < cs then x else x - cs);
      }
      TwoLinksWalk(v, c, d, Quot(x, cs));
    }
  }

  lemma CodedPosEven(reserved: nat, c: nat)
    ensures FatPos(AsWritten, reserved, c) % SECTOR == 0
  {
    MultipleOfSector(reserved, c * 2);
  }

  lemma MultipleOfSector(a: nat, b: nat)
    ensures (a * SECTOR) * b == (a * b) * SECTOR
    ensures (a * b) * SECTOR % 0x1_0000_0000 % SECTOR == 0
  {
    SectorsWrapped(a * b);
  }

  lemma SectorsWrapped(n: nat)
    ensures n * SECTOR % 0x1_0000_0000 % SECTOR == 0
  {
    var q := n * SECTOR / 0x1_0000_0000;
    assert n * SECTOR % 0x1_0000_0000 == (n - 0x80_0000 * q) * SECTOR;
  }

  lemma PositionsEven(reserved: nat, c: nat)
    ensures FatPos(AsWritten, reserved, c) % 2 == 0 && FatPos(AsSpecified, reserved, c) % 2 == 0
  {
    CodedPosEven(reserved, c);
    SectorIsEven(FatPos(AsWritten, reserved, c));
    TwiceIsEven(FatPos(AsSpecified, reserved, c), 256 * reserved + c);
  }

  lemma SectorIsEven(p: int)
    requires p % SECTOR == 0
    ensures p % 2 == 0
  {
    TwiceIsEven(p, 256 * (p / SECTOR));
  }

  lemma TwiceIsEven(p: int, q: int)
    requires p == 2 * q
    ensures p % 2 == 0
  {
  }

  /** Where the code looks for the entry of c there is nothing, if it is the place of neither entry. */
  lemma CodedLinkIsZero(v: Volume, c: nat, d: nat)
    requires v.image == LinkImage(v.h.reserved, c, d, FatPos(AsSpecified, v.h.reserved, c))
    requires FatPos(AsWritten, v.h.reserved, c) != FatPos(AsSpecified, v.h.reserved, c)
    requires FatPos(AsWritten, v.h.reserved, c) != FatPos(AsSpecified, v.h.reserved, d)
    ensures Link(v, AsWritten, c) == 0
  {
    PositionsEven(v.h.reserved, c);
    PositionsEven(v.h.reserved, d);
    hide FatPos;
    var p := FatPos(AsWritten, v.h.reserved, c);
    assert v.image(p) == 0 && v.image(p + 1) == 0;
  }

  /** There the code reads link 0 and gives up, wherever it needs a link at all. */
  lemma NoLinkFollowed(v: Volume, c: nat, offset: nat, i: nat)
    requires v.Valid() && Link(v, AsWritten, c) == 0
    requires Quot(offset, ClusterBytes(v)) + Quot(i, ClusterBytes(v)) > 0
    ensures !RawHasByte(v, AsWritten, c, offset, i)
  {
    hide Link, Quot;
  }

  /**
    A geometry whose entries of c and d lie before the data of both, as on every volume with its data behind its FAT.
  */
  predicate TableBeforeData(h: Header, spc: nat, c: nat, d: nat) {
    && spc >= 1 && 2 <= c <= 0xFFEF && 2 <= d <= 0xFFEF
    && FatPos(AsSpecified, h.reserved, c) + 2 <= DataSector(AsWritten, h) * SECTOR
    && FatPos(AsSpecified, h.reserved, d) + 2 <= DataSector(AsWritten, h) * SECTOR
  }

  /** And neither entry is where the code looks for that of c. */
  predicate OrdinaryGeometry(h: Header, spc: nat, c: nat, d: nat) {
    && TableBeforeData(h, spc, c, d)
    && FatPos(AsWritten, h.reserved, c) != FatPos(AsSpecified, h.reserved, c)
    && FatPos(AsWritten, h.reserved, c) != FatPos(AsSpecified, h.reserved, d)
  }

  lemma DataBehindTable(h: Header, spc: nat, c: nat, d: nat, how: Reading, m: nat, image: Image)
    requires TableBeforeData(h, spc, c, d) && m >= 2
    ensures var p := ClusterPos(Volume(image, h, spc), how, m);
      && p >= FatPos(AsSpecified, h.reserved, c) + 2 && p >= FatPos(AsSpecified, h.reserved, d) + 2 && p >= 0
      && p % SECTOR == 0
  {
    hide FatPos, DataSector;
    DataSectorExact(h);
    SectorAligned(Volume(image, h, spc), how, m, 0);
    MulMonotone(0, m - 2, spc);
  }

  /** The first byte of a read past the end of its sector is the one behind the sector buffer. */
  lemma StackByteRead(v: Volume, how: Reading, stack: Stack, c: nat, offset: nat, m: nat)
    requires v.Valid() && Walk(v, how, c, Quot(offset, ClusterBytes(v))) == Some(m) && ClusterPos(v, how, m) >= 0
    requires offset % SECTOR != 0
    ensures var i := SECTOR - offset % SECTOR;
      RawHasByte(v, how, c, offset, i) && RawByte(v, how, stack, c, offset, i) == stack(SECTOR)
  {
    hide StreamByte, ClusterPos, Walk;
    var i := SECTOR - offset % SECTOR;
    QuotUnique(i, ClusterBytes(v), 0, i);
    SectorAligned(v, how, m, offset);
    hide Quot, Rest;
    StreamByteLeaves(v.image, stack, ClusterPos(v, how, m) + Rest(offset, ClusterBytes(v)), i);
  }

  lemma StreamByteLeaves(image: Image, stack: Stack, pos: nat, i: nat)
    requires i < SECTOR && pos % SECTOR + i >= SECTOR
    ensures StreamByte(image, stack, pos, i) == stack(pos % SECTOR + i)
  {
  }

  /** The first byte of a round past the end of its cluster is the next one on the disk. */
  lemma NextClusterRead(v: Volume, how: Reading, stack: Stack, c: nat, offset: nat, m: nat)
    requires v.Valid() && Walk(v, how, c, Quot(offset, ClusterBytes(v))) == Some(m)
    requires offset % SECTOR == 0 && Rest(offset, ClusterBytes(v)) != 0
    ensures var i := ClusterBytes(v) - Rest(offset, ClusterBytes(v));
      RawHasByte(v, how, c, offset, i)
        && RawByte(v, how, stack, c, offset, i) == v.image(ClusterPos(v, how, m) + ClusterBytes(v))
  {
    hide StreamByte, ClusterPos, Walk;
    var cs := ClusterBytes(v);
    var i := cs - Rest(offset, cs);
    QuotUnique(i, cs, 0, i);
    SectorAligned(v, how, m, offset);
    hide Quot, Rest;
    StreamByteFits(v.image, stack, ClusterPos(v, how, m) + Rest(offset, cs), cs, i);
  }

  /** A request that leaves its sector returns what lies behind the buffer. */
  lemma SectorLeftFails(v: Volume, how: Reading, c: nat, offset: nat, total: nat, m: nat) returns (stack: Stack)
    requires v.Valid() && ChainCovers(v, c, offset, total)
    requires Walk(v, how, c, Quot(offset, ClusterBytes(v))) == Some(m) && ClusterPos(v, how, m) >= 0
    requires offset % SECTOR != 0 && offset % SECTOR + total > SECTOR
    ensures !DeliversFile(v, how, stack, c, offset, total)
  {
    hide RawByte, RawHasByte, ChainByte, ReadResult, ClusterPos, Walk, Quot;
    var i := SECTOR - offset % SECTOR;
    assert HasByte(v, AsSpecified, c, offset + i);
    var wrong: byte := if ChainByte(v, AsSpecified, c, offset + i) == 0 then 1 else 0;
    stack := _ => wrong;
    StackByteRead(v, how, stack, c, offset, m);
  }

  /**
   A request that leaves its cluster from inside it runs on into the physically next cluster, which is wrong when the
   first byte there and the first byte of the chain's next cluster differ.
   */
  lemma ClusterLeftFails(v: Volume, how: Reading, stack: Stack, c: nat, offset: nat, total: nat, m: nat, next: nat)
    requires v.Valid() && Walk(v, how, c, Quot(offset, ClusterBytes(v))) == Some(m)
    requires Walk(v, AsSpecified, c, Quot(offset, ClusterBytes(v)) + 1) == Some(next)
    requires offset % SECTOR == 0 && Rest(offset, ClusterBytes(v)) != 0
    requires Rest(offset, ClusterBytes(v)) + total > ClusterBytes(v)
    requires v.image(ClusterPos(v, how, m) + ClusterBytes(v)) != v.image(ClusterPos(v, AsSpecified, next))
    ensures !DeliversFile(v, how, stack, c, offset, total)
  {
    hide StreamByte, ClusterPos, Walk;
    var cs := ClusterBytes(v);
    var i := cs - Rest(offset, cs);
    NextClusterRead(v, how, stack, c, offset, m);
    ToNextCluster(offset, cs);
    hide Quot, Rest, RawByte, RawHasByte;
    assert HasByte(v, AsSpecified, c, offset + i);
    assert ChainByte(v, AsSpecified, c, offset + i) == v.image(ClusterPos(v, AsSpecified, next));
  }

  lemma ToNextCluster(offset: nat, cs: nat)
    requires cs >= 1
    ensures var x := offset + (cs - Rest(offset, cs)); Quot(x, cs) == Quot(offset, cs) + 1 && Rest(x, cs) == 0
  {
    QuotRest(offset, cs);
    assert (Quot(offset, cs) + 1) * cs == Quot(offset, cs) * cs + cs;
    QuotUnique(offset + (cs - Rest(offset, cs)), cs, Quot(offset, cs) + 1, 0);
  }

  // ---------------------------------------------------------------- the read as it was meant

  /**
   Had the code found links and data area where the specification puts them, the recursive read over the sector
   streamer would deliver every non-empty request on every disk whose chain covers it, whatever the stack holds,
   exactly when the request fits: starts on a boundary of its cluster and sector, or stays in them.
   */
  lemma MeantReadExact(h: Header, spc: nat, c: nat, offset: nat, total: nat)
    requires TableBeforeData(h, spc, c, c) && total > 0
    ensures (forall v: Volume, stack: Stack | v.h == h && v.spc == spc && ChainCovers(v, c, offset, total) ::
               DeliversFile(v, AsSpecified, stack, c, offset, total))
            <==> RequestFits(spc, offset, total)
  {
    hide ChainCovers, DeliversFile;
    if RequestFits(spc, offset, total) {
      forall v: Volume, stack: Stack | v.h == h && v.spc == spc && ChainCovers(v, c, offset, total)
        ensures DeliversFile(v, AsSpecified, stack, c, offset, total)
      {
        MeantReadDelivers(v, stack, c, offset, total);
      }
    } else {
      var _, _ := UnfitRequestFails(h, spc, c, c, offset, total);
    }
  }

  /**
   The same over healthy volumes, on which the file has two clusters, c and then d, and d carries the end mark; d must
   not be the physically next cluster, into which a read that leaves c would rightly run on.
   */
  lemma MeantProperChainExact(h: Header, spc: nat, c: nat, d: nat, offset: nat, total: nat)
    requires TableBeforeData(h, spc, c, d) && d != c && d != c + 1 && total > 0 && offset + total <= 2 * (spc * SECTOR)
    ensures (forall v: Volume, stack: Stack | v.h == h && v.spc == spc && TwoLinks(v, c, d) ::
               DeliversFile(v, AsSpecified, stack, c, offset, total))
            <==> RequestFits(spc, offset, total)
  {
    hide ChainCovers, DeliversFile, TwoLinks;
    if RequestFits(spc, offset, total) {
      forall v: Volume, stack: Stack | v.h == h && v.spc == spc && TwoLinks(v, c, d)
        ensures DeliversFile(v, AsSpecified, stack, c, offset, total)
      {
        TwoLinksCover(v, c, d, offset, total);
        MeantReadDelivers(v, stack, c, offset, total);
      }
    } else {
      var _, _ := UnfitRequestFails(h, spc, c, d, offset, total);
    }
  }

  /** Some disk with c linked to d, and some stack, on which a request that does not fit goes wrong. */
  lemma UnfitRequestFails(h: Header, spc: nat, c: nat, d: nat, offset: nat, total: nat)
    returns (v: Volume, stack: Stack)
    requires TableBeforeData(h, spc, c, d) && !RequestFits(spc, offset, total)
    requires d == c || (d != c + 1 && offset + total <= 2 * (spc * SECTOR))
    ensures v.h == h && v.spc == spc && TwoLinks(v, c, d) && ChainCovers(v, c, offset, total)
    ensures !DeliversFile(v, AsSpecified, stack, c, offset, total)
  {
    hide ChainCovers, DeliversFile, TwoLinks;
    stack := _ => 0;
    if offset % SECTOR != 0 && offset % SECTOR + total > SECTOR {
      v, stack := UnfitSectorFails(h, spc, c, d, offset, total);
    } else {
      UnfitLeavesCluster(spc, offset, total);
      v := UnfitClusterFails(h, spc, c, d, offset, total, stack);
    }
  }

  /** The cluster in which a request on a chain of two clusters, or on a loop, starts. */
  lemma StartCluster(v: Volume, c: nat, d: nat, offset: nat, total: nat) returns (m: nat)
    requires v.Valid() && TwoLinks(v, c, d) && 2 <= c && 2 <= d <= 0xFFEF && total > 0
    requires d == c || offset + total <= 2 * ClusterBytes(v)
    ensures Walk(v, AsSpecified, c, Quot(offset, ClusterBytes(v))) == Some(m) && m >= 2
  {
    hide TwoLinks, Walk;
    var cs := ClusterBytes(v);
    if d != c {
      QuotUnique(offset, cs, if offset < cs then 0 else 1, if offset < cs then offset else offset - cs);
    }
    TwoLinksWalk(v, c, d, Quot(offset, cs));
    m := if d == c || offset < cs then c else d;
  }

  lemma UnfitSectorFails(h: Header, spc: nat, c: nat, d: nat, offset: nat, total: nat) returns (v: Volume, stack: Stack)
    requires TableBeforeData(h, spc, c, d) && (d == c || offset + total <= 2 * (spc * SECTOR))
    requires offset % SECTOR != 0 && offset % SECTOR + total > SECTOR
    ensures v.h == h && v.spc == spc && TwoLinks(v, c, d) && ChainCovers(v, c, offset, total)
    ensures !DeliversFile(v, AsSpecified, stack, c, offset, total)
  {
    v := FailingDisk(h, spc, c, d, 0, offset, total);
    var m := StartCluster(v, c, d, offset, total);
    DataBehindTable(h, spc, c, d, AsSpecified, m, v.image);
    hide LinkImage, FatPos, ChainCovers, TwoLinks, Walk, DeliversFile, ClusterPos, Quot, Rest;
    stack := SectorLeftFails(v, AsSpecified, c, offset, total, m);
  }

  lemma UnfitClusterFails(h: Header, spc: nat, c: nat, d: nat, offset: nat, total: nat, stack: Stack)
    returns (v: Volume)
    requires TableBeforeData(h, spc, c, d) && (d == c || (d != c + 1 && offset + total <= 2 * (spc * SECTOR)))
    requires offset % SECTOR == 0 && Rest(offset, spc * SECTOR) != 0
    requires Rest(offset, spc * SECTOR) + total > spc * SECTOR
    ensures v.h == h && v.spc == spc && TwoLinks(v, c, d) && ChainCovers(v, c, offset, total)
    ensures !DeliversFile(v, AsSpecified, stack, c, offset, total)
  {
    var cs := spc * SECTOR;
    var q := (DataSector(AsSpecified, h) + (c - 2) * spc) * SECTOR + cs;
    v := FailingDisk(h, spc, c, d, q, offset, total);
    DataBehindTable(h, spc, c, d, AsSpecified, c, v.image);
    DataBehindTable(h, spc, c, d, AsSpecified, d, v.image);
    ClustersApart(h, spc, c, d, v.image);
    assert v.image(q) == 1 && v.image(ClusterPos(v, AsSpecified, d)) == 0;
    if d != c {
      FirstOfTwo(spc, offset, total);
    }
    TwoLinksWalk(v, c, d, Quot(offset, cs));
    TwoLinksWalk(v, c, d, Quot(offset, cs) + 1);
    hide LinkImage, FatPos, ChainCovers, TwoLinks, Walk, DeliversFile, Quot, Rest, DataSector;
    ClusterLeftFails(v, AsSpecified, stack, c, offset, total, c, d);
  }

  /** In two clusters, only the first can be left. */
  lemma FirstOfTwo(spc: nat, offset: nat, total: nat)
    requires spc >= 1 && offset + total <= 2 * (spc * SECTOR) && Rest(offset, spc * SECTOR) + total > spc * SECTOR
    ensures Quot(offset, spc * SECTOR) == 0
  {
    var cs := spc * SECTOR;
    QuotRest(offset, cs);
    if Quot(offset, cs) >= 1 {
      MulMonotone(1, Quot(offset, cs), cs);
    }
  }

  /** Cluster d does not start where cluster c ends. */
  lemma ClustersApart(h: Header, spc: nat, c: nat, d: nat, image: Image)
    requires spc >= 1 && d != c + 1
    ensures var v := Volume(image, h, spc);
      ClusterPos(v, AsSpecified, d) != ClusterPos(v, AsSpecified, c) + spc * SECTOR
  {
    hide DataSector;
    if d > c + 1 {
      MulMonotone(1, d - (c + 1), spc);
    } else {
      MulMonotone(1, c + 1 - d, spc);
    }
    assert (d - 2) * spc - (c - 2) * spc - spc == (d - (c + 1)) * spc;
  }

  /** A request that does not fit although it keeps to its sector rule leaves its cluster, from a sector boundary. */
  lemma UnfitLeavesCluster(spc: nat, offset: nat, total: nat)
    requires spc >= 1 && !RequestFits(spc, offset, total) && !(offset % SECTOR != 0 && offset % SECTOR + total > SECTOR)
    ensures offset % SECTOR == 0 && Rest(offset, spc * SECTOR) != 0 && Rest(offset, spc * SECTOR) + total > spc * SECTOR
  {
    if offset % SECTOR != 0 {
      var r := Rest(offset, spc * SECTOR);
      ModOfMultiple(offset, spc);
      assert r % SECTOR == offset % SECTOR;
      RoomInCluster(spc, r);
    }
  }

  lemma RoomInCluster(spc: nat, r: nat)
    requires r < spc * SECTOR
    ensures r - r % SECTOR + SECTOR <= spc * SECTOR
  {
  }

  // ---------------------------------------------------------------- the read as it is written

  /**
   As the code stands, a non-empty request delivers the file on every disk of the geometry whose chain covers it,
   whatever the stack holds, exactly when the root directory fills its sectors and the request lies in the first
   cluster of the chain and starts on a sector boundary or stays in one sector.
   */
  lemma WrittenReadExact(h: Header, spc: nat, c: nat, offset: nat, total: nat)
    requires OrdinaryGeometry(h, spc, c, c) && total > 0
    ensures (forall v: Volume, stack: Stack | v.h == h && v.spc == spc && ChainCovers(v, c, offset, total) ::
               DeliversFile(v, AsWritten, stack, c, offset, total))
            <==> h.rootEntries % 16 == 0 && FirstClusterRequest(spc, offset, total)
  {
    hide ChainCovers, DeliversFile;
    if h.rootEntries % 16 == 0 && FirstClusterRequest(spc, offset, total) {
      forall v: Volume, stack: Stack | v.h == h && v.spc == spc && ChainCovers(v, c, offset, total)
        ensures DeliversFile(v, AsWritten, stack, c, offset, total)
      {
        FirstClusterDelivers(v, stack, c, offset, total);
      }
    } else {
      var _, _ := OtherRequestsFail(h, spc, c, c, offset, total);
    }
  }

  /**
   The same over healthy volumes, on which the file has two clusters, c and then d, and d carries the end mark; d must
   not be the physically next cluster, into which a read that leaves c would rightly run on.
   */
  lemma ProperChainReadExact(h: Header, spc: nat, c: nat, d: nat, offset: nat, total: nat)
    requires OrdinaryGeometry(h, spc, c, d) && d != c && d != c + 1 && total > 0 && offset + total <= 2 * (spc * SECTOR)
    ensures (forall v: Volume, stack: Stack | v.h == h && v.spc == spc && TwoLinks(v, c, d) ::
               DeliversFile(v, AsWritten, stack, c, offset, total))
            <==> h.rootEntries % 16 == 0 && FirstClusterRequest(spc, offset, total)
  {
    hide ChainCovers, DeliversFile, TwoLinks;
    if h.rootEntries % 16 == 0 && FirstClusterRequest(spc, offset, total) {
      forall v: Volume, stack: Stack | v.h == h && v.spc == spc && TwoLinks(v, c, d)
        ensures DeliversFile(v, AsWritten, stack, c, offset, total)
      {
        FirstClusterDelivers(v, stack, c, offset, total);
      }
    } else {
      var _, _ := OtherRequestsFail(h, spc, c, d, offset, total);
    }
  }

  /** Some disk with c linked to d, and some stack, on which another request does not deliver the file. */
  lemma OtherRequestsFail(h: Header, spc: nat, c: nat, d: nat, offset: nat, total: nat)
    returns (v: Volume, stack: Stack)
    requires OrdinaryGeometry(h, spc, c, d) && d != c + 1 && (d == c || offset + total <= 2 * (spc * SECTOR))
    requires total > 0
    requires !(h.rootEntries % 16 == 0 && FirstClusterRequest(spc, offset, total))
    ensures v.h == h && v.spc == spc && TwoLinks(v, c, d) && ChainCovers(v, c, offset, total)
    ensures !DeliversFile(v, AsWritten, stack, c, offset, total)
  {
    hide ChainCovers, DeliversFile, TwoLinks, OrdinaryGeometry;
    stack := _ => 0;
    var cs := spc * SECTOR;
    if offset >= cs || (offset == 0 && total > cs) {
      v := LinkNeededFails(h, spc, c, d, offset, total);
    } else if offset % SECTOR != 0 && offset % SECTOR + total > SECTOR {
      v, stack := FirstSectorLeftFails(h, spc, c, d, offset, total);
    } else if offset + total > cs {
      StaysInSector(spc, offset, total);
      v := FirstClusterLeftFails(h, spc, c, d, offset, total, stack);
    } else {
      v := ShiftedDataFails(h, spc, c, d, offset, total, stack);
    }
  }

  lemma StaysInSector(spc: nat, offset: nat, total: nat)
    requires offset < spc * SECTOR
    ensures offset % SECTOR != 0 && offset % SECTOR + total <= SECTOR ==> offset + total <= spc * SECTOR
  {
  }

  /** The disk of a failing request, with what holds on all of them. */
  lemma FailingDisk(h: Header, spc: nat, c: nat, d: nat, q: int, offset: nat, total: nat) returns (v: Volume)
    requires TableBeforeData(h, spc, c, d) && (d == c || offset + total <= 2 * (spc * SECTOR))
    ensures v == Volume(LinkImage(h.reserved, c, d, q), h, spc) && TwoLinks(v, c, d) && ChainCovers(v, c, offset, total)
    ensures Walk(v, AsWritten, c, 0) == Walk(v, AsSpecified, c, 0) == Some(c) && Walk(v, AsSpecified, c, 1) == Some(d)
    ensures offset < spc * SECTOR ==> Quot(offset, spc * SECTOR) == 0 && Rest(offset, spc * SECTOR) == offset
  {
    v := Volume(LinkImage(h.reserved, c, d, q), h, spc);
    LinkImageLinks(v, c, d, q);
    TwoLinksWalk(v, c, d, 0);
    TwoLinksWalk(v, c, d, 1);
    TwoLinksCover(v, c, d, offset, total);
    if offset < spc * SECTOR {
      QuotUnique(offset, spc * SECTOR, 0, offset);
    }
  }

  /** A request beyond the first cluster, or from the start of it beyond its end, needs a link. */
  lemma LinkNeededFails(h: Header, spc: nat, c: nat, d: nat, offset: nat, total: nat) returns (v: Volume)
    requires OrdinaryGeometry(h, spc, c, d) && (d == c || offset + total <= 2 * (spc * SECTOR)) && total > 0
    requires offset >= spc * SECTOR || (offset == 0 && total > spc * SECTOR)
    ensures v.h == h && v.spc == spc && TwoLinks(v, c, d) && ChainCovers(v, c, offset, total)
    ensures forall stack: Stack :: !DeliversFile(v, AsWritten, stack, c, offset, total)
  {
    var cs := spc * SECTOR;
    v := FailingDisk(h, spc, c, d, FatPos(AsSpecified, h.reserved, c), offset, total);
    CodedLinkIsZero(v, c, d);
    hide LinkImage, FatPos, ChainCovers, TwoLinks, Walk;
    var i := if offset == 0 then cs else 0;
    QuotUnique(cs, cs, 1, 0);
    QuotMonotone(cs, offset + i, cs);
    QuotUnique(0, cs, 0, 0);
    NoLinkFollowed(v, c, offset, i);
  }

  lemma FirstSectorLeftFails(h: Header, spc: nat, c: nat, d: nat, offset: nat, total: nat)
    returns (v: Volume, stack: Stack)
    requires OrdinaryGeometry(h, spc, c, d) && (d == c || offset + total <= 2 * (spc * SECTOR))
    requires offset < spc * SECTOR && offset % SECTOR != 0 && offset % SECTOR + total > SECTOR
    ensures v.h == h && v.spc == spc && TwoLinks(v, c, d) && ChainCovers(v, c, offset, total)
    ensures !DeliversFile(v, AsWritten, stack, c, offset, total)
  {
    v := FailingDisk(h, spc, c, d, 0, offset, total);
    DataBehindTable(h, spc, c, d, AsWritten, c, v.image);
    hide LinkImage, FatPos, ChainCovers, TwoLinks, Walk, DeliversFile, ClusterPos, Quot, Rest;
    stack := SectorLeftFails(v, AsWritten, c, offset, total, c);
  }

  lemma FirstClusterLeftFails(h: Header, spc: nat, c: nat, d: nat, offset: nat, total: nat, stack: Stack)
    returns (v: Volume)
    requires OrdinaryGeometry(h, spc, c, d) && d != c + 1 && (d == c || offset + total <= 2 * (spc * SECTOR))
    requires 0 < offset < spc * SECTOR < offset + total && offset % SECTOR == 0
    ensures v.h == h && v.spc == spc && TwoLinks(v, c, d) && ChainCovers(v, c, offset, total)
    ensures !DeliversFile(v, AsWritten, stack, c, offset, total)
  {
    var cs := spc * SECTOR;
    var q := (DataSector(AsWritten, h) + (c - 2) * spc) * SECTOR + cs;
    v := FailingDisk(h, spc, c, d, q, offset, total);
    DataBehindTable(h, spc, c, d, AsWritten, c, v.image);
    DataBehindTable(h, spc, c, d, AsSpecified, d, v.image);
    NotTheNextCluster(h, spc, c, d, offset, v.image);
    assert v.image(q) == 1 && v.image(ClusterPos(v, AsSpecified, d)) == 0;
    hide LinkImage, FatPos, ChainCovers, TwoLinks, Walk, DeliversFile, Quot, Rest, DataSector;
    ClusterLeftFails(v, AsWritten, stack, c, offset, total, c, d);
  }

  /** Cluster d of the specification does not start where the code's cluster c ends. */
  lemma NotTheNextCluster(h: Header, spc: nat, c: nat, d: nat, offset: nat, image: Image)
    requires spc >= 1 && 0 < offset < spc * SECTOR && offset % SECTOR == 0 && d != c + 1
    ensures var v := Volume(image, h, spc); ClusterPos(v, AsSpecified, d) != ClusterPos(v, AsWritten, c) + spc * SECTOR
  {
    DataSectorExact(h);
    hide DataSector;
    var e := DataSector(AsSpecified, h) - DataSector(AsWritten, h);
    assert spc >= 2;
    if d > c + 1 {
      MulMonotone(1, d - (c + 1), spc);
    } else {
      MulMonotone(1, c + 1 - d, spc);
    }
    assert (d - 2) * spc - (c - 2) * spc - spc == (d - (c + 1)) * spc;
  }

  /** With a root directory that does not fill its sectors, all data are read one sector too early. */
  lemma ShiftedDataFails(h: Header, spc: nat, c: nat, d: nat, offset: nat, total: nat, stack: Stack) returns (v: Volume)
    requires OrdinaryGeometry(h, spc, c, d) && total > 0 && FirstClusterRequest(spc, offset, total)
    requires h.rootEntries % 16 != 0
    ensures v.h == h && v.spc == spc && TwoLinks(v, c, d) && ChainCovers(v, c, offset, total)
    ensures !DeliversFile(v, AsWritten, stack, c, offset, total)
  {
    var cs := spc * SECTOR;
    var q := (DataSector(AsSpecified, h) + (c - 2) * spc) * SECTOR + offset;
    v := FailingDisk(h, spc, c, d, q, offset, total);
    DataSectorExact(h);
    DataBehindTable(h, spc, c, d, AsWritten, c, v.image);
    DataBehindTable(h, spc, c, d, AsSpecified, c, v.image);
    assert v.image(q) == 1 && v.image(ClusterPos(v, AsWritten, c) + offset) == 0;
    QuotUnique(0, cs, 0, 0);
    SectorAligned(v, AsWritten, c, offset);
    hide LinkImage, FatPos, TwoLinks, Walk, DataSector, Quot, Rest, StreamByte;
    StreamByteFits(v.image, stack, ClusterPos(v, AsWritten, c) + offset, total, 0);
    assert RawHasByte(v, AsWritten, c, offset, 0) && RawByte(v, AsWritten, stack, c, offset, 0) == 0;
    assert HasByte(v, AsSpecified, c, offset + 0) && ChainByte(v, AsSpecified, c, offset + 0) == 1;
  }

  /**
   On the geometry of the boot disk (200 reserved sectors, two FATs of 256, 64 root entries) some disk whose file of
   65537 bytes has the healthy chain 2, 4 defeats the read.
   */
  lemma TwoClusterFileFails() returns (v: Volume, stack: Stack)
    ensures v.h == Header(2, 256, 200, 64) && v.spc == 128 && TwoLinks(v, 2, 4) && v.Valid()
    ensures ChainCovers(v, 2, 0, 65537) && !DeliversFile(v, AsWritten, stack, 2, 0, 65537)
  {
    FatPosOnBootDisk();
    v, stack := OtherRequestsFail(Header(2, 256, 200, 64), 128, 2, 4, 0, 65537);
  }

  /** With 65 root entries a one-byte read is enough: the code reads sector 716, cluster 2 starts at sector 717. */
  lemma OneByteFails() returns (v: Volume, stack: Stack)
    ensures v.h == Header(2, 256, 200, 65) && v.spc == 128 && v.Valid()
    ensures DataSector(AsWritten, v.h) == 716 && DataSector(AsSpecified, v.h) == 717
    ensures ChainCovers(v, 2, 0, 1) && !DeliversFile(v, AsWritten, stack, 2, 0, 1)
  {
    FatPosOnBootDisk();
    v, stack := OtherRequestsFail(Header(2, 256, 200, 65), 128, 2, 2, 0, 1);
  }
}
