/** The read path of fat16.c: FAT entries, the restarted chain walk, the recursive read and reads of several items. */
module FatRead {
  import opened Words
  import opened DiskStream
  import opened FatChain
  import opened FatExact

  function ReadOverAt(was: seq<byte>, at: nat, v: Volume, stack: Stack, c: nat, offset: nat, total: nat, a: nat): byte
    requires v.Valid() && a < |was|
  {
    if at <= a < at + total && RawHasByte(v, AsWritten, c, offset, a - at) then
      RawByte(v, AsWritten, stack, c, offset, a - at) else was[a]
  }

  /** Buffer `was` after a read of `total` bytes laid at `at`; rounds after a failed walk leave it alone. */
  function ReadOver(was: seq<byte>, at: nat, v: Volume, stack: Stack, c: nat, offset: nat, total: nat): (r: seq<byte>)
    requires v.Valid()
    ensures |r| == |was|
  {
    seq(|was|, a requires 0 <= a < |was| => ReadOverAt(was, at, v, stack, c, offset, total, a))
  }

  /** Buffer `was` after reading n items of `size` bytes one after another; the first failing item ends it. */
  function ItemsOver(was: seq<byte>, at: nat, v: Volume, stack: Stack, c: nat, offset: nat, size: nat,
    n: nat): (r: seq<byte>)
    requires v.Valid()
    ensures |r| == |was|
    decreases n
  {
    if n == 0 then was
    else
      var first := ReadOver(was, at, v, stack, c, offset, size);
      if ReadResult(v, AsWritten, c, offset, size) < 0 then first
      else ItemsOver(first, at + size, v, stack, c, offset + size, size, n - 1)
  }

  /** Every one of the n items can be read. */
  predicate ItemsReadable(v: Volume, c: nat, offset: nat, size: nat, n: nat)
    requires v.Valid()
    decreases n
  {
    n == 0 || (ReadResult(v, AsWritten, c, offset, size) == 0 && ItemsReadable(v, c, offset + size, size, n - 1))
  }

  lemma NextCluster(x: nat, cs: nat)
    requires cs >= 1
    ensures Quot(x + cs, cs) == Quot(x, cs) + 1 && Rest(x + cs, cs) == Rest(x, cs)
  {
    QuotRest(x, cs);
    assert (Quot(x, cs) + 1) * cs == Quot(x, cs) * cs + cs;
    QuotUnique(x + cs, cs, Quot(x, cs) + 1, Rest(x, cs));
  }

  /** A byte of a later round, seen from the recursive call. */
  lemma LaterRound(v: Volume, stack: Stack, c: nat, offset: nat, i: nat)
    requires v.Valid() && i >= ClusterBytes(v)
    ensures RawHasByte(v, AsWritten, c, offset + ClusterBytes(v), i - ClusterBytes(v)) ==
        RawHasByte(v, AsWritten, c, offset, i)
    ensures RawHasByte(v, AsWritten, c, offset, i) ==>
              RawByte(v, AsWritten, stack, c, offset + ClusterBytes(v), i - ClusterBytes(v)) ==
                RawByte(v, AsWritten, stack, c, offset, i)
  {
    var cs := ClusterBytes(v);
    NextCluster(offset, cs);
    NextCluster(i - cs, cs);
  }

  lemma FirstRound(v: Volume, stack: Stack, c: nat, offset: nat, i: nat)
    requires v.Valid() && i < ClusterBytes(v)
    ensures RawHasByte(v, AsWritten, c, offset, i) == Walk(v, AsWritten, c, Quot(offset, ClusterBytes(v))).Some?
    ensures RawHasByte(v, AsWritten, c, offset, i) ==>
              RawByte(v, AsWritten, stack, c, offset, i) ==
              StreamByte(v.image, stack,
                ClusterPos(v, AsWritten, Walk(v, AsWritten, c, Quot(offset, ClusterBytes(v))).value)
                                         + Rest(offset, ClusterBytes(v)), i)
  {
    QuotUnique(i, ClusterBytes(v), 0, i);
  }

  /** The first round and the recursive call for the rest together are the whole. */
  lemma RoundsOver(was: seq<byte>, at: nat, v: Volume, stack: Stack, c: nat, offset: nat, total: nat)
    requires v.Valid() && total > ClusterBytes(v)
    ensures var cs := ClusterBytes(v);
      ReadOver(ReadOver(was, at, v, stack, c, offset, cs), at + cs, v, stack, c, offset + cs, total - cs)
      == ReadOver(was, at, v, stack, c, offset, total)
    ensures ReadResult(v, AsWritten, c, offset + ClusterBytes(v), total - ClusterBytes(v)) ==
        ReadResult(v, AsWritten, c, offset, total)
  {
    hide RawHasByte, RawByte;
    var cs := ClusterBytes(v);
    forall i: nat | cs <= i < total
      ensures RawHasByte(v, AsWritten, c, offset + cs, i - cs) == RawHasByte(v, AsWritten, c, offset, i)
      ensures RawHasByte(v, AsWritten, c, offset, i) ==>
                RawByte(v, AsWritten, stack, c, offset + cs, i - cs) == RawByte(v, AsWritten, stack, c, offset, i)
    {
      LaterRound(v, stack, c, offset, i);
    }
    LaterRound(v, stack, c, offset, total - 1);
  }

  lemma FirstRoundOver(was: seq<byte>, now: seq<byte>, at: nat, v: Volume, stack: Stack, c: nat, offset: nat, n: nat,
                       m: nat)
    requires v.Valid() && |now| == |was| && at + n <= |was| && n <= ClusterBytes(v)
    requires Walk(v, AsWritten, c, Quot(offset, ClusterBytes(v))) == Some(m)
    requires forall a :: 0 <= a < |was| ==>
      now[a] == if at <= a < at + n then
        StreamByte(v.image, stack, ClusterPos(v, AsWritten, m) + Rest(offset, ClusterBytes(v)), a - at) else was[a]
    ensures now == ReadOver(was, at, v, stack, c, offset, n) && ReadResult(v, AsWritten, c, offset, n) == 0
  {
    FirstRound(v, stack, c, offset, if n == 0 then 0 else n - 1);
    forall i: nat | i < n
      ensures RawHasByte(v, AsWritten, c, offset, i) && now[at + i] == RawByte(v, AsWritten, stack, c, offset, i)
    {
      FirstRound(v, stack, c, offset, i);
    }
    hide RawHasByte, RawByte, StreamByte;
    forall a: nat | at <= a < at + n
      ensures RawHasByte(v, AsWritten, c, offset, a - at) && now[a] == RawByte(v, AsWritten, stack, c, offset, a - at)
    {
      assert now[at + (a - at)] == RawByte(v, AsWritten, stack, c, offset, a - at);
    }
  }

  lemma NothingRead(v: Volume, c: nat, offset: nat)
    requires v.Valid() && Walk(v, AsWritten, c, Quot(offset, ClusterBytes(v))).None?
    ensures forall i: nat :: !RawHasByte(v, AsWritten, c, offset, i)
    ensures forall total: nat :: ReadResult(v, AsWritten, c, offset, total) == -EIO
    ensures forall was: seq<byte>, at: nat, stack: Stack, total: nat ::
        ReadOver(was, at, v, stack, c, offset, total) == was
  {
    forall i: nat ensures !RawHasByte(v, AsWritten, c, offset, i) {
      if RawHasByte(v, AsWritten, c, offset, i) {
        WalkPrefix(v, AsWritten, c, Quot(offset, ClusterBytes(v)),
          Quot(offset, ClusterBytes(v)) + Quot(i, ClusterBytes(v)));
      }
    }
  }

  /** The mounted filesystem (`struct fat_private`): one stream for clusters, one for the table. */
  class FatFs {
    const vol: Volume
    const stack: Stack
    const clusterStream: Stream
    const fatStream: Stream

    ghost predicate Valid()
      reads this
    {
      && vol.Valid() && clusterStream != fatStream
      && clusterStream.image == fatStream.image == vol.image
      && clusterStream.stack == fatStream.stack == stack
    }

    constructor (vol: Volume, stack: Stack)
      requires vol.Valid()
      ensures Valid() && this.vol == vol && this.stack == stack && fresh(clusterStream) && fresh(fatStream)
    {
      this.vol, this.stack := vol, stack;
      clusterStream := new Stream(vol.image, stack);
      fatStream := new Stream(vol.image, stack);
    }

    /** `fat16_get_fat_entry` */
    method GetFatEntry(cluster: nat) returns (res: nat)
      requires Valid()
      modifies fatStream
      ensures res == Link(vol, AsWritten, cluster)
    {
      var fatTablePosition := vol.h.reserved * SECTOR;
      fatStream.Seek(Signed32(fatTablePosition * (cluster * 2) % 0x1_0000_0000));
      var result := new byte[2];
      ghost var pos := fatStream.pos;
      CodedPosEven(vol.h.reserved, cluster);
      SmallReadsFit(pos);
      StreamByteFits(vol.image, stack, pos, 2, 0);
      StreamByteFits(vol.image, stack, pos, 2, 1);
      fatStream.Read(result, 0, 2);
      res := result[0] as int + 256 * result[1] as int;
    }

    /** `fat16_get_cluster_for_offset` */
    method GetClusterForOffset(startingCluster: nat, offset: nat) returns (res: int)
      requires Valid()
      modifies fatStream
      ensures res == match Walk(vol, AsWritten, startingCluster, Quot(offset, ClusterBytes(vol)))
                     case None => -EIO case Some(c) => c
    {
      var sizeOfClusterBytes := vol.spc * SECTOR;
      var clusterToUse := startingCluster;
      var clustersAhead := Quot(offset, sizeOfClusterBytes);
      var i := 0;
      while i < clustersAhead
        invariant 0 <= i <= clustersAhead
        invariant Walk(vol, AsWritten, clusterToUse, clustersAhead - i) ==
            Walk(vol, AsWritten, startingCluster, clustersAhead)
      {
        var entry := GetFatEntry(clusterToUse);
        if entry == 0xFF8 || entry == 0xFFF {
          return -EIO;
        }
        if entry == 0xFF7 {
          return -EIO;
        }
        if entry == 0xFF0 || entry == 0xFF6 {
          return -EIO;
        }
        if entry == 0x00 {
          return -EIO;
        }
        clusterToUse := entry;
        i := i + 1;
      }
      res := clusterToUse;
    }

    /** `fat16_read_internal_from_stream` */
    method ReadInternal(cluster: nat, offset: nat, total: nat, out: array<byte>, at: nat) returns (res: int)
      requires Valid() && at + total <= out.Length
      modifies clusterStream, fatStream, out
      ensures res == ReadResult(vol, AsWritten, cluster, offset, total)
      ensures out[..] == ReadOver(old(out[..]), at, vol, stack, cluster, offset, total)
      decreases total
    {
      hide RawHasByte, RawByte, StreamByte, Quot, Rest, Walk, ClusterPos, ReadResult;
      var sizeOfClusterBytes := vol.spc * SECTOR;
      var clusterToUse := GetClusterForOffset(cluster, offset);
      if clusterToUse < 0 {
        NothingRead(vol, cluster, offset);
        return clusterToUse;
      }
      var offsetFromCluster := Rest(offset, sizeOfClusterBytes);
      var startingPos := ClusterPos(vol, AsWritten, clusterToUse) + offsetFromCluster;
      var totalToRead := if total > sizeOfClusterBytes then sizeOfClusterBytes else total;
      clusterStream.Seek(startingPos);
      clusterStream.Read(out, at, totalToRead);
      FirstRoundOver(old(out[..]), out[..], at, vol, stack, cluster, offset, totalToRead, clusterToUse);
      hide ReadOver;
      res := 0;
      if total > totalToRead {
        res := ReadInternal(cluster, offset + totalToRead, total - totalToRead, out, at + totalToRead);
        RoundsOver(old(out[..]), at, vol, stack, cluster, offset, total);
      }
    }

    /** `fat16_read`: nmemb items of `size` bytes from position pos of the file on; the count if all could be read. */
    method Read(cluster: nat, pos: nat, size: nat, nmemb: nat, out: array<byte>, at: nat) returns (res: int)
      requires Valid() && at + nmemb * size <= out.Length
      modifies clusterStream, fatStream, out
      ensures res == if ItemsReadable(vol, cluster, pos, size, nmemb) then nmemb else -EIO
      ensures out[..] == ItemsOver(old(out[..]), at, vol, stack, cluster, pos, size, nmemb)
    {
      hide ReadOver, ReadResult;
      var offset: nat, outPtr: nat := pos, at;
      ghost var goal, ok := ItemsOver(out[..], at, vol, stack, cluster, pos, size, nmemb),
        ItemsReadable(vol, cluster, pos, size, nmemb);
      var i := 0;
      while i < nmemb
        invariant 0 <= i <= nmemb && outPtr + (nmemb - i) * size <= out.Length
        invariant ItemsOver(out[..], outPtr, vol, stack, cluster, offset, size, nmemb - i) == goal
        invariant ItemsReadable(vol, cluster, offset, size, nmemb - i) == ok
      {
        assert (nmemb - i) * size == size + (nmemb - i - 1) * size >= size by {
          MulMonotone(0, nmemb - i - 1, size);
        }
        res := ReadInternal(cluster, offset, size, out, outPtr);
        ResultIsZeroOrEio(vol, cluster, offset, size);
        if res < 0 {
          return;
        }
        outPtr, offset, i := outPtr + size, offset + size, i + 1;
      }
      res := nmemb;
    }
  }

  lemma ResultIsZeroOrEio(v: Volume, c: nat, offset: nat, total: nat)
    requires v.Valid()
    ensures ReadResult(v, AsWritten, c, offset, total) == 0 || ReadResult(v, AsWritten, c, offset, total) == -EIO
  {
  }

  // ---------------------------------------------------------------- many items or one

  function ChainOverAt(was: seq<byte>, at: nat, v: Volume, c: nat, offset: nat, total: nat, a: nat): byte
    requires v.Valid() && a < |was|
  {
    if at <= a < at + total && HasByte(v, AsWritten, c, offset + a - at) then
      ChainByte(v, AsWritten, c, offset + a - at) else was[a]
  }

  /** Buffer `was` with the bytes of the chain the code walks laid over it, as far as the chain goes. */
  function ChainOver(was: seq<byte>, at: nat, v: Volume, c: nat, offset: nat, total: nat): (r: seq<byte>)
    requires v.Valid()
    ensures |r| == |was|
  {
    seq(|was|, a requires 0 <= a < |was| => ChainOverAt(was, at, v, c, offset, total, a))
  }

  lemma FittingIsChain(was: seq<byte>, at: nat, v: Volume, stack: Stack, c: nat, offset: nat, total: nat)
    requires v.Valid() && RequestFits(v.spc, offset, total)
    requires offset % SECTOR == 0 || OnDisk(v, AsWritten, c, Quot(offset, ClusterBytes(v)))
    ensures ReadOver(was, at, v, stack, c, offset, total) == ChainOver(was, at, v, c, offset, total)
    ensures total > 0 ==>
        (ReadResult(v, AsWritten, c, offset, total) == 0 <==> HasByte(v, AsWritten, c, offset + total - 1))
    ensures ReadResult(v, AsWritten, c, offset, total) == 0 || ReadResult(v, AsWritten, c, offset, total) == -EIO
  {
    hide RawHasByte, RawByte, HasByte, ChainByte, RequestFits;
    forall i: nat | i < total
      ensures RawHasByte(v, AsWritten, c, offset, i) <==> HasByte(v, AsWritten, c, offset + i)
      ensures RawHasByte(v, AsWritten, c, offset, i) ==>
          RawByte(v, AsWritten, stack, c, offset, i) == ChainByte(v, AsWritten, c, offset + i)
    {
      RawIsChain(v, AsWritten, stack, c, offset, total, i);
    }
    forall a: nat | a < |was|
      ensures ReadOver(was, at, v, stack, c, offset, total)[a] == ChainOver(was, at, v, c, offset, total)[a] {
      if at <= a < at + total {
        var i: nat := a - at;
        assert offset + i == offset + a - at;
      }
    }
  }

  /** A multiple of d leaves room for d more below any multiple of d. */
  lemma MultipleFits(x: nat, d: nat, m: nat)
    requires d >= 1 && m >= 1 && Rest(x, d) == 0 && Rest(m, d) == 0
    ensures Rest(x, m) + d <= m
  {
    QuotRest(x, m);
    QuotRest(x, d);
    QuotRest(m, d);
    var r, k := Rest(x, m), Quot(x, d) - Quot(x, m) * Quot(m, d);
    assert r == k * d by {
      assert Quot(x, m) * m == (Quot(x, m) * Quot(m, d)) * d;
    }
    if k >= Quot(m, d) {
      MulMonotone(Quot(m, d), k, d);
    } else if k >= 0 {
      MulMonotone(k + 1, Quot(m, d), d);
    } else {
      MulMonotone(1, -k, d);
    }
  }

  lemma HasBytePrefix(v: Volume, how: Reading, c: nat, x: nat, y: nat)
    requires v.Valid() && x <= y && HasByte(v, how, c, y)
    ensures HasByte(v, how, c, x)
  {
    QuotMonotone(x, y, ClusterBytes(v));
    WalkPrefix(v, how, c, Quot(x, ClusterBytes(v)), Quot(y, ClusterBytes(v)));
  }

  /** A chain read in two parts is read in one. */
  lemma ChainOverSplit(was: seq<byte>, at: nat, v: Volume, c: nat, offset: nat, n: nat, m: nat)
    requires v.Valid()
    ensures ChainOver(ChainOver(was, at, v, c, offset, n), at + n, v, c, offset + n, m) ==
        ChainOver(was, at, v, c, offset, n + m)
  {
    hide HasByte, ChainByte;
  }

  /** Where the chain has no byte at `offset` it has none later either. */
  lemma ChainEnded(was: seq<byte>, at: nat, v: Volume, c: nat, offset: nat, total: nat)
    requires v.Valid() && !HasByte(v, AsWritten, c, offset)
    ensures ChainOver(was, at, v, c, offset, total) == was
  {
    forall x: nat | x >= offset ensures !HasByte(v, AsWritten, c, x) {
      if HasByte(v, AsWritten, c, x) {
        HasBytePrefix(v, AsWritten, c, offset, x);
      }
    }
    hide HasByte, ChainByte;
  }

  /** An item of `size` bytes at a multiple of `size`, where `size` divides the sector size, stays in one sector. */
  lemma ItemFits(v: Volume, offset: nat, size: nat)
    requires v.Valid() && size >= 1 && Rest(SECTOR, size) == 0 && Rest(offset, size) == 0
    ensures RequestFits(v.spc, offset, size)
    ensures forall c: nat :: HasByte(v, AsWritten, c, offset) <==> HasByte(v, AsWritten, c, offset + size - 1)
  {
    var cs := ClusterBytes(v);
    QuotRest(SECTOR, size);
    assert cs == (v.spc * Quot(SECTOR, size)) * size;
    QuotUnique(cs, size, v.spc * Quot(SECTOR, size), 0);
    MultipleFits(offset, size, cs);
    MultipleFits(offset, size, SECTOR);
    assert Rest(offset, SECTOR) == offset % SECTOR;
    QuotRest(offset, cs);
    QuotUnique(offset + size - 1, cs, Quot(offset, cs), Rest(offset, cs) + size - 1);
  }

  /** No cluster of the chain lies before the disk. */
  ghost predicate ChainOnDisk(v: Volume, c: nat) {
    forall k: nat :: OnDisk(v, AsWritten, c, k)
  }

  /** Where the data area starts behind two clusters' worth of sectors, every chain is on the disk. */
  lemma RoomyVolume(v: Volume, c: nat)
    requires v.Valid() && DataSector(AsWritten, v.h) >= 2 * v.spc
    ensures ChainOnDisk(v, c)
  {
    hide DataSector;
    forall k: nat ensures OnDisk(v, AsWritten, c, k) {
      if Walk(v, AsWritten, c, k).Some? {
        var m := Walk(v, AsWritten, c, k).value;
        MulMonotone(0, m, v.spc);
        assert (m - 2) * v.spc == m * v.spc - 2 * v.spc;
      }
    }
  }

  lemma {:induction false} ItemsAreChain(was: seq<byte>, at: nat, v: Volume, stack: Stack, c: nat, offset: nat,
                                         size: nat, n: nat)
    requires v.Valid() && size >= 1 && Rest(SECTOR, size) == 0 && Rest(offset, size) == 0
    requires ChainOnDisk(v, c)
    ensures ItemsOver(was, at, v, stack, c, offset, size, n) == ChainOver(was, at, v, c, offset, n * size)
    ensures n >= 1 ==> (ItemsReadable(v, c, offset, size, n) <==> HasByte(v, AsWritten, c, offset + n * size - 1))
    decreases n
  {
    hide HasByte, ChainByte, ReadResult, ReadOver, RequestFits, ChainOver, OnDisk;
    if n == 0 {
      assert ChainOver(was, at, v, c, offset, 0) == was by {
        ChainOverNothing(was, at, v, c, offset);
      }
    } else {
      assert n * size == size + (n - 1) * size >= size by {
        MulMonotone(0, n - 1, size);
      }
      ItemFits(v, offset, size);
      FittingIsChain(was, at, v, stack, c, offset, size);
      ChainOverSplit(was, at, v, c, offset, size, (n - 1) * size);
      NextMultiple(offset, size);
      if HasByte(v, AsWritten, c, offset) {
        ItemsAreChain(ReadOver(was, at, v, stack, c, offset, size), at + size, v, stack, c, offset + size, size, n - 1);
      } else {
        ChainEnded(was, at, v, c, offset, size);
        ChainEnded(was, at, v, c, offset, n * size);
        if HasByte(v, AsWritten, c, offset + n * size - 1) {
          HasBytePrefix(v, AsWritten, c, offset, offset + n * size - 1);
        }
      }
    }
  }

  lemma ChainOverNothing(was: seq<byte>, at: nat, v: Volume, c: nat, offset: nat)
    requires v.Valid()
    ensures ChainOver(was, at, v, c, offset, 0) == was
  {
  }

  lemma NextMultiple(x: nat, d: nat)
    requires d >= 1 && Rest(x, d) == 0
    ensures Rest(x + d, d) == 0
  {
    NextCluster(x, d);
  }

  /**
   Reading n items of s bytes from the start of a file leaves the same buffer as reading one item of n s bytes, and
   one succeeds exactly when the other does, whenever s divides the sector size: on every disk and for every n, as long
   as the chain does not lead before the disk.
   */
  lemma ItemsAsOne(was: seq<byte>, at: nat, v: Volume, stack: Stack, c: nat, size: nat, n: nat)
    requires v.Valid() && size >= 1 && Rest(SECTOR, size) == 0 && n >= 1 && ChainOnDisk(v, c)
    ensures ItemsOver(was, at, v, stack, c, 0, size, n) == ItemsOver(was, at, v, stack, c, 0, n * size, 1)
    ensures ItemsReadable(v, c, 0, size, n) <==> ItemsReadable(v, c, 0, n * size, 1)
  {
    QuotUnique(0, size, 0, 0);
    QuotUnique(0, ClusterBytes(v), 0, 0);
    assert n * size >= 1 by {
      MulMonotone(1, n, size);
    }
    ItemsAreChain(was, at, v, stack, c, 0, size, n);
    assert RequestFits(v.spc, 0, n * size);
    hide HasByte, ChainByte, ReadOver, RequestFits, ChainOver;
    FittingIsChain(was, at, v, stack, c, 0, n * size);
    assert ItemsOver(was, at, v, stack, c, 0, n * size, 1) == ReadOver(was, at, v, stack, c, 0, n * size);
  }
}
