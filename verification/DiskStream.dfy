/** streamer.c: byte reads built from 512-byte sector reads. */
module DiskStream {
  import opened Words

  const SECTOR := 512

  /** The disk: the byte at every position, sector s holding positions 512 s to 512 s + 511. */
  type Image = int -> byte

  /** What lies in memory at each distance from the start of the local sector buffer, outside its 512 bytes. */
  type Stack = int -> byte

  /** The i-th byte that a read from `pos` delivers: each 512-byte round looks into its buffer at `pos % 512` and up. */
  function StreamByte(image: Image, stack: Stack, pos: int, i: nat): byte {
    var x := CMod(pos + SECTOR * (i / SECTOR), SECTOR) + i % SECTOR;
    if 0 <= x < SECTOR then image(pos + i) else stack(x)
  }

  /** The read starts on a sector boundary or stays inside one sector. */
  predicate ReadFits(pos: int, total: int) {
    total <= 0 || pos % SECTOR == 0 || (pos >= 0 && pos % SECTOR + total <= SECTOR)
  }

  lemma StreamByteFits(image: Image, stack: Stack, pos: int, total: int, i: nat)
    requires ReadFits(pos, total) && i < total
    ensures StreamByte(image, stack, pos, i) == image(pos + i)
  {
    if pos % SECTOR == 0 {
      AlignedMod(pos + SECTOR * (i / SECTOR));
    }
  }

  lemma AlignedMod(p: int)
    requires p % SECTOR == 0
    ensures CMod(p, SECTOR) == 0
  {
  }

  /**
   A streamed read delivers disk[pos..pos + total), whatever the stack holds, exactly when it starts on a sector
   boundary or stays inside one sector.
   */
  lemma ReadExact(image: Image, pos: int, total: int)
    ensures (forall stack: Stack, i: nat | i < total :: StreamByte(image, stack, pos, i) == image(pos + i))
            <==> ReadFits(pos, total)
  {
    if ReadFits(pos, total) {
      forall stack: Stack, i: nat | i < total ensures StreamByte(image, stack, pos, i) == image(pos + i) {
        StreamByteFits(image, stack, pos, total, i);
      }
    } else {
      var i := if pos < 0 then 0 else SECTOR - pos % SECTOR;
      var stack: Stack := x => if image(pos + i) == 0 then 1 else 0;
      assert StreamByte(image, stack, pos, i) == stack(CMod(pos, SECTOR) + i) != image(pos + i);
    }
  }

  /** Reads of two bytes at even positions and of 32 bytes at multiples of 32 always fit. */
  lemma SmallReadsFit(pos: int)
    requires pos >= 0 || pos % SECTOR == 0
    ensures pos % 2 == 0 ==> ReadFits(pos, 2)
    ensures pos % 32 == 0 ==> ReadFits(pos, 32)
  {
    if pos >= 0 {
      RoomInSector(pos, pos / SECTOR, pos % SECTOR);
    }
  }

  lemma RoomInSector(pos: int, q: int, r: int)
    requires pos == SECTOR * q + r && 0 <= r < SECTOR
    ensures (pos % 2 == 0 ==> r + 2 <= SECTOR) && (pos % 32 == 0 ==> r + 32 <= SECTOR)
  {
  }

  class Stream {
    const image: Image
    const stack: Stack
    var pos: int

    /** `diskstreamer_new` */
    constructor (image: Image, stack: Stack)
      ensures this.image == image && this.stack == stack && pos == 0
    {
      this.image, this.stack, pos := image, stack, 0;
    }

    /** `diskstreamer_seek` */
    method Seek(pos: int)
      modifies this
      ensures this.pos == pos
    {
      this.pos := pos;
    }

    /** One round of `diskstreamer_read`: a sector into the local buffer, n bytes of it to out[at..]. */
    method CopyRound(out: array<byte>, at: nat, n: int)
      requires n <= SECTOR && (n > 0 ==> at + n <= out.Length)
      modifies out
      ensures forall a :: 0 <= a < out.Length ==>
        out[a] == if at <= a < at + n then StreamByte(image, stack, pos, a - at) else old(out[a])
    {
      var sector := CDiv(pos, SECTOR);
      var offset := CMod(pos, SECTOR);
      var buf := seq(SECTOR, i => image(sector * SECTOR + i));
      var i := 0;
      while i < n
        invariant 0 <= i && (if n >= 0 then i <= n else i == 0)
        invariant forall a :: 0 <= a < out.Length ==>
          out[a] == if at <= a < at + i then StreamByte(image, stack, pos, a - at) else old(out[a])
      {
        out[at + i] := if 0 <= offset + i < SECTOR then buf[offset + i] else stack(offset + i);
        i := i + 1;
      }
    }

    /** `diskstreamer_read` into out[at..]; it always succeeds because a disk read does. */
    method Read(out: array<byte>, at: nat, total: int)
      requires total > 0 ==> at + total <= out.Length
      modifies this, out
      ensures pos == old(pos) + total
      ensures forall a :: 0 <= a < out.Length ==>
        out[a] == if at <= a < at + total then StreamByte(image, stack, old(pos), a - at) else old(out[a])
      decreases if total > 0 then total else 0
    {
      hide StreamByte;
      var totalToRead := if total > SECTOR then SECTOR else total;
      CopyRound(out, at, totalToRead);
      pos := pos + totalToRead;
      if total > SECTOR {
        Read(out, at + SECTOR, total - SECTOR);
        forall i: nat | SECTOR <= i < total
          ensures StreamByte(image, stack, old(pos) + SECTOR, i - SECTOR) == StreamByte(image, stack, old(pos), i)
        {
          NextRound(image, stack, old(pos), i);
        }
      }
    }
  }

  lemma NextRound(image: Image, stack: Stack, pos: int, i: nat)
    requires i >= SECTOR
    ensures StreamByte(image, stack, pos + SECTOR, i - SECTOR) == StreamByte(image, stack, pos, i)
  {
    assert (i - SECTOR) / SECTOR == i / SECTOR - 1 && (i - SECTOR) % SECTOR == i % SECTOR;
  }
}
