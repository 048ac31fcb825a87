/** gdt.c: segment descriptors packed into eight bytes (Intel SDM, Vol. 3A, section 3.4.5). */
module Gdt {
  datatype Structured = Structured(base: bv32, limit: bv32, kind: bv8)

  /** The limits the encoder takes; on others the kernel stops (`panic`). */
  predicate Encodable(limit: bv32) { limit <= 65536 || limit & 0xFFF == 0xFFF }

  /** Byte n of a word. */
  function Byte0(x: bv32): bv8 { (x & 0xFF) as bv8 }
  function Byte1(x: bv32): bv8 { ((x >> 8) & 0xFF) as bv8 }
  function Byte2(x: bv32): bv8 { ((x >> 16) & 0xFF) as bv8 }
  function Byte3(x: bv32): bv8 { ((x >> 24) & 0xFF) as bv8 }

  /** The 20-bit limit field of a descriptor, counted in bytes or, with the granularity flag, in 4 KiB units. */
  function LimitOf(b0: bv8, b1: bv8, b6: bv8): bv32 {
    var field := (b0 as bv32) | (b1 as bv32 << 8) | ((b6 & 0x0F) as bv32 << 16);
    if b6 & 0x80 != 0 then (field << 12) | 0xFFF else field
  }

  function BaseOf(b2: bv8, b3: bv8, b4: bv8, b7: bv8): bv32 {
    (b2 as bv32) | (b3 as bv32 << 8) | (b4 as bv32 << 16) | (b7 as bv32 << 24)
  }

  /** A descriptor read by the processor's rule. */
  function Decode(d: seq<bv8>): Structured
    requires |d| == 8
  {
    Structured(BaseOf(d[2], d[3], d[4], d[7]), LimitOf(d[0], d[1], d[6]), d[5])
  }

  function EncodedLimit(limit: bv32): bv32 { if limit > 65536 then limit >> 12 else limit }

  function EncodedFlags(limit: bv32): bv8 {
    (if limit > 65536 then 0xC0 else 0x40) | (Byte2(EncodedLimit(limit)) & 0x0F)
  }

  /** The descriptor the encoder's stores build. */
  function Encoded(s: Structured): (d: seq<bv8>)
    ensures |d| == 8
  {
    [
      Byte0(EncodedLimit(s.limit)), Byte1(EncodedLimit(s.limit)),
      Byte0(s.base), Byte1(s.base), Byte2(s.base), s.kind, EncodedFlags(s.limit), Byte3(s.base)
    ]
  }

  lemma BaseRoundTrip(b: bv32)
    ensures BaseOf(Byte0(b), Byte1(b), Byte2(b), Byte3(b)) == b
  {
  }

  lemma LimitRoundTrip(x: bv32)
    ensures LimitOf(Byte0(EncodedLimit(x)), Byte1(EncodedLimit(x)), EncodedFlags(x)) == x <==> Encodable(x)
  {
    if x > 65536 {
      BigLimit(x);
    } else {
      SmallLimit(x);
    }
  }

  lemma SmallLimit(x: bv32)
    requires x <= 65536
    ensures LimitOf(Byte0(x), Byte1(x), 0x40 | (Byte2(x) & 0x0F)) == x
  {
  }

  lemma BigLimit(x: bv32)
    ensures LimitOf(Byte0(x >> 12), Byte1(x >> 12), 0xC0 | (Byte2(x >> 12) & 0x0F)) == x | 0xFFF
    ensures x | 0xFFF == x <==> x & 0xFFF == 0xFFF
  {
  }

  /** Decoding by the processor's rule gives back base, type and limit, and does so exactly for the accepted limits. */
  lemma DecodeEncode(s: Structured)
    ensures Decode(Encoded(s)) == s <==> Encodable(s.limit)
  {
    hide BaseOf, LimitOf, EncodedLimit, EncodedFlags, Encodable, Byte0, Byte1, Byte2, Byte3;
    BaseRoundTrip(s.base);
    LimitRoundTrip(s.limit);
  }

  /** Two encodable segments with the same descriptor are the same segment. */
  lemma EncodedInjective(s: Structured, t: Structured)
    requires Encodable(s.limit) && Encodable(t.limit) && Encoded(s) == Encoded(t)
    ensures s == t
  {
    hide Decode, Encoded, Encodable;
    DecodeEncode(s);
    DecodeEncode(t);
  }

  /** The stores of `encodeGdtEntry` that place the limit and the flags. */
  method StoreLimit(target: array<bv8>, at: nat, source: bv32)
    requires at + 8 <= target.Length && Encodable(source)
    modifies target
    ensures target[at] == Byte0(EncodedLimit(source)) && target[at + 1] == Byte1(EncodedLimit(source))
    ensures target[at + 6] == EncodedFlags(source)
    ensures forall i :: 0 <= i < target.Length && i != at && i != at + 1 && i != at + 6 ==> target[i] == old(target[i])
  {
    var limit := source;
    target[at + 6] := 0x40;
    if limit > 65536 {
      limit := limit >> 12;
      target[at + 6] := 0xC0;
    }
    target[at] := Byte0(limit);
    target[at + 1] := Byte1(limit);
    target[at + 6] := target[at + 6] | (Byte2(limit) & 0x0F);
  }

  /** `encodeGdtEntry` into the eight bytes of `target` from `at` on. */
  method EncodeGdtEntry(target: array<bv8>, at: nat, source: Structured)
    requires at + 8 <= target.Length && Encodable(source.limit)
    modifies target
    ensures target[at..at + 8] == Encoded(source)
    ensures forall i :: 0 <= i < target.Length && !(at <= i < at + 8) ==> target[i] == old(target[i])
  {
    hide Byte0, Byte1, Byte2, Byte3, EncodedLimit, EncodedFlags, Encodable;
    StoreLimit(target, at, source.limit);
    target[at + 2] := Byte0(source.base);
    target[at + 3] := Byte1(source.base);
    target[at + 4] := Byte2(source.base);
    target[at + 7] := Byte3(source.base);
    target[at + 5] := source.kind;
    Collect(target[..], at, Encoded(source));
  }

  lemma Collect(t: seq<bv8>, at: nat, d: seq<bv8>)
    requires |d| == 8 && at + 8 <= |t|
    requires t[at] == d[0] && t[at + 1] == d[1] && t[at + 2] == d[2] && t[at + 3] == d[3]
    requires t[at + 4] == d[4] && t[at + 5] == d[5] && t[at + 6] == d[6] && t[at + 7] == d[7]
    ensures t[at..at + 8] == d
  {
  }

  /** Every encoded descriptor is one of a 32-bit segment. */
  lemma EncodedIs32Bit(s: Structured)
    ensures Encoded(s)[6] & 0x60 == 0x40
  {
    assert (Byte2(EncodedLimit(s.limit)) & 0x0F) & 0x60 == 0;
  }

  /** `gdt_structured_to_gdt`: afterwards every descriptor of the table is 32-bit and decodes to its segment. */
  method StructuredToGdt(gdt: array<bv8>, structured: seq<Structured>)
    requires gdt.Length == 8 * |structured| && forall s | s in structured :: Encodable(s.limit)
    modifies gdt
    ensures forall i: nat :: i < |structured| ==>
      Decode(gdt[8 * i..8 * i + 8]) == structured[i] && gdt[8 * i..8 * i + 8][6] & 0x60 == 0x40
  {
    hide Decode, Encoded, Encodable;
    var i := 0;
    while i < |structured|
      invariant 0 <= i <= |structured|
      invariant forall j: nat :: j < i ==>
        Decode(gdt[8 * j..8 * j + 8]) == structured[j] && gdt[8 * j..8 * j + 8][6] & 0x60 == 0x40
    {
      ghost var was := gdt[..];
      EncodeGdtEntry(gdt, 8 * i, structured[i]);
      assert structured[i] in structured;
      DecodeEncode(structured[i]);
      EncodedIs32Bit(structured[i]);
      forall j: nat | j < i ensures gdt[8 * j..8 * j + 8] == was[8 * j..8 * j + 8] {
      }
      i := i + 1;
    }
  }
}
