/** Machine words, the bitwise operators of C on unsigned values, and little-endian words in a page frame. */
module Words {
  type byte = x: int | 0 <= x < 256
  type u32 = x: int | 0 <= x < 0x1_0000_0000

  const PAGE := 4096

  /** `a & b` of C on unsigned operands, bit by bit. */
  function BitAnd(a: nat, b: nat): nat {
    if a == 0 || b == 0 then 0
    else 2 * BitAnd(a / 2, b / 2) + (if a % 2 == 1 && b % 2 == 1 then 1 else 0)
  }

  /** `a | b` of C on unsigned operands, bit by bit. */
  function BitOr(a: nat, b: nat): nat {
    if a == 0 then b
    else if b == 0 then a
    else 2 * BitOr(a / 2, b / 2) + (if a % 2 == 1 || b % 2 == 1 then 1 else 0)
  }

  function Pow2(k: nat): nat {
    if k == 0 then 1 else 2 * Pow2(k - 1)
  }

  lemma Pow2Positive(k: nat)
    ensures Pow2(k) >= 1
  {
  }

  lemma PowersUsed()
    ensures Pow2(12) == PAGE && Pow2(20) == 0x10_0000 && Pow2(32) == 0x1_0000_0000
  {
    Pow2Add(6, 6);
    Pow2Add(8, 12);
    Pow2Add(12, 20);
    assert Pow2(6) == 64 && Pow2(8) == 256;
  }

  lemma {:induction false} Pow2Add(a: nat, b: nat)
    ensures Pow2(a + b) == Pow2(a) * Pow2(b)
  {
    if a > 0 {
      Pow2Add(a - 1, b);
      var x, y := Pow2(a - 1), Pow2(b);
      assert (2 * x) * y == 2 * (x * y);
    }
  }

  /** A word with n one bits above k zero bits. */
  function Mask(n: nat, k: nat): nat {
    Pow2Positive(n);
    if k == 0 then Pow2(n) - 1 else 2 * Mask(n, k - 1)
  }

  lemma {:induction false} HalvesOfMod(a: nat, p: nat)
    requires p >= 1
    ensures a % (2 * p) == 2 * ((a / 2) % p) + a % 2
    ensures a / (2 * p) == (a / 2) / p
  {
    var q, r := (a / 2) / p, (a / 2) % p;
    assert a == q * (2 * p) + (2 * r + a % 2);
    DivModUnique(a, 2 * p, q, 2 * r + a % 2);
  }

  lemma MulMonotone(x: nat, y: nat, d: nat)
    requires x <= y
    ensures x * d <= y * d
  {
  }

  lemma DivModUnique(a: nat, d: nat, q: nat, r: nat)
    requires d >= 1 && a == q * d + r && r < d
    ensures a / d == q && a % d == r
  {
    var q', r' := a / d, a % d;
    assert a == q' * d + r';
    if q' < q {
      MulMonotone(q' + 1, q, d);
    } else if q < q' {
      MulMonotone(q + 1, q', d);
    }
  }

  lemma {:induction false} AndMask(a: nat, n: nat, k: nat)
    requires a < Pow2(n + k)
    ensures Pow2(k) >= 1 && BitAnd(a, Mask(n, k)) == a - a % Pow2(k)
  {
    Pow2Positive(k);
    if k == 0 {
      if n > 0 && a > 0 {
        AndMask(a / 2, n - 1, 0);
        assert Mask(n, 0) / 2 == Mask(n - 1, 0);
      }
    } else {
      AndMask(a / 2, n, k - 1);
      HalvesOfMod(a, Pow2(k - 1));
      assert Mask(n, k) / 2 == Mask(n, k - 1);
    }
  }

  /** A 32-bit word read as a signed number. */
  function Signed32(x: u32): int { if x < 0x8000_0000 then x else x - 0x1_0000_0000 }

  /** `/` and `%` of C on a signed dividend: towards zero. */
  function CDiv(a: int, b: int): int
    requires b > 0
  {
    if a >= 0 then a / b else -((-a) / b)
  }

  function CMod(a: int, b: int): int
    requires b > 0
  {
    a - b * CDiv(a, b)
  }

  /** `/` and `%` of C on non-negative operands, for a divisor that is not a literal. */
  function Quot(x: nat, d: nat): nat
    requires d >= 1
  {
    x / d
  }

  function Rest(x: nat, d: nat): (r: nat)
    requires d >= 1
    ensures r < d
  {
    x % d
  }

  lemma QuotRest(x: nat, d: nat)
    requires d >= 1
    ensures x == Quot(x, d) * d + Rest(x, d)
  {
  }

  lemma QuotUnique(x: nat, d: nat, q: nat, r: nat)
    requires d >= 1 && x == q * d + r && r < d
    ensures Quot(x, d) == q && Rest(x, d) == r
  {
    DivModUnique(x, d, q, r);
  }

  /** `entry & 0xfffff000` clears the twelve flag bits. */
  lemma AndPageMask(e: u32)
    ensures BitAnd(e, 0xfffff000) == e - e % PAGE
  {
    PowersUsed();
    assert Mask(20, 12) == 0xfffff000;
    AndMask(e, 20, 12);
  }

  lemma {:induction false} OrLowBits(a: nat, f: nat, g: nat, k: nat)
    requires Pow2(k) >= 1 && a % Pow2(k) == 0 && f < Pow2(k) && g < Pow2(k)
    ensures BitOr(f, g) < Pow2(k)
    ensures BitOr(a + f, g) == a + BitOr(f, g)
  {
    if k > 0 {
      HalvesOfMod(a, Pow2(k - 1));
      OrLowBits(a / 2, f / 2, g / 2, k - 1);
      assert (a + f) / 2 == a / 2 + f / 2;
    }
  }

  lemma {:induction false} OrBound(a: nat, b: nat, k: nat)
    requires a < Pow2(k) && b < Pow2(k)
    ensures BitOr(a, b) < Pow2(k)
  {
    if k > 0 {
      OrBound(a / 2, b / 2, k - 1);
    }
  }

  /** Flags or-ed into a page-aligned address are added to it. */
  lemma OrFlags(a: u32, f: nat, g: nat)
    requires a % PAGE == 0 && f < PAGE && g < PAGE
    ensures BitOr(f, g) < PAGE
    ensures BitOr(a + f, g) == a + BitOr(f, g) < 0x1_0000_0000
    ensures BitOr(a, g) == a + g
  {
    PowersUsed();
    OrLowBits(a, f, g, 12);
    OrLowBits(a, 0, g, 12);
  }

  /** The 4 KiB frame number f of physical memory m. */
  function FrameOf(m: seq<byte>, f: nat): (fr: seq<byte>)
    requires PAGE * f + PAGE <= |m|
    ensures |fr| == PAGE
  {
    m[PAGE * f..PAGE * f + PAGE]
  }

  /** The j-th little-endian 32-bit word of a frame. */
  function Word(fr: seq<byte>, j: nat): u32
    requires 4 * j + 4 <= |fr|
  {
    fr[4 * j] as int + 256 * fr[4 * j + 1] as int + 65536 * fr[4 * j + 2] as int + 16777216 * fr[4 * j + 3] as int
  }
}
