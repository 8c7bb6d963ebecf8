/**
 * Fixed-width unsigned arithmetic as Swift performs it on `UInt32`, over
 * Dafny's unbounded integers. A `UInt32` is an integer in [0, 2^32); Swift's
 * `+` traps on overflow, which the newtype's range check mirrors: every
 * `+` on `UInt32` in the model carries a proof that it stays in range.
 * Bitwise `&` is defined bit by bit on naturals and `~` as `0xFFFF_FFFF - x`.
 */
module Bits {

  const UINT32_MAX: int := 0xFFFF_FFFF

  newtype UInt32 = x: int | 0 <= x <= 0xFFFF_FFFF
  newtype Byte = x: int | 0 <= x < 256

  /** 2 to the power n. */
  function Pow2(n: nat): (r: nat)
    ensures r >= 1
  {
    if n == 0 then 1 else 2 * Pow2(n - 1)
  }

  /** Bit k of x, bit 0 being the least significant one. */
  predicate Bit(x: nat, k: nat)
  {
    if k == 0 then x % 2 == 1 else Bit(x / 2, k - 1)
  }

  /** Bitwise AND of two naturals, least significant bit first. */
  function AndNat(a: nat, b: nat): (r: nat)
    ensures r <= a && r <= b
    decreases a
  {
    if a == 0 || b == 0 then 0
    else 2 * AndNat(a / 2, b / 2) + (if a % 2 == 1 && b % 2 == 1 then 1 else 0)
  }

  /** Swift's `a & b` on `UInt32`. */
  function And(a: UInt32, b: UInt32): (r: UInt32)
    ensures r <= a && r <= b
  {
    AndNat(a as nat, b as nat) as UInt32
  }

  /** Swift's `~a` on `UInt32`: each of the 32 bits flipped. */
  function Not(a: UInt32): UInt32
  {
    (UINT32_MAX - a as int) as UInt32
  }

  /** The netmask of a CIDR prefix of length p: p one bits, then 32 - p zero bits. */
  function PrefixMask(p: nat): (m: UInt32)
    requires p <= 32
    ensures m as int == Pow2(32) - Pow2(32 - p)
  {
    Pow2Monotone(32 - p, 32);
    Pow2Of32();
    (Pow2(32) - Pow2(32 - p)) as UInt32
  }

  // ---------------------------------------------------------------------------
  // Arithmetic facts

  lemma {:induction false} Pow2Add(m: nat, n: nat)
    ensures Pow2(m + n) == Pow2(m) * Pow2(n)
  {
    if m > 0 {
      Pow2Add(m - 1, n);
      assert Pow2(m + n) == 2 * Pow2(m - 1 + n);
    }
  }

  lemma Pow2Of32()
    ensures Pow2(32) == 0x1_0000_0000
  {
    assert Pow2(8) == 256;
    Pow2Add(8, 8);
    Pow2Add(16, 16);
  }

  lemma {:induction false} Pow2Monotone(m: nat, n: nat)
    requires m <= n
    ensures Pow2(m) <= Pow2(n)
  {
    if m < n {
      Pow2Monotone(m, n - 1);
    }
  }

  lemma MulAssociates(x: int, y: int, z: int)
    ensures x * (y * z) == (x * y) * z
  {
  }

  lemma MulDistributes(m: int, x: int, y: int)
    ensures m * (x + y) == m * x + m * y
  {
  }

  lemma MulNonNegative(x: nat, y: nat)
    ensures x * y >= 0
  {
  }

  /** A positive multiple of d is at least d. */
  lemma MulAtLeast(d: int, k: int)
    requires d > 0 && k >= 1
    ensures d * k >= d
  {
  }

  /** Division with remainder has exactly one solution. */
  lemma DivModUnique(a: int, d: int, q: int, r: int)
    requires d > 0 && 0 <= r < d && a == d * q + r
    ensures a / d == q && a % d == r
  {
    var q', r' := a / d, a % d;
    assert a == d * q' + r';
    if q' < q {
      MulDistributes(d, q', q - q');
      MulAtLeast(d, q - q');
    } else if q' > q {
      MulDistributes(d, q, q' - q);
      MulAtLeast(d, q' - q);
    }
  }

  /** Writes a as q * 2^k + r with r < 2^k: the high and the low k bits. */
  lemma {:induction false} SplitPow2(a: nat, k: nat) returns (q: nat, r: nat)
    ensures a == Pow2(k) * q + r && r < Pow2(k)
    decreases k
  {
    if k == 0 {
      q, r := a, 0;
    } else {
      var q', r' := SplitPow2(a / 2, k - 1);
      MulAssociates(2, Pow2(k - 1), q');
      q, r := q', 2 * r' + a % 2;
    }
  }

  /** The split of SplitPow2 is unique. */
  lemma SplitUnique(d: nat, q: nat, r: nat, q': nat, r': nat)
    requires d > 0 && r < d && r' < d && d * q + r == d * q' + r'
    ensures q == q' && r == r'
  {
    if q < q' {
      MulDistributes(d, q, q' - q);
      MulAtLeast(d, q' - q);
    } else if q' < q {
      MulDistributes(d, q', q - q');
      MulAtLeast(d, q - q');
    }
  }

  // ---------------------------------------------------------------------------
  // Bitwise AND

  /** AND is the bit-by-bit conjunction: its reference definition. */
  lemma {:induction false} AndBit(a: nat, b: nat, k: nat)
    ensures Bit(AndNat(a, b), k) <==> Bit(a, k) && Bit(b, k)
    decreases k
  {
    var r := AndNat(a, b);
    if a == 0 || b == 0 {
      assert r == 0;
      ZeroHasNoBits(k);
    } else if k == 0 {
      assert r % 2 == (if a % 2 == 1 && b % 2 == 1 then 1 else 0);
    } else {
      assert r / 2 == AndNat(a / 2, b / 2);
      AndBit(a / 2, b / 2, k - 1);
    }
  }

  lemma {:induction false} ZeroHasNoBits(k: nat)
    ensures !Bit(0, k)
  {
    if k > 0 {
      ZeroHasNoBits(k - 1);
    }
  }

  lemma {:induction false} AndCommutes(a: nat, b: nat)
    ensures AndNat(a, b) == AndNat(b, a)
    decreases a
  {
    if a != 0 && b != 0 {
      AndCommutes(a / 2, b / 2);
    }
  }

  /** AND with an even value halves both operands. */
  lemma AndDoubled(a: nat, c: nat)
    requires a != 0 && c != 0
    ensures AndNat(a, 2 * c) == 2 * AndNat(a / 2, c)
  {
    assert (2 * c) / 2 == c && (2 * c) % 2 == 0;
  }

  /** AND with k low one bits keeps the low k bits. */
  lemma {:induction false} AndLowOnes(q: nat, r: nat, k: nat)
    requires r < Pow2(k)
    ensures AndNat(Pow2(k) * q + r, Pow2(k) - 1) == r
    decreases k
  {
    if k > 0 {
      HalveLowOnes(q, r, k);
      if Pow2(k) * q + r != 0 {
        AndLowOnes(q, r / 2, k - 1);
      }
    }
  }

  /** Halving q * 2^k + r and 2^k - 1, for k > 0. */
  lemma HalveLowOnes(q: nat, r: nat, k: nat)
    requires k > 0 && r < Pow2(k)
    ensures var a, m := Pow2(k) * q + r, Pow2(k) - 1;
      && a / 2 == Pow2(k - 1) * q + r / 2 && a % 2 == r % 2
      && r / 2 < Pow2(k - 1)
      && m != 0 && m / 2 == Pow2(k - 1) - 1 && m % 2 == 1
      && (a == 0 ==> r == 0)
  {
    var p := Pow2(k - 1);
    MulAssociates(2, p, q);
  }

  /** AND with b shifted left by k is the AND of the high parts, shifted left by k. */
  lemma {:induction false} AndShifted(q: nat, r: nat, b: nat, k: nat)
    requires r < Pow2(k)
    ensures AndNat(Pow2(k) * q + r, b * Pow2(k)) == Pow2(k) * AndNat(q, b)
    decreases k
  {
    if k > 0 {
      var a := Pow2(k) * q + r;
      var c := b * Pow2(k - 1);
      HalveSplit(q, r, b, k);
      if a == 0 || c == 0 {
        assert AndNat(q, b) == 0;
      } else {
        AndDoubled(a, c);
        AndShifted(q, r / 2, b, k - 1);
        MulAssociates(2, Pow2(k - 1), AndNat(q, b));
      }
    }
  }

  /** Halving q * 2^k + r and b * 2^k, for k > 0. */
  lemma HalveSplit(q: nat, r: nat, b: nat, k: nat)
    requires k > 0 && r < Pow2(k)
    ensures var a, c := Pow2(k) * q + r, b * Pow2(k - 1);
      && b * Pow2(k) == 2 * c
      && a / 2 == Pow2(k - 1) * q + r / 2
      && r / 2 < Pow2(k - 1)
      && (a == 0 ==> q == 0)
      && (c == 0 ==> b == 0)
  {
    var p := Pow2(k - 1);
    MulAssociates(2, p, q);
    MulAssociates(b, 2, p);
    if q != 0 {
      MulAtLeast(Pow2(k), q);
    }
    if b != 0 {
      MulAtLeast(p, b);
    }
  }

  /** `mask & a` for a prefix mask keeps the network part of a and clears the host part. */
  lemma AndPrefixMask(a: UInt32, p: nat, q: nat, r: nat)
    requires p <= 32 && r < Pow2(32 - p) && a as int == Pow2(32 - p) * q + r
    ensures And(PrefixMask(p), a) as int == Pow2(32 - p) * q
  {
    PrefixMaskShape(p);
    HighPartBound(a, p, q, r);
    AndHighPart(q, r, 32 - p, p);
    AndOfKnown(PrefixMask(p), a, (Pow2(p) - 1) * Pow2(32 - p), Pow2(32 - p) * q + r, Pow2(32 - p) * q);
  }

  /** Transfers a fact about AndNat on the integer values of two UInt32s to And. */
  lemma AndOfKnown(mask: UInt32, a: UInt32, m: int, x: int, y: int)
    requires mask as int == m && a as int == x && AndNat(x, m) == y
    ensures And(mask, a) as int == y
  {
    AndCommutes(m, x);
  }

  /** A prefix mask is p one bits shifted left by 32 - p. */
  lemma PrefixMaskShape(p: nat)
    requires p <= 32
    ensures PrefixMask(p) as int == (Pow2(p) - 1) * Pow2(32 - p)
  {
    Pow2Add(p, 32 - p);
    Pow2Of32();
    MaskShape(Pow2(p), Pow2(32 - p));
  }

  /** The network part of a 32-bit value has at most p bits. */
  lemma HighPartBound(a: UInt32, p: nat, q: nat, r: nat)
    requires p <= 32 && r < Pow2(32 - p) && a as int == Pow2(32 - p) * q + r
    ensures q < Pow2(p)
  {
    Pow2Add(p, 32 - p);
    Pow2Of32();
    QuotientBound(a as int, Pow2(32 - p), Pow2(p), q, r);
  }

  /** The high part q of hp * q + r survives an AND with the mask of p ones followed by h zeros. */
  lemma AndHighPart(q: nat, r: nat, h: nat, p: nat)
    requires r < Pow2(h) && q < Pow2(p)
    ensures AndNat(Pow2(h) * q + r, (Pow2(p) - 1) * Pow2(h)) == Pow2(h) * q
  {
    AndShifted(q, r, Pow2(p) - 1, h);
    AndLowOnes(0, q, p);
    assert Pow2(p) * 0 + q == q;
  }

  lemma MaskShape(pp: int, hp: int)
    ensures pp * hp - hp == (pp - 1) * hp
  {
  }

  lemma QuotientBound(a: int, hp: int, pp: int, q: int, r: int)
    requires hp > 0 && r >= 0 && a == hp * q + r && a < pp * hp
    ensures q < pp
  {
    if q >= pp {
      MulDistributes(hp, pp, q - pp);
      MulNonNegative(hp, q - pp);
    }
  }

  /** `x & 0xFF` is the low byte of x. */
  lemma AndLowByte(x: UInt32)
    ensures And(x, 0xFF) as int == x as int % 256
  {
    assert Pow2(8) == 256;
    AndLowOnes(x as int / 256, x as int % 256, 8);
  }

  /**
   * For a prefix mask, the half-open range [a & mask, (a & mask) + ~mask) holds
   * exactly the values that share a's network part, except the one whose host
   * bits are all set.
   */
  lemma PrefixMaskRange(a: UInt32, d: UInt32, p: nat)
    requires p <= 32
    ensures var first, count := And(PrefixMask(p), a) as int, Not(PrefixMask(p)) as int;
      first <= d as int < first + count
      <==> And(PrefixMask(p), d) == And(PrefixMask(p), a) && d as int != first + count
  {
    var h := 32 - p;
    var hp := Pow2(h);
    var q, r := SplitPow2(a as nat, h);
    var qd, rd := SplitPow2(d as nat, h);
    AndPrefixMask(a, p, q, r);
    AndPrefixMask(d, p, qd, rd);
    Pow2Of32();
    assert Not(PrefixMask(p)) as int == hp - 1;
    RangeOfQuotient(hp, q, qd, rd, d as int);
  }

  /** The arithmetic core of PrefixMaskRange, for the host-part size n = 2^(32-p). */
  lemma RangeOfQuotient(n: int, q: nat, qd: nat, rd: nat, d: int)
    requires n > 0 && rd < n && d == n * qd + rd
    ensures n * q <= d < n * q + n - 1 <==> n * qd == n * q && d != n * q + n - 1
  {
    if n * q <= d < n * q + n - 1 {
      SplitUnique(n, qd, rd, q, d - n * q);
    }
    if n * qd == n * q {
      SplitUnique(n, qd, 0, q, 0);
    }
  }
}
