/** Unsigned machine integers as numbers: wrap-around and the bitwise operators of C. */
module MachineInts {

  const TWO_64: nat := 0x1_0000_0000_0000_0000
  const TWO_32: nat := 0x1_0000_0000

  type U64 = x: int | 0 <= x < TWO_64
  type U32 = x: int | 0 <= x < TWO_32
  type Byte = x: int | 0 <= x < 256

  /** Reduction modulo 2^64, as C does for uint64_t. */
  function Wrap(x: int): U64 {
    x % TWO_64
  }

  function Pow2(k: nat): (p: nat)
    ensures p > 0
  {
    if k == 0 then 1 else 2 * Pow2(k - 1)
  }

  lemma Pow2Values()
    ensures Pow2(12) == 0x1000 && Pow2(21) == 0x20_0000 && Pow2(30) == 0x4000_0000
    ensures Pow2(39) == 0x80_0000_0000 && Pow2(40) == 0x100_0000_0000 && Pow2(64) == TWO_64
  {
    assert Pow2(6) == 64;
    assert Pow2(12) == 0x1000;
    assert Pow2(21) == 512 * Pow2(12);
    assert Pow2(30) == 512 * Pow2(21);
    assert Pow2(39) == 512 * Pow2(30);
    assert Pow2(48) == 512 * Pow2(39);
    assert Pow2(56) == 256 * Pow2(48);
    assert Pow2(64) == 256 * Pow2(56);
  }

  function Pow256(k: nat): (p: nat)
    ensures p > 0
  {
    if k == 0 then 1 else 256 * Pow256(k - 1)
  }

  lemma Pow256Of8()
    ensures Pow256(8) == TWO_64
  {
    assert Pow256(4) == TWO_32;
    assert Pow256(8) == 256 * 256 * 256 * 256 * Pow256(4);
  }

  /** Bitwise `x & y`. */
  function BitAnd(x: nat, y: nat): (r: nat)
    ensures r <= x && r <= y
  {
    if x == 0 || y == 0 then 0
    else 2 * BitAnd(x / 2, y / 2) + (if x % 2 == 1 && y % 2 == 1 then 1 else 0)
  }

  /** Bitwise `x | y`. */
  function BitOr(x: nat, y: nat): (r: nat)
    ensures r <= x + y
    decreases x + y
  {
    if x == 0 then y else if y == 0 then x
    else 2 * BitOr(x / 2, y / 2) + (if x % 2 == 1 || y % 2 == 1 then 1 else 0)
  }

  /** Bit k of a number. */
  predicate Bit(x: nat, k: nat) {
    x / Pow2(k) % 2 == 1
  }

  lemma BitShift(x: nat, k: nat)
    requires k > 0
    ensures Bit(x, k) == Bit(x / 2, k - 1)
  {
    HalvedMod(x, Pow2(k - 1));
  }

  lemma LowestBit(x: nat)
    ensures Bit(x, 0) <==> x % 2 == 1
  {
  }

  /** `x & y` has the bits that both have. */
  lemma {:induction false} AndBit(x: nat, y: nat, k: nat)
    ensures Bit(BitAnd(x, y), k) <==> Bit(x, k) && Bit(y, k)
  {
    hide Bit;
    AndHalves(x, y);
    if k == 0 {
      LowestBit(x);
      LowestBit(y);
      LowestBit(BitAnd(x, y));
    } else {
      BitShift(x, k);
      BitShift(y, k);
      BitShift(BitAnd(x, y), k);
      AndBit(x / 2, y / 2, k - 1);
    }
  }

  lemma AndHalves(x: nat, y: nat)
    ensures BitAnd(x, y) / 2 == BitAnd(x / 2, y / 2) && (BitAnd(x, y) % 2 == 1 <==> x % 2 == 1 && y % 2 == 1)
  {
  }

  /** `x | y` has the bits that either has. */
  lemma {:induction false} OrBit(x: nat, y: nat, k: nat)
    ensures Bit(BitOr(x, y), k) <==> Bit(x, k) || Bit(y, k)
  {
    hide Bit;
    OrHalves(x, y);
    if k == 0 {
      LowestBit(x);
      LowestBit(y);
      LowestBit(BitOr(x, y));
    } else {
      BitShift(x, k);
      BitShift(y, k);
      BitShift(BitOr(x, y), k);
      OrBit(x / 2, y / 2, k - 1);
    }
  }

  lemma OrHalves(x: nat, y: nat)
    ensures BitOr(x, y) / 2 == BitOr(x / 2, y / 2) && (BitOr(x, y) % 2 == 1 <==> x % 2 == 1 || y % 2 == 1)
  {
  }

  /** Numbers with the same bits are the same. */
  lemma {:induction false} SameBits(x: nat, y: nat, n: nat)
    requires x < Pow2(n) && y < Pow2(n) && forall k :: 0 <= k < n ==> (Bit(x, k) <==> Bit(y, k))
    ensures x == y
  {
    hide Bit;
    if n > 0 {
      LowestBit(x);
      LowestBit(y);
      assert Bit(x, 0) <==> Bit(y, 0);
      forall k | 0 <= k < n - 1
        ensures Bit(x / 2, k) <==> Bit(y / 2, k)
      {
        BitShift(x, k + 1);
        BitShift(y, k + 1);
        assert Bit(x, k + 1) <==> Bit(y, k + 1);
      }
      SameBits(x / 2, y / 2, n - 1);
    }
  }

  /** `held & needed == needed`, as C code tests for a set of rights: every needed bit is held. */
  lemma MaskIsSubset(held: U32, needed: U32)
    ensures BitAnd(held, needed) == needed <==> forall k :: 0 <= k < 32 && Bit(needed, k) ==> Bit(held, k)
  {
    hide Bit, BitAnd;
    Pow2Of32();
    forall k: nat
      ensures Bit(BitAnd(held, needed), k) <==> Bit(held, k) && Bit(needed, k)
    {
      AndBit(held, needed, k);
    }
    if forall k :: 0 <= k < 32 && Bit(needed, k) ==> Bit(held, k) {
      SameBits(BitAnd(held, needed), needed, 32);
    }
  }

  /** `x & 2^k != 0` tests bit k. */
  lemma MaskIsBit(x: nat, k: nat)
    ensures BitAnd(x, Pow2(k)) != 0 <==> Bit(x, k)
  {
    hide Bit;
    OneBit(x, k);
  }

  lemma {:induction false} OneBit(x: nat, k: nat)
    ensures BitAnd(x, Pow2(k)) == if Bit(x, k) then Pow2(k) else 0
  {
    hide Bit;
    if k == 0 {
      LowestBit(x);
      AndOddMask(x, 0);
      AndZero(x / 2);
    } else {
      BitShift(x, k);
      OneBit(x / 2, k - 1);
      AndEvenMask(x, Pow2(k - 1));
    }
  }

  lemma Pow2Of32()
    ensures Pow2(32) == TWO_32
  {
    assert Pow2(8) == 256;
    assert Pow2(16) == 256 * Pow2(8);
    assert Pow2(24) == 256 * Pow2(16);
    assert Pow2(32) == 256 * Pow2(24);
  }

  /** Division with remainder is unique. */
  lemma ModIs(x: int, m: int, q: int, r: int)
    requires m > 0 && 0 <= r < m && x == q * m + r
    ensures x / m == q && x % m == r
  {
    var d := q - x / m;
    assert d * m == x % m - r;
    if d >= 1 {
      AtLeast(d, m);
    }
  }

  /** Adding a multiple of the divisor shifts the quotient and keeps the remainder. */
  lemma DivShift(e: nat, k: nat, u: nat, f: nat)
    requires u > 0 && e == k * u + f
    ensures e / u == k + f / u && e % u == f % u
  {
    assert f == f / u * u + f % u;
    assert (k + f / u) * u == k * u + f / u * u;
    ModIs(e, u, k + f / u, f % u);
  }

  lemma AtLeast(d: int, m: int)
    requires d >= 1 && m > 0
    ensures d * m >= m
  {
  }

  /** Masking with 2^k - 1 keeps the low k bits. */
  lemma {:induction false} AndLowMask(x: nat, k: nat)
    ensures BitAnd(x, Pow2(k) - 1) == x % Pow2(k)
  {
    hide BitAnd;
    if k == 0 {
      AndZero(x);
    } else {
      var m := Pow2(k - 1);
      AndLowMask(x / 2, k - 1);
      AndOddMask(x, m - 1);
      HalvedMod(x, m);
    }
  }

  lemma AndZero(x: nat)
    ensures BitAnd(x, 0) == 0
  {
  }

  lemma AndOddMask(x: nat, y: nat)
    ensures BitAnd(x, 2 * y + 1) == 2 * BitAnd(x / 2, y) + x % 2
  {
    if x > 0 {
      AndStep(x, 2 * y + 1);
      assert (2 * y + 1) / 2 == y && (2 * y + 1) % 2 == 1;
    }
  }

  lemma HalvedMod(x: nat, m: nat)
    requires m > 0
    ensures x % (2 * m) == 2 * ((x / 2) % m) + x % 2
    ensures x / (2 * m) == (x / 2) / m
  {
    var q, r := x / 2 / m, x / 2 % m;
    assert x / 2 == q * m + r;
    assert x == q * (2 * m) + (2 * r + x % 2) by {
      assert 2 * (q * m) == q * (2 * m);
    }
    ModIs(x, 2 * m, q, 2 * r + x % 2);
  }

  /** `x << k` before any truncation. */
  function Shl(x: nat, k: nat): nat {
    if k == 0 then x else 2 * Shl(x, k - 1)
  }

  /** `x >> k`. */
  function Shr(x: nat, k: nat): nat {
    if k == 0 then x else Shr(x / 2, k - 1)
  }

  lemma ShiftsArePowers(x: nat, k: nat)
    ensures Shl(x, k) == x * Pow2(k) && Shr(x, k) == x / Pow2(k)
  {
    ShlIsPower(x, k);
    ShrIsPower(x, k);
  }

  lemma {:induction false} ShlIsPower(x: nat, k: nat)
    ensures Shl(x, k) == x * Pow2(k)
  {
    if k > 0 {
      ShlIsPower(x, k - 1);
      assert 2 * (x * Pow2(k - 1)) == x * (2 * Pow2(k - 1));
    }
  }

  lemma {:induction false} ShrIsPower(x: nat, k: nat)
    ensures Shr(x, k) == x / Pow2(k)
  {
    if k > 0 {
      ShrIsPower(x / 2, k - 1);
      HalvedMod(x, Pow2(k - 1));
    }
  }

  /** A mask whose k low bits are clear selects from the bits above them. */
  lemma {:induction false} AndHighMask(x: nat, m: nat, k: nat)
    ensures BitAnd(x, Shl(m, k)) == Shl(BitAnd(Shr(x, k), m), k)
  {
    if k > 0 {
      AndHighMask(x / 2, m, k - 1);
      AndEvenMask(x, Shl(m, k - 1));
    }
  }

  lemma AndEvenMask(x: nat, y: nat)
    ensures BitAnd(x, 2 * y) == 2 * BitAnd(x / 2, y)
  {
    if x > 0 && y > 0 {
      AndStep(x, 2 * y);
      assert 2 * y / 2 == y && 2 * y % 2 == 0;
    }
  }

  lemma AndStep(x: nat, y: nat)
    requires x > 0 && y > 0
    ensures BitAnd(x, y) == 2 * BitAnd(x / 2, y / 2) + (if x % 2 == 1 && y % 2 == 1 then 1 else 0)
  {
  }

  /** Setting bits in a clear low field is addition. */
  lemma {:induction false} OrDisjoint(a: nat, c: nat, k: nat)
    requires c < Pow2(k)
    ensures BitOr(Shl(a, k), c) == Shl(a, k) + c
  {
    if k > 0 {
      OrDisjoint(a, c / 2, k - 1);
      OrEven(Shl(a, k - 1), c);
    }
  }

  lemma OrEven(x: nat, c: nat)
    ensures BitOr(2 * x, c) == 2 * BitOr(x, c / 2) + c % 2
  {
  }

  lemma {:induction false} OrBound(x: nat, y: nat, k: nat)
    requires x < Pow2(k) && y < Pow2(k)
    ensures BitOr(x, y) < Pow2(k)
  {
    if x > 0 && y > 0 {
      OrBound(x / 2, y / 2, k - 1);
    }
  }

  /** `x | y` on uint64_t. */
  function Or64(x: U64, y: U64): (r: U64)
    ensures r == BitOr(x, y)
  {
    Pow2Values();
    OrBound(x, y, 64);
    BitOr(x, y)
  }
}
