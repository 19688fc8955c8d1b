/**
 * Java's 32-bit `int` as the 32 bits that hold it (`bv32`), and the
 * conversions between those bits and the natural numbers they denote.
 * The proofs keep facts about bits and facts about numbers in separate
 * small lemmas: the solver handles each kind quickly on its own.
 */
module Bits32 {
  /** The unsigned value of the bits of `x`. */
  function ToNat(x: bv32): nat
    decreases x
  {
    if x == 0 then 0 else 2 * ToNat(x >> 1) + (if x & 1 == 1 then 1 else 0)
  }

  /** The 32 bits of a natural number below `2^32`. */
  function FromNat(n: nat): bv32
    requires n < 0x1_0000_0000
    decreases n
  {
    if n == 0 then 0 else (FromNat(n / 2) << 1) | (if n % 2 == 1 then 1 else 0)
  }

  lemma ToNatHalves(x: bv32)
    ensures ToNat(x) == 2 * ToNat(x >> 1) + (if x & 1 == 1 then 1 else 0)
  {
    if x == 0 {
      assert x >> 1 == 0 && x & 1 == 0;
    }
  }

  /** Only the all-zero bits denote zero. */
  lemma {:induction false} ToNatPositive(x: bv32)
    requires x != 0
    ensures ToNat(x) >= 1
    decreases x
  {
    if x & 1 == 0 {
      assert x >> 1 != 0 && x >> 1 < x;
      ToNatPositive(x >> 1);
    }
  }

  lemma HalveSingleBit(x: bv32, mask: bv32)
    requires mask != 0 && mask != 1 && mask & (mask - 1) == 0
    ensures mask & 1 == 0 && mask >> 1 != 0 && (mask >> 1) & ((mask >> 1) - 1) == 0
    ensures x & mask != 0 ==> (x >> 1) & (mask >> 1) != 0
    ensures x & (mask - 1) == x ==> (x >> 1) & ((mask >> 1) - 1) == x >> 1
  {
  }

  /** A value with the single bit `mask` set is at least `mask`. */
  lemma {:induction false} AtLeastSetBit(x: bv32, mask: bv32)
    requires mask != 0 && mask & (mask - 1) == 0 && x & mask != 0
    ensures ToNat(x) >= ToNat(mask)
    decreases mask
  {
    if mask != 1 {
      HalveSingleBit(x, mask);
      AtLeastSetBit(x >> 1, mask >> 1);
    }
  }

  /** A value whose bits all lie below the single bit `mask` is smaller than `mask`. */
  lemma {:induction false} BelowSingleBit(x: bv32, mask: bv32)
    requires mask != 0 && mask & (mask - 1) == 0 && x & (mask - 1) == x
    ensures ToNat(x) < ToNat(mask)
    decreases mask
  {
    if mask != 1 {
      HalveSingleBit(x, mask);
      BelowSingleBit(x >> 1, mask >> 1);
    }
  }

  /** The sign bit of a Java int is worth `2^31`, evaluated one doubling at a time. */
  lemma SignBitValue()
    ensures ToNat(0x8000_0000) == 0x8000_0000
  {
    assert ToNat(0x1) == 0x1;
    assert ToNat(0x2) == 0x2;
    assert ToNat(0x4) == 0x4;
    assert ToNat(0x8) == 0x8;
    assert ToNat(0x10) == 0x10;
    assert ToNat(0x20) == 0x20;
    assert ToNat(0x40) == 0x40;
    assert ToNat(0x80) == 0x80;
    assert ToNat(0x100) == 0x100;
    assert ToNat(0x200) == 0x200;
    assert ToNat(0x400) == 0x400;
    assert ToNat(0x800) == 0x800;
    assert ToNat(0x1000) == 0x1000;
    assert ToNat(0x2000) == 0x2000;
    assert ToNat(0x4000) == 0x4000;
    assert ToNat(0x8000) == 0x8000;
    assert ToNat(0x1_0000) == 0x1_0000;
    assert ToNat(0x2_0000) == 0x2_0000;
    assert ToNat(0x4_0000) == 0x4_0000;
    assert ToNat(0x8_0000) == 0x8_0000;
    assert ToNat(0x10_0000) == 0x10_0000;
    assert ToNat(0x20_0000) == 0x20_0000;
    assert ToNat(0x40_0000) == 0x40_0000;
    assert ToNat(0x80_0000) == 0x80_0000;
    assert ToNat(0x100_0000) == 0x100_0000;
    assert ToNat(0x200_0000) == 0x200_0000;
    assert ToNat(0x400_0000) == 0x400_0000;
    assert ToNat(0x800_0000) == 0x800_0000;
    assert ToNat(0x1000_0000) == 0x1000_0000;
    assert ToNat(0x2000_0000) == 0x2000_0000;
    assert ToNat(0x4000_0000) == 0x4000_0000;
  }

  /** A value below `2^31` has its sign bit clear. */
  lemma SignBitClear(x: bv32)
    requires ToNat(x) < 0x8000_0000
    ensures x & 0x8000_0000 == 0
  {
    if x & 0x8000_0000 != 0 {
      AtLeastSetBit(x, 0x8000_0000);
      SignBitValue();
    }
  }

  lemma AppendBit(h: bv32, b: bv32)
    requires h & 0x8000_0000 == 0 && (b == 0 || b == 1)
    ensures ((h << 1) | b) >> 1 == h && ((h << 1) | b) & 1 == b
    ensures (h << 1) | b == 0 <==> h == 0 && b == 0
  {
  }

  /** Shifting in a low bit doubles the value and adds the bit, as long as nothing falls off the top. */
  lemma AppendBitValue(h: bv32, b: bv32)
    requires ToNat(h) < 0x8000_0000 && (b == 0 || b == 1)
    ensures ToNat((h << 1) | b) == 2 * ToNat(h) + (if b == 1 then 1 else 0)
  {
    SignBitClear(h);
    AppendBit(h, b);
    ToNatHalves((h << 1) | b);
  }

  lemma FromNatUnfold(n: nat, h: bv32, b: bv32)
    requires 1 <= n < 0x1_0000_0000 && h == FromNat(n / 2)
    requires b == if n % 2 == 1 then 1 else 0
    ensures FromNat(n) == (h << 1) | b
  {
  }

  lemma HalfAndBit(n: nat, b: bv32)
    requires b == if n % 2 == 1 then 1 else 0
    ensures n == 2 * (n / 2) + (if b == 1 then 1 else 0)
  {
  }

  lemma FromNatStep(n: nat, h: bv32, b: bv32)
    requires 1 <= n < 0x1_0000_0000 && h == FromNat(n / 2) && ToNat(h) == n / 2
    requires b == if n % 2 == 1 then 1 else 0
    ensures ToNat(FromNat(n)) == n
  {
    FromNatUnfold(n, h, b);
    HalfAndBit(n, b);
    AppendBitValue(h, b);
  }

  /** Reading back the bits of a number gives the number. */
  lemma {:induction false} ToNatFromNat(n: nat)
    requires n < 0x1_0000_0000
    ensures ToNat(FromNat(n)) == n
    decreases n
  {
    if n > 0 {
      ToNatFromNat(n / 2);
      FromNatStep(n, FromNat(n / 2), if n % 2 == 1 then 1 else 0);
    }
  }

  lemma DropLowBit(h: bv32)
    ensures ((h << 1) | 1) - 1 == (h << 1) | 0
  {
  }

  lemma BorrowLowBit(h: bv32)
    requires h != 0
    ensures ((h << 1) | 0) - 1 == ((h - 1) << 1) | 1
  {
  }

  /** Subtracting one from the bits of `n` gives the bits of `n - 1`. */
  lemma {:induction false} FromNatDecrement(n: nat)
    requires 1 <= n < 0x1_0000_0000
    ensures FromNat(n) - 1 == FromNat(n - 1)
    decreases n
  {
    var h := FromNat(n / 2);
    if n % 2 == 1 {
      assert (n - 1) / 2 == n / 2;
      DropLowBit(h);
    } else {
      assert (n - 1) / 2 == n / 2 - 1;
      ToNatFromNat(n / 2);
      FromNatDecrement(n / 2);
      BorrowLowBit(h);
    }
  }
}
