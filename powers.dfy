/**
 * The power-of-two helpers of `Utils`: the bit tricks `getNextPowerOfTwo`
 * and `isPowerOfTwo` on Java's 32-bit `int` (held as `bv32`, so
 * `0x8000_0000` is `Integer.MIN_VALUE`), and `correctNumber`, which pads an
 * array of samples with zeroes to a power-of-two length.
 */
module PowersOfTwo {
  import opened Wrappers
  import opened Bits32

  /** The most elements a Java array can hold: `Integer.MAX_VALUE`. */
  const MaxArrayLength: nat := 0x7FFF_FFFF

  /** The natural powers of two `1, 2, 4, 8, …`: the reference for the bit tricks. */
  predicate PowerOfTwo(k: nat)
    decreases k
  {
    k == 1 || (k > 1 && k % 2 == 0 && PowerOfTwo(k / 2))
  }

  /** Two distinct powers of two are at least a factor of two apart. */
  lemma {:induction false} PowersOfTwoApart(p: nat, q: nat)
    requires PowerOfTwo(p) && PowerOfTwo(q) && q < p
    ensures 2 * q <= p
    decreases p
  {
    if q != 1 {
      PowersOfTwoApart(p / 2, q / 2);
    }
  }

  lemma PowerOfTwoDouble(k: nat)
    requires k >= 1
    ensures PowerOfTwo(2 * k) <==> PowerOfTwo(k)
    ensures !PowerOfTwo(2 * k + 1)
  {
    assert (2 * k) / 2 == k;
  }

  /** The bit test on `x` against the bit test on `x >> 1`. */
  lemma SingleBitHalves(x: bv32, h: bv32)
    requires x > 1 && h == x >> 1
    ensures h != 0 && h < x
    ensures x & 1 == 1 ==> x & (x - 1) != 0
    ensures x & 1 == 0 ==> (x & (x - 1) == 0 <==> h & (h - 1) == 0)
  {
  }

  /** A nonzero `x` passes the bit test `x & (x - 1) == 0` exactly when its value is a power of two. */
  lemma {:induction false} SingleBitValue(x: bv32)
    ensures (x != 0 && x & (x - 1) == 0) <==> PowerOfTwo(ToNat(x))
    decreases x
  {
    if x == 0 {
    } else if x == 1 {
      assert ToNat(x) == 1;
    } else {
      var h := x >> 1;
      SingleBitHalves(x, h);
      ToNatHalves(x);
      ToNatPositive(h);
      PowerOfTwoDouble(ToNat(h));
      if x & 1 == 0 {
        SingleBitValue(h);
      }
    }
  }

  /** The least power of two that is at least `len`: what padding to a power-of-two length aims for. */
  predicate LeastPowerOfTwoAtLeast(p: nat, len: nat)
  {
    PowerOfTwo(p) && len <= p && forall q: nat :: PowerOfTwo(q) && len <= q ==> p <= q
  }

  /** A power of two below twice `len` is the least one at least `len`. */
  lemma PowerOfTwoBelowDouble(p: nat, len: nat)
    requires PowerOfTwo(p) && len <= p < 2 * len
    ensures LeastPowerOfTwoAtLeast(p, len)
  {
    forall q: nat | PowerOfTwo(q) && len <= q
      ensures p <= q
    {
      if q < p {
        PowersOfTwoApart(p, q);
      }
    }
  }

  /**
   * The five or-shift steps of `getNextPowerOfTwo`: every bit below the
   * highest set bit of `x` gets set. For a non-negative `x` the result plus
   * one is a single bit just above the highest bit of `x`; for a negative
   * `x` the result is all ones.
   */
  method Smear(x: bv32) returns (m: bv32)
    ensures x & 0x8000_0000 == 0 ==>
              m + 1 != 0 && (m + 1) & m == 0 && x & m == x &&
              (if x == 0 then m == 0 else x & ((m + 1) >> 1) != 0)
    ensures x & 0x8000_0000 != 0 ==> m + 1 == 0
  {
    m := x;
    m := m | (m >> 1);
    m := m | (m >> 2);
    m := m | (m >> 4);
    m := m | (m >> 8);
    m := m | (m >> 16);
  }

  lemma IncrementSingleBit(m: bv32, r: bv32)
    requires m + 1 != 0 && (m + 1) & m == 0 && r == m + 1
    ensures r != 0 && r & (r - 1) == 0
  {
  }

  lemma IncrementAbove(x: bv32, m: bv32, r: bv32)
    requires x & m == x && r == m + 1
    ensures x & (r - 1) == x
  {
  }

  lemma IncrementNextBit(x: bv32, m: bv32, r: bv32)
    requires if x == 0 then m == 0 else x & ((m + 1) >> 1) != 0
    requires r == m + 1
    ensures if x == 0 then r == 1 else x & (r >> 1) != 0
  {
  }

  /** What the smear promises about `x` carries over to the incremented result. */
  lemma SmearRoundsUp(x: bv32, m: bv32, r: bv32)
    requires m + 1 != 0 && (m + 1) & m == 0 && x & m == x
    requires if x == 0 then m == 0 else x & ((m + 1) >> 1) != 0
    requires r == m + 1
    ensures RoundsUp(x, r)
  {
    IncrementSingleBit(m, r);
    IncrementAbove(x, m, r);
    IncrementNextBit(x, m, r);
  }

  /**
   * `r` is what `getNextPowerOfTwo` makes of `n` when `x = n - 1` is a
   * non-negative Java int: a single bit, above every bit of `x`, and
   * (unless `x` is 0) with the next lower bit set in `x`.
   */
  predicate RoundsUp(x: bv32, r: bv32)
  {
    r != 0 && r & (r - 1) == 0 && x & (r - 1) == x &&
    (if x == 0 then r == 1 else x & (r >> 1) != 0)
  }

  /** The outcome of `getNextPowerOfTwo(n)`, by the sign of `n - 1` as a Java int. */
  predicate NextPowerOfTwoOf(n: bv32, r: bv32)
  {
    var x := n - 1;
    (x & 0x8000_0000 == 0 ==> RoundsUp(x, r)) && (x & 0x8000_0000 != 0 ==> r == 0)
  }

  /**
   * Java's `getNextPowerOfTwo`: decrement, smear, increment. When `n - 1`
   * is a non-negative int (`n` from 1 to `Integer.MAX_VALUE`, and
   * `Integer.MIN_VALUE`) the result rounds `n` up; when it is negative
   * (`n` zero or negative) the result wraps round to zero.
   */
  method NextPowerOfTwo(n: bv32) returns (r: bv32)
    ensures NextPowerOfTwoOf(n, r)
  {
    var x := n - 1;
    var m := Smear(x);
    r := m + 1;
    if x & 0x8000_0000 == 0 {
      SmearRoundsUp(x, m, r);
    }
  }

  /** Java's `isPowerOfTwo`: the bit test picks out exactly the powers of two. */
  function IsPowerOfTwo(n: bv32): (b: bool)
    ensures b <==> PowerOfTwo(ToNat(n))
  {
    SingleBitValue(n);
    n != 0 && n & (n - 1) == 0
  }

  /** The bits of a length from 1 to `2^31`, less one, form a non-negative int worth one less. */
  lemma PositiveLength(len: nat)
    requires 1 <= len <= 0x8000_0000
    ensures FromNat(len) - 1 == FromNat(len - 1)
    ensures ToNat(FromNat(len - 1)) == len - 1
    ensures (FromNat(len) - 1) & 0x8000_0000 == 0
  {
    FromNatDecrement(len);
    ToNatFromNat(len - 1);
    SignBitClear(FromNat(len - 1));
  }

  lemma SingleBitAboveOne(r: bv32)
    requires r != 0 && r != 1 && r & (r - 1) == 0
    ensures r >> 1 != 0 && (r >> 1) & ((r >> 1) - 1) == 0 && r & 1 == 0
  {
    HalveSingleBit(0, r);
  }

  /** Rounding `x = len - 1` up gives a power of two in `[len, 2 * len)`. */
  lemma RoundsUpBounds(len: nat, x: bv32, r: bv32)
    requires len >= 1 && ToNat(x) == len - 1 && RoundsUp(x, r)
    ensures PowerOfTwo(ToNat(r)) && len <= ToNat(r) < 2 * len
  {
    SingleBitValue(r);
    BelowSingleBit(x, r);
    if r != 1 {
      var h := r >> 1;
      SingleBitAboveOne(r);
      AtLeastSetBit(x, h);
      ToNatHalves(r);
    }
  }

  lemma SignBitSingle(r: bv32)
    requires r != 0 && r & (r - 1) == 0
    ensures r & 0x8000_0000 != 0 ==> r == 0x8000_0000
    ensures r & 0x8000_0000 == 0 ==> r & (0x8000_0000 - 1) == r
  {
  }

  /** A rounded-up length is negative as a Java int exactly when the length exceeds `2^30`. */
  lemma RoundsUpSign(len: nat, r: bv32)
    requires 1 <= len <= 0x8000_0000 && r != 0 && r & (r - 1) == 0
    requires PowerOfTwo(ToNat(r)) && len <= ToNat(r) < 2 * len
    ensures r & 0x8000_0000 != 0 <==> len > 0x4000_0000
  {
    SignBitValue();
    SignBitSingle(r);
    if r & 0x8000_0000 == 0 {
      BelowSingleBit(r, 0x8000_0000);
      if len > 0x4000_0000 {
        SingleBitValue(0x8000_0000);
        PowersOfTwoApart(0x8000_0000, ToNat(r));
      }
    }
  }

  /**
   * For a length up to `Integer.MAX_VALUE`, `getNextPowerOfTwo` gives the
   * least power of two at least the length (zero for zero), and that value
   * is negative as a Java int exactly when the length exceeds `2^30`.
   */
  lemma PaddedLength(len: nat, r: bv32)
    requires len <= MaxArrayLength && NextPowerOfTwoOf(FromNat(len), r)
    ensures len == 0 ==> r == 0
    ensures len > 0 ==> LeastPowerOfTwoAtLeast(ToNat(r), len)
    ensures r & 0x8000_0000 != 0 <==> len > 0x4000_0000
  {
    var x := FromNat(len) - 1;
    if len == 0 {
      assert x == 0xFFFF_FFFF;
    } else {
      PositiveLength(len);
      RoundsUpBounds(len, x, r);
      RoundsUpSign(len, r);
      PowerOfTwoBelowDouble(ToNat(r), len);
    }
  }

  /**
   * The second half of `correctNumber`: a fresh array of `size` zeroes with
   * `values` copied over its front (`System.arraycopy`), and the rest of it
   * set to zero once more by the explicit loop.
   */
  method PadWithZeroes(values: array<real>, size: nat) returns (padded: array<real>)
    requires values.Length <= size
    ensures fresh(padded) && padded.Length == size
    ensures padded[..values.Length] == values[..]
    ensures forall i :: values.Length <= i < size ==> padded[i] == 0.0
  {
    padded := new real[size](_ => 0.0);
    forall i | 0 <= i < values.Length {
      padded[i] := values[i];
    }
    var i := values.Length;
    while i < padded.Length
      invariant values.Length <= i <= padded.Length
      invariant padded[..values.Length] == values[..]
      invariant forall k :: values.Length <= k < i ==> padded[k] == 0.0
    {
      padded[i] := 0.0;
      i := i + 1;
    }
  }

  /**
   * Java's `correctNumber`: an array whose length is a power of two is
   * returned itself; any other array is copied into a fresh one of the
   * least power-of-two length at least its own, padded with zeroes. Above
   * `2^30` elements the rounded length is `Integer.MIN_VALUE` and the
   * allocation fails (`NegativeArraySizeException`): `None`.
   */
  method CorrectNumber(values: array<real>) returns (r: Option<array<real>>)
    requires values.Length <= MaxArrayLength
    ensures PowerOfTwo(values.Length) ==> r == Some(values)
    ensures !PowerOfTwo(values.Length) && values.Length > 0x4000_0000 ==> r == None
    ensures !PowerOfTwo(values.Length) && values.Length <= 0x4000_0000 ==>
              r.Some? && fresh(r.value) &&
              (if values.Length == 0 then r.value.Length == 0
               else LeastPowerOfTwoAtLeast(r.value.Length, values.Length)) &&
              r.value.Length >= values.Length &&
              r.value[..values.Length] == values[..] &&
              forall i :: values.Length <= i < r.value.Length ==> r.value[i] == 0.0
  {
    var len := FromNat(values.Length);
    ToNatFromNat(values.Length);
    if IsPowerOfTwo(len) {
      return Some(values);
    }
    var goodLength := NextPowerOfTwo(len);
    PaddedLength(values.Length, goodLength);
    if goodLength & 0x8000_0000 != 0 {
      return None;
    }
    var goodArray := PadWithZeroes(values, ToNat(goodLength));
    return Some(goodArray);
  }
}
