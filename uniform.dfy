/** The integer core of `random_float`: the 53-bit numerator taken from one
    draw, and the conversion of the double `numerator / 2^53` to a 32-bit
    `float`. Both values are kept as numerators over 2^53; since every nonzero
    value involved is a normal number in both formats, rounding the value to
    a `float` is rounding the numerator to 24 significant bits, ties to even. */
module Uniform {
  import opened Xorshift
  import opened Arith

  /** Significant bits of an IEEE 754 single-precision `float`. */
  const FLOAT_PRECISION: nat := 24

  /** The numerator of 1.0: 2^53. */
  const ONE: nat := 0x20_0000_0000_0000

  /** The number of bits needed to write `m` in binary. */
  function BitLength(m: nat): nat {
    if m == 0 then 0 else 1 + BitLength(m / 2)
  }

  /** A number below 2^n needs at most n bits. */
  lemma {:induction false} BitLengthAtMost(m: nat, n: nat)
    requires m < Pow2(n)
    ensures BitLength(m) <= n
  {
    if m > 0 {
      BitLengthAtMost(m / 2, n - 1);
    }
  }

  /** A number in [2^n, 2^(n+1)) needs exactly n + 1 bits. */
  lemma {:induction false} BitLengthExact(m: nat, n: nat)
    requires Pow2(n) <= m < Pow2(n + 1)
    ensures BitLength(m) == n + 1
  {
    if n > 0 {
      BitLengthExact(m / 2, n - 1);
    }
  }

  /** How many low bits of `m` a `float` cannot hold. */
  function Dropped(m: nat): nat {
    if BitLength(m) <= FLOAT_PRECISION then 0 else BitLength(m) - FLOAT_PRECISION
  }

  /** `m` rounded to a multiple of `p`, to nearest, ties to the even
      multiple: the result is on the grid, within half a step of `m`, and a
      value already on the grid is unchanged. */
  function RoundToMultiple(m: nat, p: nat): (f: nat)
    requires p >= 1
    ensures f % p == 0
    ensures 2 * (if f >= m then f - m else m - f) <= p
    ensures m % p == 0 ==> f == m
  {
    var q, rem := m / p, m % p;
    var k := if 2 * rem > p || (2 * rem == p && q % 2 == 1) then q + 1 else q;
    NearestMultiple(m, p, k);
    k * p
  }

  lemma NearestMultiple(m: nat, p: nat, k: int)
    requires p >= 1
    requires k == if 2 * (m % p) > p || (2 * (m % p) == p && (m / p) % 2 == 1) then m / p + 1 else m / p
    ensures k * p >= 0
    ensures (k * p) % p == 0
    ensures 2 * (if k * p >= m then k * p - m else m - k * p) <= p
    ensures m % p == 0 ==> k * p == m
  {
    var q, rem := m / p, m % p;
    assert m == q * p + rem;
    assert (q + 1) * p == q * p + p;
    DivModUnique(k * p, p, k, 0);
  }

  /** `m` rounded to `FLOAT_PRECISION` significant bits, to nearest, ties to
      even. */
  function RoundToFloat(m: nat): (f: nat)
    ensures f % Pow2(Dropped(m)) == 0
    ensures 2 * (if f >= m then f - m else m - f) <= Pow2(Dropped(m))
    ensures m % Pow2(Dropped(m)) == 0 ==> f == m
  {
    RoundToMultiple(m, Pow2(Dropped(m)))
  }

  /** `next >> 11`: the top 53 bits of a draw, below 2^53. */
  function Numerator(x: bv64): (m: nat)
    ensures m < ONE
  {
    Value(x) / 0x800
  }

  /** `random_float` as written: the numerator over 2^53 of the `float` it
      returns for the draw `x`. The result lies in [0, 1], not [0, 1). */
  function RandomFloat(x: bv64): (f: nat)
    ensures f <= ONE
  {
    RoundedAtMostOne(Numerator(x));
    RoundToFloat(Numerator(x))
  }

  /** A value below 1.0 rounds to a `float` at most 1.0: the `float` grid
      step divides 2^53, so no grid point lies strictly between 1.0 and the
      value plus half a step. */
  lemma RoundedAtMostOne(m: nat)
    requires m < ONE
    ensures RoundToFloat(m) <= ONE
  {
    Pow2Constants();
    BitLengthAtMost(m, 53);
    var d := Dropped(m);
    var p := Pow2(d);
    Pow2Add(53 - d, d);
    var b := Pow2(53 - d);
    assert ONE == b * p;
    var f := RoundToFloat(m);
    if f > ONE {
      NextMultiple(f, b, p);
    }
  }

  lemma Pow2Of8()
    ensures Pow2(8) == 0x100
  {
  }

  lemma Pow2Of29()
    ensures Pow2(29) == 0x2000_0000
  {
    Pow2Of8();
    Pow2Add(8, 8);
    Pow2Add(16, 8);
    Pow2Add(24, 5);
  }

  lemma Pow2Constants()
    ensures Pow2(28) == 0x1000_0000
    ensures Pow2(29) == 0x2000_0000
    ensures Pow2(52) == 0x10_0000_0000_0000
    ensures Pow2(53) == ONE
  {
    Pow2Of8();
    Pow2Of29();
    Pow2Add(8, 8);
    Pow2Add(16, 8);
    Pow2Add(29, 24);
  }

  /** Every draw in the top 2^39 values makes `random_float` return exactly
      1.0: the double lies within half a `float` step of 1.0, and the tie is
      broken towards the even significand of 1.0. */
  lemma RandomFloatReachesOne(x: bv64)
    requires Value(x) >= 0x1_0000_0000_0000_0000 - 0x80_0000_0000
    ensures RandomFloat(x) == ONE
  {
    var m := Numerator(x);
    assert ONE - 0x1000_0000 <= m by {
      assert Value(x) / 0x800 >= ONE - 0x1000_0000;
    }
    TopNumeratorsRoundToOne(m);
  }

  /** A `float` holds every numerator in [2^53 - 2^28, 2^53) as 2^53. */
  lemma TopNumeratorsRoundToOne(m: nat)
    requires ONE - 0x1000_0000 <= m < ONE
    ensures RoundToFloat(m) == ONE
  {
    TopBinadeDrops29(m);
    Pow2Constants();
    assert Pow2(Dropped(m)) == 0x2000_0000;
    RoundTopToOne(m);
  }

  /** Numerators in [2^53 - 2^28, 2^53) have 53 bits, 29 of which a `float` drops. */
  lemma TopBinadeDrops29(m: nat)
    requires ONE - 0x1000_0000 <= m < ONE
    ensures Dropped(m) == 29
  {
    Pow2Constants();
    BitLengthExact(m, 52);
  }

  /** Rounding those numerators to a multiple of 2^29 gives 2^53: they lie at
      or past the midpoint between 2^53 - 2^29 and 2^53, and at the midpoint
      2^53 is the even multiple. */
  lemma RoundTopToOne(m: nat)
    requires ONE - 0x1000_0000 <= m < ONE
    ensures RoundToMultiple(m, 0x2000_0000) == ONE
  {
    var p := 0x2000_0000;
    DivModUnique(m, p, 0xFF_FFFF, m - 0xFF_FFFF * p);
  }

  /** The largest draw is one such input. */
  lemma LargestDrawGivesOne()
    ensures RandomFloat(0xFFFF_FFFF_FFFF_FFFF) == ONE
  {
    RandomFloatReachesOne(0xFFFF_FFFF_FFFF_FFFF);
  }

  /** The corrected `random_float`: it keeps the top 24 bits of the draw
      (`next >> 40`), scaled by 2^-24. The value is already a `float`, so the
      conversion leaves it unchanged, and it stays below 1.0. */
  function RandomFloatBelowOne(x: bv64): (f: nat)
    ensures f < ONE
    ensures RoundToFloat(f) == f
  {
    var k := Value(x) / 0x100_0000_0000;
    Float24Exact(k);
    k * 0x2000_0000
  }

  /** A 24-bit integer scaled by 2^29 is held exactly by a `float`. */
  lemma Float24Exact(k: nat)
    requires k < 0x100_0000
    ensures RoundToFloat(k * 0x2000_0000) == k * 0x2000_0000
  {
    var f := k * 0x2000_0000;
    Pow2Constants();
    BitLengthAtMost(f, 53);
    var d := Dropped(f);
    assert d <= 29;
    Pow2Add(29 - d, d);
    var a := k * Pow2(29 - d);
    MulAssoc(k, Pow2(29 - d), Pow2(d));
    DivModUnique(f, Pow2(d), a, 0);
  }
}
