/** Integer facts the models share: multiplication bounds, the uniqueness of
    quotient and remainder, and powers of two. */
module Arith {

  lemma MulAtLeast(x: int, m: int)
    requires x >= 1 && m > 0
    ensures x * m >= m
  {
  }

  lemma MulSmall(x: int, m: int)
    requires m > 0 && -m < x * m < m
    ensures x == 0
  {
    if x > 0 {
      MulAtLeast(x, m);
    } else if x < 0 {
      MulAtLeast(-x, m);
    }
  }

  /** `a / m` and `a % m` are the only quotient and remainder of `a`. */
  lemma DivModUnique(a: int, m: int, q: int, r: int)
    requires m > 0 && 0 <= r < m && a == q * m + r
    ensures a / m == q && a % m == r
  {
    var q', r' := a / m, a % m;
    assert (q - q') * m == r' - r;
    MulSmall(q - q', m);
  }

  /** A multiple of `m` above `b * m` is at least one step above it. */
  lemma NextMultiple(f: int, b: int, m: int)
    requires m > 0 && f % m == 0 && f > b * m
    ensures f >= b * m + m
  {
    var a := f / m;
    assert f == a * m + f % m;
    assert (a - b) * m == f - b * m;
    if a - b < 1 {
      if a - b < 0 {
        MulAtLeast(b - a, m);
      }
      assert false;
    }
    MulAtLeast(a - b, m);
  }

  lemma MulAssoc(a: int, b: int, c: int)
    ensures a * (b * c) == (a * b) * c
  {
  }

  function Pow2(n: nat): (p: nat)
    ensures p >= 1
  {
    if n == 0 then 1 else 2 * Pow2(n - 1)
  }

  lemma {:induction false} Pow2Add(a: nat, b: nat)
    ensures Pow2(a + b) == Pow2(a) * Pow2(b)
  {
    if a > 0 {
      Pow2Add(a - 1, b);
      assert Pow2(a + b) == 2 * Pow2(a - 1 + b);
    }
  }
}
