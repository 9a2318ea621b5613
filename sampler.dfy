/** The unbiased bounded-integer sampler `random_int_high_precision`: order
    the bounds, compute the 64-bit span and the rejection limit, draw raw
    64-bit values until one falls below the limit, and map it into the
    interval with a remainder. `int` arguments are 32-bit; `uint64_t`
    arithmetic is written out modulo 2^64 on `int`. */
module Sampler {
  import opened Xorshift
  import opened Arith

  const TWO64: int := 0x1_0000_0000_0000_0000
  const UINT64_MAX: int := 0xFFFF_FFFF_FFFF_FFFF

  /** C's 32-bit `int`. */
  type Int32 = x: int | -0x8000_0000 <= x < 0x8000_0000

  datatype Option<T> = None | Some(value: T)

  /** The bounds in ascending order: the swap done when `min > max`. */
  function Ordered(min: Int32, max: Int32): (b: (Int32, Int32))
    ensures b.0 <= b.1
    ensures {b.0, b.1} == {min, max}
  {
    if min > max then (max, min) else (min, max)
  }

  /** The conversion of an `int` to `uint64_t`: reduction modulo 2^64. */
  function ToU64(x: Int32): (u: U64)
    ensures x >= 0 ==> u == x
    ensures x < 0 ==> u == x + TWO64
  {
    x % TWO64
  }

  /** `(uint64_t)max - min + 1`, every operation wrapping modulo 2^64. */
  function Range(lo: Int32, hi: Int32): U64 {
    ((ToU64(hi) - ToU64(lo)) % TWO64 + 1) % TWO64
  }

  /** For ordered 32-bit bounds the wrapped span is the true span, between 1
      and 2^32, so the `range == 0` fallback is never taken. */
  lemma RangeExact(lo: Int32, hi: Int32)
    requires lo <= hi
    ensures Range(lo, hi) == hi - lo + 1
    ensures 1 <= Range(lo, hi) <= 0x1_0000_0000
  {
  }

  /** `UINT64_MAX - (UINT64_MAX % range)`: the largest multiple of `range`
      not above `UINT64_MAX`. */
  function Limit(range: U64): (limit: U64)
    requires range > 0
    ensures limit % range == 0
    ensures 0 < limit <= UINT64_MAX
    ensures UINT64_MAX - range < limit
  {
    var q := UINT64_MAX / range;
    assert UINT64_MAX - UINT64_MAX % range == q * range;
    DivModUnique(q * range, range, q, 0);
    MulAtLeast(q, range);
    UINT64_MAX - UINT64_MAX % range
  }

  /** The final mapping of an accepted raw draw into the interval. */
  function Place(lo: int, range: nat, r: nat): (y: int)
    requires range > 0
    ensures lo <= y < lo + range
  {
    lo + r % range
  }

  /** The state after `n` steps. */
  function Advance(s: State, n: nat): State
    decreases n
  {
    if n == 0 then s else Advance(NextState(s), n - 1)
  }

  /** The raw draw number `i` (counting from 0) from state `s`. */
  function DrawAt(s: State, i: nat): U64 {
    Value(Output(Advance(s, i)))
  }

  lemma DrawAtNext(s: State)
    ensures forall i: nat :: i > 0 ==> DrawAt(s, i) == DrawAt(NextState(s), i - 1)
  {
  }

  /** The index of the first draw below `limit` among the first `fuel` draws. */
  function FirstAccepted(s: State, limit: int, fuel: nat): Option<nat>
    decreases fuel
  {
    if fuel == 0 then None
    else if DrawAt(s, 0) < limit then Some(0)
    else
      match FirstAccepted(NextState(s), limit, fuel - 1)
      case None => None
      case Some(k) => Some(k + 1)
  }

  /** `FirstAccepted` finds the first draw below `limit`: every earlier draw
      is at or above it, and when there is none, all `fuel` draws are. */
  lemma {:induction false} FirstAcceptedIsFirst(s: State, limit: int, fuel: nat)
    ensures var k := FirstAccepted(s, limit, fuel);
            k.Some? ==> k.value < fuel && DrawAt(s, k.value) < limit
    ensures var k := FirstAccepted(s, limit, fuel);
            k.Some? ==> forall j: nat :: j < k.value ==> DrawAt(s, j) >= limit
    ensures FirstAccepted(s, limit, fuel).None? ==> forall j: nat :: j < fuel ==> DrawAt(s, j) >= limit
    decreases fuel
  {
    if fuel > 0 && DrawAt(s, 0) >= limit {
      FirstAcceptedIsFirst(NextState(s), limit, fuel - 1);
      DrawAtNext(s);
    }
  }

  /** The rejection loop, allowed at most `fuel` draws: the value and the
      state it leaves. */
  function Reject(s: State, lo: int, range: U64, limit: U64, fuel: nat): (res: (Option<int>, State))
    requires range > 0
    ensures res.0.Some? ==> lo <= res.0.value < lo + range
    decreases fuel
  {
    if fuel == 0 then (None, s)
    else
      var r := Value(Output(s));
      if r < limit then (Some(Place(lo, range, r)), NextState(s))
      else Reject(NextState(s), lo, range, limit, fuel - 1)
  }

  /** The loop returns the mapping of the first accepted draw and stops right
      after it; when every allowed draw is rejected, it returns nothing after
      all `fuel` draws. */
  lemma {:induction false} RejectTakesFirstAccepted(s: State, lo: int, range: U64, limit: U64, fuel: nat)
    requires range > 0
    ensures var k := FirstAccepted(s, limit, fuel);
            Reject(s, lo, range, limit, fuel) ==
              if k.Some? then (Some(Place(lo, range, DrawAt(s, k.value))), Advance(s, k.value + 1))
              else (None, Advance(s, fuel))
    decreases fuel
  {
    if fuel > 0 && DrawAt(s, 0) >= limit {
      var t := NextState(s);
      RejectTakesFirstAccepted(t, lo, range, limit, fuel - 1);
      SkipFirstDraw(s, lo, range, limit, fuel);
    }
  }

  /** A rejected first draw shifts the loop, the first accepted index and the
      draws by one step. */
  lemma SkipFirstDraw(s: State, lo: int, range: U64, limit: U64, fuel: nat)
    requires range > 0 && fuel > 0 && DrawAt(s, 0) >= limit
    ensures Reject(s, lo, range, limit, fuel) == Reject(NextState(s), lo, range, limit, fuel - 1)
    ensures var k := FirstAccepted(NextState(s), limit, fuel - 1);
            FirstAccepted(s, limit, fuel) == if k.Some? then Some(k.value + 1) else None
    ensures var k := FirstAccepted(NextState(s), limit, fuel - 1);
            k.Some? ==> DrawAt(s, k.value + 1) == DrawAt(NextState(s), k.value)
                        && Advance(s, k.value + 2) == Advance(NextState(s), k.value + 1)
    ensures Advance(s, fuel) == Advance(NextState(s), fuel - 1)
  {
  }

  /** The loop leaves the all-zero state exactly when it starts from it: a
      valid generator stays valid however many draws it rejects. */
  lemma {:induction false} RejectKeepsNonZero(s: State, lo: int, range: U64, limit: U64, fuel: nat)
    requires range > 0
    ensures Reject(s, lo, range, limit, fuel).1 == ZERO <==> s == ZERO
    decreases fuel
  {
    ZeroOnlyFromZero(s);
    if fuel > 0 && Value(Output(s)) >= limit {
      RejectKeepsNonZero(NextState(s), lo, range, limit, fuel - 1);
    }
  }

  /** The whole sampler from an explicit state, allowed at most `fuel` draws. */
  function Sample(s: State, min: Int32, max: Int32, fuel: nat): (res: (Option<int>, State))
    ensures res.0.Some? ==> Ordered(min, max).0 <= res.0.value <= Ordered(min, max).1
  {
    var (lo, hi) := Ordered(min, max);
    var range := Range(lo, hi);
    if range == 0 then (Some(lo), s)
    else
      RangeExact(lo, hi);
      Reject(s, lo, range, Limit(range), fuel)
  }

  /** Swapping the arguments changes nothing: same range, same draws, same result. */
  lemma SampleSymmetric(s: State, min: Int32, max: Int32, fuel: nat)
    ensures Sample(s, min, max, fuel) == Sample(s, max, min, fuel)
  {
  }

  /** With `min == max` the sampler can only return `min`, and it does so on
      the first draw unless that draw is `UINT64_MAX`. */
  lemma SampleSingleton(s: State, m: Int32, fuel: nat)
    ensures Sample(s, m, m, fuel).0.Some? ==> Sample(s, m, m, fuel).0.value == m
    ensures fuel > 0 && Value(Output(s)) < UINT64_MAX ==> Sample(s, m, m, fuel) == (Some(m as int), NextState(s))
  {
    RangeExact(m, m);
    assert Limit(1) == UINT64_MAX;
  }

  /** A sample leaves the all-zero state exactly when it starts from it. */
  lemma SampleKeepsNonZero(s: State, min: Int32, max: Int32, fuel: nat)
    ensures Sample(s, min, max, fuel).1 == ZERO <==> s == ZERO
  {
    var (lo, hi) := Ordered(min, max);
    var range := Range(lo, hi);
    if range != 0 {
      RejectKeepsNonZero(s, lo, range, Limit(range), fuel);
    }
  }

  /** The number of raw values below `n` that the final mapping sends to `y`. */
  function Preimages(n: nat, lo: int, range: nat, y: int): nat
    requires range > 0
  {
    if n == 0 then 0
    else Preimages(n - 1, lo, range, y) + (if Place(lo, range, n - 1) == y then 1 else 0)
  }

  /** Within the block of `range` values starting at `q * range`, the first
      `r` of them add one preimage exactly when `y`'s residue is among them. */
  lemma {:induction false} PreimagesInBlock(q: nat, r: nat, lo: int, range: nat, y: int)
    requires r <= range
    requires lo <= y < lo + range
    ensures Preimages(q * range + r, lo, range, y) == Preimages(q * range, lo, range, y) + (if y - lo < r then 1 else 0)
  {
    if r > 0 {
      PreimagesInBlock(q, r - 1, lo, range, y);
      DivModUnique(q * range + r - 1, range, q, r - 1);
    }
  }

  /** Each whole block of `range` consecutive values holds exactly one
      preimage of every value of the interval. */
  lemma {:induction false} PreimagesOfBlocks(q: nat, lo: int, range: nat, y: int)
    requires lo <= y < lo + range
    ensures Preimages(q * range, lo, range, y) == q
  {
    if q > 0 {
      PreimagesOfBlocks(q - 1, lo, range, y);
      PreimagesInBlock(q - 1, range, lo, range, y);
      assert (q - 1) * range + range == q * range;
    }
  }

  /** The debiasing is exact: among the accepted raw values `r < limit`,
      every value of the interval has exactly `limit / range` preimages, and
      nothing outside it has any. */
  lemma UnbiasedAcceptance(lo: Int32, hi: Int32, y: int)
    requires lo <= hi
    ensures var range := Range(lo, hi);
            Preimages(Limit(range), lo, range, y) == if lo <= y <= hi then Limit(range) / range else 0
  {
    RangeExact(lo, hi);
    var range := Range(lo, hi);
    var limit := Limit(range);
    if lo <= y <= hi {
      var q := limit / range;
      assert limit == q * range;
      PreimagesOfBlocks(q, lo, range, y);
    } else {
      PreimagesOutside(limit, lo, range, y);
    }
  }

  lemma {:induction false} PreimagesOutside(n: nat, lo: int, range: nat, y: int)
    requires range > 0
    requires !(lo <= y < lo + range)
    ensures Preimages(n, lo, range, y) == 0
  {
    if n > 0 {
      PreimagesOutside(n - 1, lo, range, y);
    }
  }

  /** `random_int_high_precision` on an explicit generator, allowed at most
      `fuel` draws; `None` means every allowed draw was rejected. */
  method RandomIntHighPrecision(g: Generator, min: Int32, max: Int32, fuel: nat) returns (res: Option<int>)
    modifies g
    ensures (res, g.Words()) == Sample(old(g.Words()), min, max, fuel)
    ensures res.Some? ==> (min <= res.value <= max || max <= res.value <= min)
    ensures g.Valid() <==> old(g.Valid())
  {
    var lo, hi := min, max;
    if lo > hi {
      lo, hi := hi, lo;
    }
    var range := Range(lo, hi);
    if range == 0 {
      res := Some(lo);
    } else {
      var limit := Limit(range);
      ghost var start := g.Words();
      var n := 0;
      res := None;
      while res.None? && n < fuel
        invariant n <= fuel
        invariant g.Valid() <==> old(g.Valid())
        invariant res.None? ==> Reject(start, lo, range, limit, fuel) == Reject(g.Words(), lo, range, limit, fuel - n)
        invariant res.Some? ==> Reject(start, lo, range, limit, fuel) == (res, g.Words())
        decreases fuel - n
      {
        var x := g.Next();
        var r := Value(x);
        n := n + 1;
        if r < limit {
          res := Some(lo + r % range);
        }
      }
    }
  }
}
