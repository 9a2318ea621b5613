/** The xorshift128+ bit generator: its 128-bit state, the seeding rule that
    derives the state from a 64-bit seed, and the step that rewrites both words
    and returns one 64-bit value. C's `uint64_t` shifts and XORs are Dafny's
    `bv64` operators, and `bv64` addition wraps modulo 2^64 as `uint64_t`
    addition does. */
module Xorshift {

  /** The second seeding word is the seed XORed with this constant. */
  const SEED_XOR: bv64 := 0x6A09E667F3BCC909

  /** The two words of `xorshift128p_state`: `w0` is `state[0]`, `w1` is `state[1]`. */
  datatype State = State(w0: bv64, w1: bv64)

  /** The degenerate state that the step maps to itself. */
  const ZERO: State := State(0, 0)

  /** The state the seeding routine derives from its (already mixed) seed. */
  function Seeded(seed: bv64): (s: State)
    ensures s.w0 == seed
    ensures s.w0 ^ s.w1 == SEED_XOR
    ensures s != ZERO
  {
    State(seed, seed ^ SEED_XOR)
  }

  /** The new second word: `s1 ^= s1 << 23` on the old first word, then the
      old first and second words are mixed as `s1 ^ s0 ^ (s1 >> 17) ^ (s0 >> 26)`. */
  function MixedWord(w0: bv64, w1: bv64): bv64 {
    var s1 := w0 ^ (w0 << 23);
    s1 ^ w1 ^ (s1 >> 17) ^ (w1 >> 26)
  }

  /** C's `uint64_t`, as a number. */
  type U64 = x: int | 0 <= x < 0x1_0000_0000_0000_0000

  /** A `uint64_t` word as a number. */
  function Value(x: bv64): U64 {
    x as int
  }

  /** The state after one step. */
  function NextState(s: State): (t: State)
    ensures t.w0 == s.w1
  {
    State(s.w1, MixedWord(s.w0, s.w1))
  }

  /** `uint64_t` addition, which wraps modulo 2^64. It is a function of its
      own so that the solver matches sums by their arguments rather than by
      their bits. */
  function AddWrap(a: bv64, b: bv64): bv64 {
    a + b
  }

  /** The value one step returns: the new second word plus the old second
      word, wrapping modulo 2^64. */
  function Output(s: State): bv64 {
    AddWrap(NextState(s).w1, s.w1)
  }

  /** The value a step returns is the wrapped sum of the two words of the new
      state. */
  lemma OutputOfNewState(s: State)
    ensures Output(s) == AddWrap(NextState(s).w0, NextState(s).w1)
  {
    AddWrapCommutes(MixedWord(s.w0, s.w1), s.w1);
  }

  /** Recovers the old first word from the new state words `t0` (the old second
      word) and `t1` (the mixed word): `x ^ (x >> 17)` is undone by four terms
      (4 * 17 > 64) and `x ^ (x << 23)` by three (3 * 23 > 64). */
  function UnmixedWord(t0: bv64, t1: bv64): bv64 {
    var z := t1 ^ t0 ^ (t0 >> 26);
    var x := z ^ (z >> 17) ^ (z >> 34) ^ (z >> 51);
    x ^ (x << 23) ^ (x << 46)
  }

  /** The state that steps to `t`: the inverse of `NextState`. */
  function PrevState(t: State): State {
    State(UnmixedWord(t.w0, t.w1), t.w0)
  }

  /** Wrapping addition commutes. */
  lemma AddWrapCommutes(a: bv64, b: bv64)
    ensures AddWrap(a, b) == AddWrap(b, a)
  {
  }

  // The two lemmas below state the inverse property on the mixing expression
  // written out, which the solver proves bit by bit; the lemmas after them
  // restate it on `MixedWord` and `UnmixedWord` by calling them.

  lemma UnmixAfterMixUnfolded(w0: bv64, w1: bv64)
    ensures var s1 := w0 ^ (w0 << 23);
            UnmixedWord(w1, s1 ^ w1 ^ (s1 >> 17) ^ (w1 >> 26)) == w0
  {
  }

  lemma MixAfterUnmixUnfolded(t0: bv64, t1: bv64)
    ensures var z := t1 ^ t0 ^ (t0 >> 26);
            var x := z ^ (z >> 17) ^ (z >> 34) ^ (z >> 51);
            MixedWord(x ^ (x << 23) ^ (x << 46), t0) == t1
  {
  }

  /** `UnmixedWord` recovers the old first word from the mixed word. */
  lemma UnmixAfterMix(w0: bv64, w1: bv64)
    ensures UnmixedWord(w1, MixedWord(w0, w1)) == w0
  {
    UnmixAfterMixUnfolded(w0, w1);
  }

  /** `MixedWord` of the recovered word gives back the mixed word. */
  lemma MixAfterUnmix(t0: bv64, t1: bv64)
    ensures MixedWord(UnmixedWord(t0, t1), t0) == t1
  {
    MixAfterUnmixUnfolded(t0, t1);
  }

  /** Stepping back after stepping forward restores the state. */
  lemma PrevAfterNext(s: State)
    ensures PrevState(NextState(s)) == s
  {
    UnmixAfterMix(s.w0, s.w1);
  }

  /** Stepping forward after stepping back restores the state. */
  lemma NextAfterPrev(t: State)
    ensures NextState(PrevState(t)) == t
  {
    MixAfterUnmix(t.w0, t.w1);
  }

  /** The step is one-to-one on the 2^128 states. */
  lemma NextStateInjective(a: State, b: State)
    requires NextState(a) == NextState(b)
    ensures a == b
  {
    PrevAfterNext(a);
    PrevAfterNext(b);
  }

  /** The all-zero state is a fixed point returning 0, and it is the only state
      that steps to the all-zero state: a state that is not all-zero never
      becomes all-zero. */
  lemma ZeroOnlyFromZero(s: State)
    ensures NextState(s) == ZERO <==> s == ZERO
    ensures s == ZERO ==> Output(s) == 0
  {
    if NextState(s) == ZERO {
      assert NextState(ZERO) == ZERO;
      NextStateInjective(s, ZERO);
    }
  }

  /** The generator object: the two words the step rewrites in place. */
  class Generator {
    var w0: bv64
    var w1: bv64

    /** The state as a value. */
    function Words(): State
      reads this
    {
      State(w0, w1)
    }

    /** Not the all-zero state; seeding establishes it and every step keeps it. */
    predicate Valid()
      reads this
    {
      Words() != ZERO
    }

    /** A generator seeded from the mixed seed value. */
    constructor (seed: bv64)
      ensures Words() == Seeded(seed)
      ensures Valid()
    {
      w0 := seed;
      w1 := seed ^ SEED_XOR;
    }

    /** One step: rewrites both words and returns the generated value. */
    method Next() returns (r: bv64)
      modifies this
      ensures Words() == NextState(old(Words()))
      ensures r == Output(old(Words()))
      ensures w0 == old(w1)
      ensures Valid() <==> old(Valid())
    {
      var s1 := w0;
      var s0 := w1;
      w0 := s0;
      w1 := MixedWord(s1, s0);
      r := AddWrap(w1, s0);
      ZeroOnlyFromZero(old(Words()));
    }
  }
}
