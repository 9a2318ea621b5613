# xorshift128+ random numbers, modelled in Dafny

This project models the core of a small C random-number header, `random.h`.

- **The generator.** A xorshift128+ bit generator with a 128-bit state of two `uint64_t` words. It has a seeding rule and a step that rewrites both words and returns one 64-bit value.
- **The unbiased sampler.** `random_int_high_precision` draws an integer uniformly from `[min, max]`. It orders the bounds, computes the 64-bit span `range`, and draws raw values until one falls below the largest multiple of `range` that fits in 64 bits. It then maps that draw into the interval with a remainder.
- **The float conversion.** This is the integer part of `random_float`: the 53-bit numerator taken from one draw, and its rounding to a 32-bit `float`.

Modules:

- `Xorshift` (`xorshift.dfy`) holds:
  - the state as a value (`State`);
  - the step as functions (`NextState`, `Output`);
  - its inverse (`PrevState`);
  - the generator object: a `class Generator` with the two words as fields and a `Next` method that updates them in place.

  Shifts, XORs and wrapping addition are Dafny's `bv64` operators. `bv64` addition wraps modulo 2^64, as `uint64_t` addition does.
- `Sampler` (`sampler.dfy`) models `random_int_high_precision`:
  - pure functions for the swap, the span, the limit and the final mapping;
  - a specification of the rejection loop (`Reject`, `Sample`);
  - a method (`RandomIntHighPrecision`) whose loop calls `Generator.Next`.

  `uint64_t` arithmetic on the bounds is written out modulo 2^64 on `int`. C's `int` is the subset type `Int32`.
- `Uniform` (`uniform.dfy`) models the integer core of `random_float`:
  - `next >> 11`;
  - the rounding of `numerator / 2^53` to a `float`, at 24 significant bits, to nearest, ties to even;
  - the correction proposed under "Findings".
- `Arith` (`arith.dfy`) holds the integer facts the other modules share.

The seed, which the C code gathers from clocks and an address, is a parameter.

The C loop has no bound on the number of draws. The model takes a `fuel` argument, the largest number of draws allowed, and returns `None` when every allowed draw was rejected.

## Model

| member | source | states |
|---|---|---|
| Xorshift.Seeded | random.h:35-36 | The seeded state has `state[0] == seed` and `state[0] ^ state[1] == 0x6A09E667F3BCC909`, so it is never the all-zero state. |
| Xorshift.Generator.constructor | random.h:35-36 | A new generator holds exactly the seeded state and is valid (not all-zero). |
| Xorshift.NextState | random.h:42-43 | After a step the first word is the old second word. |
| Xorshift.UnmixAfterMix | random.h:44-45 | `MixedWord`, the new second word computed on these lines, can be undone: the old first word is recovered from the mixed word and the old second word. |
| Xorshift.MixAfterUnmix | random.h:44-45 | Mixing the recovered word reproduces the mixed word, so the mixing is a bijection for a fixed second word. |
| Xorshift.OutputOfNewState | random.h:46 | `Output`, the value a step returns, is the wrapped sum of the two words of the new state. |
| Xorshift.PrevAfterNext | random.h:40-47 | Stepping back after a step restores the state. |
| Xorshift.NextAfterPrev | random.h:40-47 | Stepping forward after stepping back restores the state: every state has exactly one predecessor. |
| Xorshift.NextStateInjective | random.h:40-47 | Two states with the same successor are equal: the step is one-to-one on the 2^128 states. |
| Xorshift.ZeroOnlyFromZero | random.h:40-47 | The all-zero state steps to itself and returns 0, and it is the only state that steps to the all-zero state. |
| Xorshift.Generator.Next | random.h:40-47 | One step moves the old `state[1]` into `state[0]`, stores the mixed word in `state[1]`, returns the new `state[1]` plus the old `state[1]` (wrapping), and keeps the generator non-zero exactly when it was. |
| Sampler.Ordered | random.h:102-106 | After the swap the lower bound is at most the upper bound, and the pair holds the same two values as the arguments. |
| Sampler.ToU64 | random.h:107 | Converting an `int` to `uint64_t` keeps a non-negative value and adds 2^64 to a negative one. |
| Sampler.RangeExact | random.h:107-108 | For ordered 32-bit bounds `Range`, the wrapped `(uint64_t)max - min + 1`, equals `max - min + 1` and lies in `[1, 2^32]`, so the `range == 0` return is never taken. |
| Sampler.Limit | random.h:110 | `limit` is a multiple of `range`, positive, at most `UINT64_MAX`, and more than `UINT64_MAX - range`: it is the largest such multiple. |
| Sampler.Place | random.h:115 | `min + r % range` lies in `[min, min + range)`. |
| Sampler.FirstAcceptedIsFirst | random.h:111-114 | The draw the loop stops on is the first one below `limit`: every earlier draw is at or above `limit`; when none is found, every allowed draw was rejected. |
| Sampler.Reject | random.h:111-115 | A value the loop returns lies in `[min, min + range)`. |
| Sampler.RejectTakesFirstAccepted | random.h:111-115 | The loop returns `min + r % range` for the first draw `r < limit` and leaves the generator right after that draw; with no such draw it returns nothing after all allowed draws. |
| Sampler.RejectKeepsNonZero | random.h:111-114 | However many draws the loop rejects, it leaves the all-zero state exactly when it started from it. |
| Sampler.Sample | random.h:102-115 | A value the sampler returns lies between the two bounds. |
| Sampler.SampleKeepsNonZero | random.h:102-115 | A whole sample leaves the all-zero state exactly when it started from it, so a seeded generator stays non-zero across samples. |
| Sampler.SampleSymmetric | random.h:102-106 | Swapping `min` and `max` gives the same value and the same final state. |
| Sampler.SampleSingleton | random.h:107-115 | With `min == max` only `min` can be returned, and it is returned on the first draw unless that draw is `UINT64_MAX`. |
| Sampler.PreimagesInBlock | random.h:110-115 | Within one block of `range` consecutive raw values, `y` gains one preimage exactly when its residue has been passed. |
| Sampler.PreimagesOfBlocks | random.h:110-115 | `q` whole blocks of `range` raw values hold exactly `q` preimages of each value of the interval. |
| Sampler.PreimagesOutside | random.h:115 | No raw value maps outside `[min, min + range)`. |
| Sampler.UnbiasedAcceptance | random.h:107-115 | Among the accepted raw values `r < limit`, every value of `[min, max]` has exactly `limit / range` preimages and no other value has any: the result is unbiased. |
| Sampler.RandomIntHighPrecision | random.h:94-116 | The method's result and the generator's new state are those of `Sample` on the old state, a returned value lies in `[min, max]`, and the generator is non-zero afterwards exactly when it was before. |
| Uniform.Numerator | random.h:58 | `next >> 11` is below 2^53. |
| Uniform.RoundToMultiple | random.h:58 | Rounding to a multiple of a step gives a multiple within half a step of the input, and leaves a multiple unchanged. |
| Uniform.RandomFloat | random.h:58 | `random_float` as written returns a value in `[0, 1]`: at most 1.0, which it can reach. |
| Uniform.RoundedAtMostOne | random.h:58 | Converting to `float` a double below 1.0 gives at most 1.0, because the `float` grid step divides 1.0. |
| Uniform.RoundToFloat | random.h:58 | The conversion to `float` lands on the `float` grid for the value's binade, within half a grid step, and keeps a value the grid already holds. |
| Uniform.RandomFloatReachesOne | random.h:58 | Every draw at or above 2^64 - 2^39 makes `random_float` return exactly 1.0. |
| Uniform.LargestDrawGivesOne | random.h:58 | The draw `0xFFFFFFFFFFFFFFFF` makes `random_float` return 1.0. |
| Uniform.RandomFloatBelowOne | random.h:50-58 | The corrected conversion returns a value that a `float` holds exactly and that is below 1.0. |

## Findings

| source | as written | input that shows it | evidently intended | confidence | as-written member | corrected member |
|---|---|---|---|---|---|---|
| random.h:58 | The double `(next >> 11) * 2^-53` is returned as a `float`, and the conversion rounds to nearest. | Any draw `next >= 2^64 - 2^39` gives a double in `[1 - 2^-25, 1)`, which rounds to `1.0f`; `0xFFFFFFFFFFFFFFFF` gives `1 - 2^-53`. | A result in `[0, 1)`, as the comment on line 50 says: keep the top 24 bits (`next >> 40`) and scale them by 2^-24, which a `float` holds exactly. | high (proved on the model); not executed | Uniform.RandomFloatReachesOne | Uniform.RandomFloatBelowOne |

## Left out

- The entropy gathering in `xorshift128p_seed` (random.h:19-32: `time`, the performance counter or `clock_gettime`, the address hash). It reads clocks and memory addresses, so the mixed seed is a parameter of `Seeded` and of the `Generator` constructor.
- `random_normal` (random.h:61-80). It is floating-point arithmetic with `sqrtf` and `logf`. Its one-sample cache is not modelled without the floats.
- `random_int` (random.h:83-91). Its result comes from a float multiplication. Its `int range = max - min + 1` (line 89) overflows a signed `int` for spans above `INT_MAX`. With the finding above it can also return `max + 1` when `random_float` returns 1.0.
- `random_float` beyond its integer core. The model does not compute floats. It keeps numerators over 2^53. This is exact for the finding because every nonzero value involved is a normal number in both formats.
- Sampler.RandomIntHighPrecision: allows at most `fuel` draws and returns `None` when all are rejected. The C loop is unbounded; the model bounds it by `fuel`. For a uniformly distributed draw, each draw is rejected with probability at most 2^-32 (exactly 2^-32 when `range` is 2^32). The model says nothing about how many draws are needed.
- Sampler.Reject: the same `fuel` bound on the rejection loop.
- Sampler.Place: gives the mathematical `min + r % range`. It does not model the C conversion `(int)(r % range)` at line 115. For spans above 2^31 that conversion is implementation-defined, and the addition can overflow a signed `int`.
- The lazy `static` seeding flags (random.h:52-57, 95-100), and the fact that `random_int_high_precision` owns a separate generator from `random_float`. The model passes the generator explicitly.
- Thread safety and the generator's statistical quality (period, equidistribution). Only the step's bijectivity and the zero fixed point are proved.
- Xorshift.Generator.Next: states the wrapped sum as `bv64` addition. The corresponding statement on integers, `(a + b) % 2^64`, is not restated; neither is it for `Xorshift.Output` or `Xorshift.OutputOfNewState`.
