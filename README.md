# float32-nextafter, modelled in Dafny

`nextafterf(x, y)` returns the single-precision (IEEE 754-2008 binary32)
value adjacent to `x` in the direction of `y`. It handles NaN and equal
inputs first. A zero `x` goes to the signed smallest subnormal. Otherwise
the raw 32-bit word of `x` moves up or down by one. An exponent-mask test
then sends the overflow case to the signed infinity.

The model has three modules:

- `Bits` (`bits.dfy`): powers of two and a bitwise AND on naturals. The
  lemma `BitAndFieldMask` shows that ANDing with a contiguous mask
  extracts a bit field in place. JavaScript's `&` works on 32-bit
  two's-complement integers. For a word below 2^32 and a mask below 2^31
  it gives the same bits as this unsigned AND.
- `Binary32` (`binary32.dfy`): the binary32 encoding of section 3.4 of
  IEEE 754-2008. A word is the natural number it spells.
  - Fields are sign bit, 8-bit exponent field and 23-bit fraction.
  - NaN means exponent field all ones and fraction non-zero.
  - `Value` is the exact number a non-NaN word denotes. It is an integer
    multiple of the smallest subnormal 2^-149, or a signed infinity.
  - `Key` is the magnitude, negated when the sign bit is set.
  - `KeyOrder` proves that comparing keys is comparing values. So the
    numeric `===`, `<` and `>` of the source become integer comparisons.
- `NextAfter` (`nextafter.dfy`): `NextAfterF`, the function itself. It
  compares exact values, as the JavaScript code compares numbers.
  `NextAfterSpec` is an independent reference definition: the word whose
  key is one step from `x`'s key toward `y`'s. `NextAfterMatchesSpec`
  proves the two agree on all 2^64 input pairs. The lemmas after it state
  each branch and the "next representable" promise.

Inputs are binary32 words. The source's `toWord` and `fromWord`
conversions are the identity on words. The source's NaN result is the
quiet NaN word `0x7FC00000`; only its being a NaN is stated.

The comment at lib/index.js:16 calls `MIN_NORMAL_EXP_MASK` "biased
exponent = -127". The mask `0x00800000` is exponent field 1, the smallest
normal exponent. The model uses the mask value. The comments at
lib/index.js:54 and lib/index.js:58 describe the step as "|y| > |x|".
The code's actual test is `(y > x) === (x > 0)`, and the model follows
the code. The test title at test/test.js:147 says "smallest negative
subnormal", but the test expects the negated smallest normal. That
expected value is what `SubnormalNormalBoundary` states.

## Model

| member | source | states |
|---|---|---|
| `Bits.BitAndFieldMask` | lib/index.js:63 | ANDing a word with `len` one bits starting at bit `lo` yields bits `lo .. lo+len-1` of the word, kept in place |
| `Binary32.ExpMaskBits` | lib/index.js:14 | `w & INF_EXP_MASK` equals the exponent field times 2^23 |
| `Binary32.NaNByMagnitude` | lib/index.js:35 | a word is NaN exactly when its magnitude exceeds that of infinity, and infinite exactly when it equals it |
| `Binary32.Negate` | lib/index.js:45 | unary minus keeps the magnitude and flips the sign bit |
| `Binary32.MagnitudeUnitsIncreasing` | lib/index.js:52-61 | a larger finite magnitude word denotes a strictly larger value, across the subnormal/normal boundary too |
| `Binary32.KeyOrder` | lib/index.js:39-55 | for non-NaN words, key order is value order, and equal keys are equal values (so +0 and -0 compare equal) |
| `Binary32.FromKey` | lib/index.js:24 | every key in [-INF_KEY, INF_KEY] belongs to a non-NaN word, with the requested sign when the key is 0 |
| `NextAfter.SteppedWord` | lib/index.js:52-61 | the `wx += 1` / `wx -= 1` step stays a 32-bit word, keeps the sign bit and never passes the infinity magnitude |
| `NextAfter.SteppedKey` | lib/index.js:55-61 | the stepped word is not NaN, and its key is one step from `x`'s key toward `y`'s |
| `NextAfter.SteppedExponent` | lib/index.js:62-68 | the exponent test on the stepped word fires exactly for an infinity; the underflow test fires exactly for exponent field 0 |
| `NextAfter.NextAfterF` | lib/index.js:30-72 | the result is NaN exactly when `x` or `y` is NaN |
| `NextAfter.NextAfterMatchesSpec` | lib/index.js:30-72 | for every pair of words, `nextafterf` equals the reference definition: the word one key step from `x` toward `y`, or `y` when equal |
| `NextAfter.EqualReturnsTarget` | lib/index.js:39-42 | when `x` and `y` compare equal, the result is `y`'s word, not `x`'s |
| `NextAfter.SignedZeros` | test/test.js:46-61 | `nextafterf(-0, +0)` is +0, `nextafterf(+0, -0)` is -0, and `nextafterf(1, 1)` is 1 |
| `NextAfter.ZeroSource` | lib/index.js:43-51 | a zero `x` gives the smallest subnormal, negative exactly when `y < 0` |
| `NextAfter.GeneralStep` | lib/index.js:52-66 | otherwise the result is word `x+1` exactly when `(y > x) === (x > 0)` and `x-1` otherwise; the sign never changes; the magnitude grows exactly when moving away from zero; an infinite `x` always decrements |
| `NextAfter.SmallestSubnormalTowardZero` | lib/index.js:58-61 | the smallest subnormal of either sign, stepped toward zero, gives the zero of its own sign |
| `NextAfter.OverflowBranch` | lib/index.js:62-66 | the overflow test fires exactly for +MAX_FLOAT32 stepping up and -MAX_FLOAT32 stepping down, and the signed infinity returned equals the stepped word |
| `NextAfter.OverflowSaturation` | lib/index.js:62-66 | a finite `x` yields an infinity exactly from ±MAX_FLOAT32 toward the infinity of the same sign |
| `NextAfter.UnderflowBranch` | lib/index.js:67-71 | when the underflow test fires, the result is still exactly the stepped word, a zero or a subnormal |
| `NextAfter.TowardGreater` | lib/index.js:22-24 | for `x < y` the result `r` is not NaN and satisfies `x < r <= y`; its key is `x`'s plus one; no binary32 value lies strictly between `x` and `r` |
| `NextAfter.TowardLess` | lib/index.js:22-24 | for `x > y` the result `r` is not NaN and satisfies `y <= r < x`; its key is `x`'s minus one; no binary32 value lies strictly between `r` and `x` |
| `NextAfter.NegationSymmetry` | lib/index.js:43-66 | for non-NaN inputs, `nextafterf(-x, -y) == -nextafterf(x, y)` |
| `NextAfter.ZeroToSmallestSubnormal` | test/test.js:63-73 | `nextafterf(0, 1)` is the smallest subnormal and `nextafterf(0, -1)` its negation |
| `NextAfter.InfinityBoundary` | test/test.js:75-85 | MAX_FLOAT32 toward +inf gives +inf, -MAX_FLOAT32 toward -inf gives -inf, +inf toward 0 gives MAX_FLOAT32, +inf toward +inf gives +inf |
| `NextAfter.SubnormalNormalBoundary` | test/test.js:87-167 | the smallest normal toward 0 gives the largest subnormal, and the largest subnormal toward ±1 gives the smallest normal, on both signs |
| `NextAfter.StepsAroundOne` | lib/index.js:55-61 | 1.0 toward 2.0 is word `0x3F800000 + 1`, and 1.0 toward 0 is word `0x3F800000 - 1` |

## Left out

- Exception flags: `y = x * x` (lib/index.js:49, lib/index.js:69) and the `x + x` inside `toFloat32( x + x )` (lib/index.js:65) only raise IEEE underflow, overflow and inexact flags. JavaScript cannot observe those flags. The model returns the signed infinity word directly on the overflow path. `OverflowBranch` proves that word equals the stepped word.
- The conversion modules `math-float32-to-word`, `math-float32-from-word` and `float64-to-float32` are not part of this model. Their effect on a binary32 input is taken to be the identity on the word. Rounding of a float64 argument that is not a binary32 value is not modelled: inputs are binary32 words.
- The constant `SMALLEST_SUBNORMAL` comes from the `const-smallest-float32` module, which is not part of this model. The model uses its binary32 word, `0x00000001`.
- NaN payloads: a JavaScript `NaN` has no binary32 word, so the result is the quiet NaN `0x7FC00000`. Only its NaN-ness is stated.
- The fixture loops of test/test.js:169-299 compare against numpy output files that are not part of this model. `TowardGreater` and `TowardLess` state the property they check.
- test/fixtures/runner.py (fixture generation with numpy and file writes) and examples/index.js (random inputs and console output) are I/O only.
