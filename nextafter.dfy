/**
 * nextafterf(x, y) (lib/index.js:30-72): the binary32 value adjacent to x
 * in the direction of y, computed by stepping the raw 32-bit word of x.
 *
 * Inputs and result are binary32 words.  The JavaScript comparisons on
 * numbers (`===`, `<`, `>`) are comparisons of the exact values the words
 * denote (Binary32.Value, Binary32.Less); the bit test `wx & INF_EXP_MASK`
 * is Bits.BitAnd.
 */
module NextAfter {
  import opened Bits
  import opened Binary32

  const ONE: Word := 0x3F80_0000
  const NEG_ONE: Word := 0xBF80_0000
  const TWO: Word := 0x4000_0000

  /**
   * The word `wx` after `wx += 1` or `wx -= 1` (lib/index.js:52-61): one up
   * exactly when `(y > x) === (x > 0)`.  Here x is neither NaN nor zero and
   * differs from y, so the step neither wraps nor leaves [0, 2^32).
   */
  function SteppedWord(x: Word, y: Word): (wx: Word)
    requires !IsNaN(x) && !IsNaN(y) && Value(x) != Value(y) && Value(x) != Finite(0)
    ensures SignBit(wx) == SignBit(x)
    ensures Magnitude(wx) <= INF_KEY
  {
    KeyOrder(x, y);
    KeyOrder(x, POS_ZERO);
    ValueByKey(y);
    if Less(Value(x), Value(y)) == Less(Finite(0), Value(x)) then x + 1 else x - 1
  }

  /** The function of lib/index.js:30-72; NaN in, NaN out, and only then. */
  function NextAfterF(x: Word, y: Word): (r: Word)
    ensures IsNaN(r) <==> IsNaN(x) || IsNaN(y)
  {
    if IsNaN(x) || IsNaN(y) then
      QUIET_NAN
    else if Value(x) == Value(y) then
      // returning y, not x, gives a zero the sign of y
      y
    else if Value(x) == Finite(0) then
      (if Less(Value(y), Finite(0)) then Negate(SMALLEST_SUBNORMAL) else SMALLEST_SUBNORMAL)
    else
      var wx := SteppedWord(x, y);
      SteppedKey(x, y);
      if BitAnd(wx, INF_EXP_MASK) == INF_EXP_MASK then
        // toFloat32( x + x ): the infinity with the sign of x
        (if SignBit(x) then NEG_INF else POS_INF)
      else
        // the underflow test only raises flags; the word is returned as is
        wx
  }

  /**
   * Reference definition of the next representable value: the word whose
   * key is one step from the key of x toward the key of y; a zero reached
   * that way keeps the sign of x.
   */
  function NextAfterSpec(x: Word, y: Word): Word
  {
    if IsNaN(x) || IsNaN(y) then
      QUIET_NAN
    else if Key(x) == Key(y) then
      y
    else
      ValueByKey(x);
      ValueByKey(y);
      FromKey(if Key(x) < Key(y) then Key(x) + 1 else Key(x) - 1, SignBit(x))
  }

  /** The stepped word's exponent bits are all ones exactly when it is an infinity. */
  lemma SteppedExponent(x: Word, y: Word)
    requires !IsNaN(x) && !IsNaN(y) && Value(x) != Value(y) && Value(x) != Finite(0)
    ensures BitAnd(SteppedWord(x, y), INF_EXP_MASK) == INF_EXP_MASK <==> IsInfinite(SteppedWord(x, y))
    ensures BitAnd(SteppedWord(x, y), INF_EXP_MASK) < MIN_NORMAL_EXP_MASK <==> ExpField(SteppedWord(x, y)) == 0
  {
    var wx := SteppedWord(x, y);
    ExpMaskBits(wx);
    NaNByMagnitude(wx);
  }

  /** The stepped word moves the key of x one step toward the key of y. */
  lemma SteppedKey(x: Word, y: Word)
    requires !IsNaN(x) && !IsNaN(y) && Value(x) != Value(y) && Value(x) != Finite(0)
    ensures !IsNaN(SteppedWord(x, y))
    ensures Key(SteppedWord(x, y)) == if Key(x) < Key(y) then Key(x) + 1 else Key(x) - 1
  {
    KeyOrder(x, y);
    KeyOrder(x, POS_ZERO);
    ValueByKey(y);
    NaNByMagnitude(SteppedWord(x, y));
  }

  /** nextafterf agrees with the reference definition on every pair of words. */
  lemma NextAfterMatchesSpec(x: Word, y: Word)
    ensures NextAfterF(x, y) == NextAfterSpec(x, y)
  {
    if !IsNaN(x) && !IsNaN(y) {
      KeyOrder(x, y);
      KeyOrder(x, POS_ZERO);
      KeyOrder(y, POS_ZERO);
      if Key(x) != Key(y) && Key(x) != 0 {
        var wx := SteppedWord(x, y);
        SteppedExponent(x, y);
        SteppedKey(x, y);
        NaNByMagnitude(wx);
        var s := FromKey(if Key(x) < Key(y) then Key(x) + 1 else Key(x) - 1, SignBit(x));
        KeyAndSignDetermineWord(wx, s);
      }
    }
  }

  /** Equal values return y, not x (lib/index.js:39-42). */
  lemma EqualReturnsTarget(x: Word, y: Word)
    requires !IsNaN(x) && !IsNaN(y) && Key(x) == Key(y)
    ensures NextAfterF(x, y) == y
  {
  }

  /** The signed-zero cases of the equality branch, and x == y on a non-zero value. */
  lemma SignedZeros()
    ensures NextAfterF(NEG_ZERO, POS_ZERO) == POS_ZERO
    ensures NextAfterF(POS_ZERO, NEG_ZERO) == NEG_ZERO
    ensures NextAfterF(POS_ZERO, POS_ZERO) == POS_ZERO
    ensures NextAfterF(ONE, ONE) == ONE
  {
  }

  /** A zero source steps to the smallest subnormal signed like y (lib/index.js:43-51). */
  lemma ZeroSource(x: Word, y: Word)
    requires IsZero(x) && !IsNaN(y) && Key(y) != 0
    ensures NextAfterF(x, y) == if Key(y) < 0 then NEG_SMALLEST_SUBNORMAL else SMALLEST_SUBNORMAL
    ensures IsSubnormal(NextAfterF(x, y)) && Magnitude(NextAfterF(x, y)) == 1
  {
  }

  /**
   * The general step (lib/index.js:52-66): the result is the word of x plus
   * one exactly when `(y > x) === (x > 0)`, and minus one otherwise; the
   * sign bit never changes and the magnitude grows exactly when moving away
   * from zero.  An infinite x always takes the decrement.
   */
  lemma GeneralStep(x: Word, y: Word)
    requires !IsNaN(x) && !IsNaN(y) && Key(x) != Key(y) && !IsZero(x)
    ensures Value(x) != Value(y) && Value(x) != Finite(0)
    ensures var up := Less(Value(x), Value(y)) == Less(Finite(0), Value(x));
      NextAfterF(x, y) == if up then x + 1 else x - 1
    ensures SignBit(NextAfterF(x, y)) == SignBit(x)
    ensures Magnitude(NextAfterF(x, y)) ==
      if (Key(x) < Key(y)) != SignBit(x) then Magnitude(x) + 1 else Magnitude(x) - 1
    ensures IsInfinite(x) ==> NextAfterF(x, y) == x - 1
  {
    KeyOrder(x, y);
    KeyOrder(x, POS_ZERO);
    NextAfterMatchesSpec(x, y);
    SteppedExponent(x, y);
    SteppedKey(x, y);
    NaNByMagnitude(SteppedWord(x, y));
    NaNByMagnitude(y);
  }

  /** Stepping from a smallest subnormal toward zero gives the zero of the same sign. */
  lemma SmallestSubnormalTowardZero(y: Word)
    requires !IsNaN(y)
    ensures Key(y) < 1 ==> NextAfterF(SMALLEST_SUBNORMAL, y) == POS_ZERO
    ensures Key(y) > -1 ==> NextAfterF(NEG_SMALLEST_SUBNORMAL, y) == NEG_ZERO
  {
    NextAfterMatchesSpec(SMALLEST_SUBNORMAL, y);
    NextAfterMatchesSpec(NEG_SMALLEST_SUBNORMAL, y);
  }

  /**
   * Overflow (lib/index.js:62-66): the exponent test fires exactly when x is
   * the largest finite magnitude stepping outward, and the signed infinity
   * returned there is the stepped word itself.
   */
  lemma OverflowBranch(x: Word, y: Word)
    requires !IsNaN(x) && !IsNaN(y) && Value(x) != Value(y) && Value(x) != Finite(0)
    ensures BitAnd(SteppedWord(x, y), INF_EXP_MASK) == INF_EXP_MASK <==>
      (x == MAX_FLOAT32 && Key(y) > Key(x)) || (x == NEG_MAX_FLOAT32 && Key(y) < Key(x))
    ensures BitAnd(SteppedWord(x, y), INF_EXP_MASK) == INF_EXP_MASK ==>
      SteppedWord(x, y) == (if SignBit(x) then NEG_INF else POS_INF)
  {
    KeyOrder(x, y);
    KeyOrder(x, POS_ZERO);
    SteppedExponent(x, y);
    SteppedKey(x, y);
    NaNByMagnitude(SteppedWord(x, y));
    NaNByMagnitude(y);
  }

  /** A finite x reaches an infinity only from the largest magnitude, toward that infinity. */
  lemma OverflowSaturation(x: Word, y: Word)
    requires !IsNaN(x) && !IsNaN(y) && !IsInfinite(x)
    ensures IsInfinite(NextAfterF(x, y)) <==>
      (x == MAX_FLOAT32 && y == POS_INF) || (x == NEG_MAX_FLOAT32 && y == NEG_INF)
    ensures NextAfterF(x, y) == POS_INF <==> x == MAX_FLOAT32 && y == POS_INF
    ensures NextAfterF(x, y) == NEG_INF <==> x == NEG_MAX_FLOAT32 && y == NEG_INF
  {
    NextAfterMatchesSpec(x, y);
    NaNByMagnitude(x);
    NaNByMagnitude(y);
    NaNByMagnitude(NextAfterF(x, y));
  }

  /**
   * Underflow (lib/index.js:67-71): when the stepped word's exponent bits
   * are below those of the smallest normal, the result is still exactly the
   * stepped word, a zero or a subnormal.
   */
  lemma UnderflowBranch(x: Word, y: Word)
    requires !IsNaN(x) && !IsNaN(y) && Value(x) != Value(y) && Value(x) != Finite(0)
    requires BitAnd(SteppedWord(x, y), INF_EXP_MASK) < MIN_NORMAL_EXP_MASK
    ensures NextAfterF(x, y) == SteppedWord(x, y)
    ensures IsZero(NextAfterF(x, y)) || IsSubnormal(NextAfterF(x, y))
  {
    SteppedExponent(x, y);
  }

  /**
   * Moving up: the result is above x, not above y, and no binary32 value
   * lies strictly between x and the result (lib/index.js:22-24).
   */
  lemma TowardGreater(x: Word, y: Word)
    requires !IsNaN(x) && !IsNaN(y) && Less(Value(x), Value(y))
    ensures !IsNaN(NextAfterF(x, y))
    ensures Key(NextAfterF(x, y)) == Key(x) + 1
    ensures Less(Value(x), Value(NextAfterF(x, y))) && !Less(Value(y), Value(NextAfterF(x, y)))
    ensures forall w: Word :: !IsNaN(w) ==>
      !(Less(Value(x), Value(w)) && Less(Value(w), Value(NextAfterF(x, y))))
  {
    KeyOrder(x, y);
    NextAfterMatchesSpec(x, y);
    var r := NextAfterF(x, y);
    KeyOrder(x, r);
    KeyOrder(y, r);
    forall w: Word | !IsNaN(w)
      ensures !(Less(Value(x), Value(w)) && Less(Value(w), Value(r)))
    {
      KeyOrder(x, w);
      KeyOrder(w, r);
    }
  }

  /**
   * Moving down: the result is below x, not below y, and no binary32 value
   * lies strictly between the result and x.
   */
  lemma TowardLess(x: Word, y: Word)
    requires !IsNaN(x) && !IsNaN(y) && Less(Value(y), Value(x))
    ensures !IsNaN(NextAfterF(x, y))
    ensures Key(NextAfterF(x, y)) == Key(x) - 1
    ensures Less(Value(NextAfterF(x, y)), Value(x)) && !Less(Value(NextAfterF(x, y)), Value(y))
    ensures forall w: Word :: !IsNaN(w) ==>
      !(Less(Value(NextAfterF(x, y)), Value(w)) && Less(Value(w), Value(x)))
  {
    KeyOrder(y, x);
    NextAfterMatchesSpec(x, y);
    var r := NextAfterF(x, y);
    KeyOrder(r, x);
    KeyOrder(r, y);
    forall w: Word | !IsNaN(w)
      ensures !(Less(Value(r), Value(w)) && Less(Value(w), Value(x)))
    {
      KeyOrder(r, w);
      KeyOrder(w, x);
    }
  }

  /** nextafterf commutes with negation: the negative side mirrors the positive one. */
  lemma NegationSymmetry(x: Word, y: Word)
    requires !IsNaN(x) && !IsNaN(y)
    ensures NextAfterF(Negate(x), Negate(y)) == Negate(NextAfterF(x, y))
  {
    NaNByMagnitude(x);
    NaNByMagnitude(y);
    NextAfterMatchesSpec(x, y);
    NextAfterMatchesSpec(Negate(x), Negate(y));
    var r, s := NextAfterF(x, y), NextAfterF(Negate(x), Negate(y));
    KeyAndSignDetermineWord(s, Negate(r));
  }

  /** From zero toward 1 and toward -1. */
  lemma ZeroToSmallestSubnormal()
    ensures NextAfterF(POS_ZERO, ONE) == SMALLEST_SUBNORMAL
    ensures NextAfterF(POS_ZERO, NEG_ONE) == NEG_SMALLEST_SUBNORMAL
  {
  }

  /** The largest magnitude steps to the infinity beyond it, and back down from it. */
  lemma InfinityBoundary()
    ensures NextAfterF(MAX_FLOAT32, POS_INF) == POS_INF
    ensures NextAfterF(NEG_MAX_FLOAT32, NEG_INF) == NEG_INF
    ensures NextAfterF(POS_INF, POS_ZERO) == MAX_FLOAT32
    ensures NextAfterF(POS_INF, POS_INF) == POS_INF
  {
    NextAfterMatchesSpec(MAX_FLOAT32, POS_INF);
    NextAfterMatchesSpec(NEG_MAX_FLOAT32, NEG_INF);
    NextAfterMatchesSpec(POS_INF, POS_ZERO);
    NextAfterMatchesSpec(POS_INF, POS_INF);
  }

  /** The subnormal/normal boundary is crossed by one step in both directions, on both sides. */
  lemma SubnormalNormalBoundary()
    ensures NextAfterF(SMALLEST_NORMAL, POS_ZERO) == LARGEST_SUBNORMAL
    ensures NextAfterF(Negate(SMALLEST_NORMAL), POS_ZERO) == Negate(LARGEST_SUBNORMAL)
    ensures NextAfterF(LARGEST_SUBNORMAL, ONE) == SMALLEST_NORMAL
    ensures NextAfterF(Negate(LARGEST_SUBNORMAL), NEG_ONE) == Negate(SMALLEST_NORMAL)
  {
    NextAfterMatchesSpec(SMALLEST_NORMAL, POS_ZERO);
    NextAfterMatchesSpec(Negate(SMALLEST_NORMAL), POS_ZERO);
    NextAfterMatchesSpec(LARGEST_SUBNORMAL, ONE);
    NextAfterMatchesSpec(Negate(LARGEST_SUBNORMAL), NEG_ONE);
  }

  /** One unit in the last place either side of 1.0. */
  lemma StepsAroundOne()
    ensures NextAfterF(ONE, TWO) == ONE + 1
    ensures NextAfterF(ONE, POS_ZERO) == ONE - 1
  {
    NextAfterMatchesSpec(ONE, TWO);
    NextAfterMatchesSpec(ONE, POS_ZERO);
  }
}

