/**
 * The IEEE 754-2008 binary32 interchange format (section 3.4 of the
 * standard): a 32-bit word holding 1 sign bit, an 8-bit biased exponent
 * and a 23-bit fraction.
 *
 * A word is modelled as the natural number it spells, and the number it
 * denotes as an exact integer multiple of the smallest subnormal 2^-149
 * (every finite binary32 value is one), or as a signed infinity.  The
 * ordering key Key(w) turns the numeric comparisons `<`, `>` and `===`
 * on non-NaN values into integer comparisons (KeyOrder).
 */
module Binary32 {
  import opened Bits

  type Word = w: nat | w < 0x1_0000_0000

  const SIGN_BIT: nat := 0x8000_0000
  /** The exponent field, all ones (lib/index.js:14). */
  const INF_EXP_MASK: nat := 0x7F80_0000
  /** Exponent field 1, the smallest exponent of a normal number (lib/index.js:17). */
  const MIN_NORMAL_EXP_MASK: nat := 0x0080_0000
  /** 2^23: one unit of the exponent field, and the implicit leading significand bit. */
  const HIDDEN_BIT: nat := 0x0080_0000
  /** Magnitude of an infinity, and the largest key of a non-NaN word. */
  const INF_KEY: int := 0x7F80_0000

  const POS_ZERO: Word := 0x0000_0000
  const NEG_ZERO: Word := 0x8000_0000
  const SMALLEST_SUBNORMAL: Word := 0x0000_0001
  const NEG_SMALLEST_SUBNORMAL: Word := 0x8000_0001
  const LARGEST_SUBNORMAL: Word := 0x007F_FFFF
  const SMALLEST_NORMAL: Word := 0x0080_0000
  const MAX_FLOAT32: Word := 0x7F7F_FFFF
  const NEG_MAX_FLOAT32: Word := 0xFF7F_FFFF
  const POS_INF: Word := 0x7F80_0000
  const NEG_INF: Word := 0xFF80_0000
  /** The quiet NaN a JavaScript `NaN` narrows to. */
  const QUIET_NAN: Word := 0x7FC0_0000

  predicate SignBit(w: Word)
  {
    w >= SIGN_BIT
  }

  /** The word with its sign bit cleared. */
  function Magnitude(w: Word): nat
  {
    if SignBit(w) then w - SIGN_BIT else w
  }

  function ExpField(w: Word): nat
  {
    Magnitude(w) / HIDDEN_BIT
  }

  function Fraction(w: Word): nat
  {
    Magnitude(w) % HIDDEN_BIT
  }

  predicate IsNaN(w: Word)
  {
    ExpField(w) == 0xFF && Fraction(w) != 0
  }

  predicate IsInfinite(w: Word)
  {
    ExpField(w) == 0xFF && Fraction(w) == 0
  }

  predicate IsZero(w: Word)
  {
    Magnitude(w) == 0
  }

  predicate IsSubnormal(w: Word)
  {
    ExpField(w) == 0 && Fraction(w) != 0
  }

  /** Flipping the sign bit of a word: the JavaScript unary minus. */
  function Negate(w: Word): (n: Word)
    ensures Magnitude(n) == Magnitude(w) && SignBit(n) != SignBit(w)
  {
    if SignBit(w) then w - SIGN_BIT else w + SIGN_BIT
  }

  /** NaNs are exactly the words whose magnitude lies above that of infinity. */
  lemma NaNByMagnitude(w: Word)
    ensures IsNaN(w) <==> Magnitude(w) > INF_KEY
    ensures IsInfinite(w) <==> Magnitude(w) == INF_KEY
    ensures Magnitude(w) < 0x8000_0000
  {
  }

  /** The JavaScript test `w & INF_EXP_MASK` keeps the exponent field in place. */
  lemma {:induction false} ExpMaskBits(w: Word)
    ensures BitAnd(w, INF_EXP_MASK) == ExpField(w) * HIDDEN_BIT
  {
    assert Pow2(8) == 0x100;
    assert Pow2(23) == HIDDEN_BIT;
    assert FieldMask(23, 8) == INF_EXP_MASK;
    BitAndFieldMask(w, 23, 8);
  }

  /**
   * The ordering key: the magnitude, negated when the sign bit is set.
   * Both zeros have key 0; the infinities have keys -INF_KEY and INF_KEY.
   */
  function Key(w: Word): int
  {
    if SignBit(w) then -(Magnitude(w) as int) else Magnitude(w)
  }

  /** The value of a non-NaN word: a finite multiple of 2^-149, or an infinity. */
  datatype Extended = NegInf | Finite(units: int) | PosInf

  predicate Less(a: Extended, b: Extended)
  {
    match (a, b)
    case (NegInf, NegInf) => false
    case (NegInf, _) => true
    case (Finite(u), Finite(v)) => u < v
    case (Finite(_), PosInf) => true
    case (_, _) => false
  }

  /**
   * The value of a finite non-negative word with magnitude m, in units of
   * 2^-149: the fraction itself for a subnormal (exponent field 0), and
   * (2^23 + fraction) * 2^(e - 1) for a normal number with exponent field e,
   * that is (1 + fraction / 2^23) * 2^(e - 127) scaled by 2^149.
   */
  function MagnitudeUnits(m: nat): nat
    requires m < INF_KEY
  {
    var e, f := m / HIDDEN_BIT, m % HIDDEN_BIT;
    if e == 0 then f else (HIDDEN_BIT + f) * Pow2(e - 1)
  }

  function Value(w: Word): Extended
    requires !IsNaN(w)
  {
    if IsInfinite(w) then (if SignBit(w) then NegInf else PosInf)
    else Finite(if SignBit(w) then -(MagnitudeUnits(Magnitude(w)) as int) else MagnitudeUnits(Magnitude(w)))
  }

  /** Lower and upper bounds on the value of a finite magnitude with exponent field e >= 1. */
  lemma NormalUnitsBounds(m: nat)
    requires HIDDEN_BIT <= m < INF_KEY
    ensures HIDDEN_BIT * Pow2(m / HIDDEN_BIT - 1) <= MagnitudeUnits(m) < HIDDEN_BIT * Pow2(m / HIDDEN_BIT)
  {
    var e, f := m / HIDDEN_BIT, m % HIDDEN_BIT;
    var p := Pow2(e - 1);
    assert MagnitudeUnits(m) == (HIDDEN_BIT + f) * p;
    assert Pow2(e) == 2 * p;
    MulStrict(f, HIDDEN_BIT, p);
    assert (HIDDEN_BIT + f) * p == HIDDEN_BIT * p + f * p;
    Associate(HIDDEN_BIT, 2, p);
  }

  /** Encoding-monotone: a larger finite magnitude denotes a strictly larger value. */
  lemma MagnitudeUnitsIncreasing(m1: nat, m2: nat)
    requires m1 < m2 < INF_KEY
    ensures MagnitudeUnits(m1) < MagnitudeUnits(m2)
  {
    var e1, e2 := m1 / HIDDEN_BIT, m2 / HIDDEN_BIT;
    var f1, f2 := m1 % HIDDEN_BIT, m2 % HIDDEN_BIT;
    if e1 == e2 {
      if e1 > 0 {
        var p := Pow2(e1 - 1);
        assert (HIDDEN_BIT + f1) * p < (HIDDEN_BIT + f2) * p;
      }
    } else {
      assert e1 < e2;
      NormalUnitsBounds(m2);
      Pow2Monotone(e1, e2 - 1);
      assert HIDDEN_BIT * Pow2(e1) <= HIDDEN_BIT * Pow2(e2 - 1);
      if e1 > 0 {
        NormalUnitsBounds(m1);
      }
    }
  }

  /** The value belonging to a key in [-INF_KEY, INF_KEY]. */
  function KeyValue(k: int): Extended
    requires -INF_KEY <= k <= INF_KEY
  {
    if k == INF_KEY then PosInf
    else if k == -INF_KEY then NegInf
    else if k >= 0 then Finite(MagnitudeUnits(k))
    else Finite(-(MagnitudeUnits(-k) as int))
  }

  lemma ValueByKey(w: Word)
    requires !IsNaN(w)
    ensures -INF_KEY <= Key(w) <= INF_KEY
    ensures Value(w) == KeyValue(Key(w))
  {
  }

  lemma KeyValueIncreasing(k1: int, k2: int)
    requires -INF_KEY <= k1 < k2 <= INF_KEY
    ensures Less(KeyValue(k1), KeyValue(k2))
  {
    if k1 != -INF_KEY && k2 != INF_KEY {
      if 0 <= k1 {
        MagnitudeUnitsIncreasing(k1, k2);
      } else if k2 <= 0 {
        MagnitudeUnitsIncreasing(-k2, -k1);
      }
    }
  }

  /**
   * Key is order-isomorphic to the value on non-NaN words: the numeric
   * comparisons `<` and `===` are integer comparisons of keys.
   */
  lemma KeyOrder(a: Word, b: Word)
    requires !IsNaN(a) && !IsNaN(b)
    ensures Key(a) < Key(b) <==> Less(Value(a), Value(b))
    ensures Key(a) == Key(b) <==> Value(a) == Value(b)
  {
    ValueByKey(a);
    ValueByKey(b);
    if Key(a) < Key(b) {
      KeyValueIncreasing(Key(a), Key(b));
    } else if Key(b) < Key(a) {
      KeyValueIncreasing(Key(b), Key(a));
    }
  }

  /**
   * The word with a given key; for key 0 the sign bit picks the zero.
   * Every key in [-INF_KEY, INF_KEY] belongs to a non-NaN word.
   */
  function FromKey(k: int, negative: bool): (w: Word)
    requires -INF_KEY <= k <= INF_KEY
    ensures !IsNaN(w) && Key(w) == k
    ensures SignBit(w) == (k < 0 || (k == 0 && negative))
  {
    if k > 0 then k
    else if k < 0 then SIGN_BIT - k
    else if negative then NEG_ZERO
    else POS_ZERO
  }

  /** Two non-NaN words with the same key and sign bit are the same word. */
  lemma KeyAndSignDetermineWord(a: Word, b: Word)
    requires !IsNaN(a) && !IsNaN(b)
    requires Key(a) == Key(b) && SignBit(a) == SignBit(b)
    ensures a == b
  {
  }
}
