/**
 * Unsigned integer bit arithmetic: powers of two and a bitwise AND on
 * naturals, with the fact that ANDing with a contiguous mask extracts a
 * bit field.  JavaScript's `&` works on 32-bit two's-complement integers;
 * for an operand below 2^32 and a mask below 2^31 its result equals the
 * unsigned AND defined here.
 */
module Bits {

  /** 2^n. */
  function Pow2(n: nat): (r: nat)
    ensures r >= 1
  {
    if n == 0 then 1 else 2 * Pow2(n - 1)
  }

  lemma {:induction false} Pow2Monotone(m: nat, n: nat)
    requires m <= n
    ensures Pow2(m) <= Pow2(n)
  {
    if m < n {
      Pow2Monotone(m, n - 1);
    }
  }

  /** A mask of `len` one bits starting at bit `lo`. */
  function FieldMask(lo: nat, len: nat): nat
  {
    (Pow2(len) - 1) * Pow2(lo)
  }

  /** Bitwise AND of two naturals, one bit at a time from the least significant. */
  function BitAnd(a: nat, b: nat): nat
    decreases a
  {
    if a == 0 || b == 0 then 0
    else 2 * BitAnd(a / 2, b / 2) + (if a % 2 == 1 && b % 2 == 1 then 1 else 0)
  }

  /** Division with remainder has a unique answer. */
  lemma DivModUnique(w: int, d: int, q: int, m: int)
    requires d > 0 && 0 <= m < d && w == d * q + m
    ensures w / d == q && w % d == m
  {
    var q', m' := w / d, w % d;
    assert d * (q' - q) == m - m';
    MulWithinBound(d, q' - q, m - m');
  }

  /** A multiple of a positive d strictly between -d and d is 0. */
  lemma MulWithinBound(d: int, k: int, r: int)
    requires d > 0 && d * k == r && -d < r < d
    ensures k == 0
  {
  }

  /** Peeling off the lowest bit commutes with a power-of-two remainder. */
  lemma ModStep(w: nat, q: nat)
    requires q > 0
    ensures w % (2 * q) == 2 * ((w / 2) % q) + w % 2
  {
    var a, k, s := w / 2, (w / 2) / q, (w / 2) % q;
    assert w == 2 * a + w % 2;
    assert a == q * k + s;
    assert w == (2 * q) * k + (2 * s + w % 2);
    DivModUnique(w, 2 * q, k, 2 * s + w % 2);
  }

  /** Peeling off the lowest bit commutes with a power-of-two quotient. */
  lemma DivStep(w: nat, q: nat)
    requires q > 0
    ensures (w / 2) / q == w / (2 * q)
  {
    var a, k, s := w / 2, (w / 2) / q, (w / 2) % q;
    assert w == 2 * a + w % 2;
    assert a == q * k + s;
    assert w == (2 * q) * k + (2 * s + w % 2);
    DivModUnique(w, 2 * q, k, 2 * s + w % 2);
  }

  /** ANDing with 2^len - 1 keeps the low `len` bits. */
  lemma {:induction false} BitAndLowMask(w: nat, len: nat)
    ensures BitAnd(w, Pow2(len) - 1) == w % Pow2(len)
  {
    if len > 0 && w > 0 {
      var q := Pow2(len - 1);
      var m := Pow2(len) - 1;
      assert Pow2(len) == 2 * q;
      assert m / 2 == q - 1 && m % 2 == 1;
      var low := BitAnd(w / 2, q - 1);
      assert BitAnd(w, m) == 2 * low + w % 2;
      BitAndLowMask(w / 2, len - 1);
      assert low == (w / 2) % q;
      ModStep(w, q);
      assert w % Pow2(len) == w % (2 * q);
    } else if len == 0 {
      assert Pow2(len) == 1;
    } else {
      DivModUnique(w, Pow2(len), 0, 0);
    }
  }

  /** ANDing with FieldMask(lo, len) extracts bits lo .. lo+len-1 in place. */
  lemma {:induction false} BitAndFieldMask(w: nat, lo: nat, len: nat)
    ensures BitAnd(w, FieldMask(lo, len)) == (w / Pow2(lo)) % Pow2(len) * Pow2(lo)
  {
    if lo == 0 {
      assert Pow2(lo) == 1;
      assert FieldMask(lo, len) == Pow2(len) - 1;
      BitAndLowMask(w, len);
    } else if len == 0 {
      assert Pow2(len) == 1;
      assert FieldMask(lo, len) == 0;
    } else if w == 0 {
      DivModUnique(0, Pow2(lo), 0, 0);
      DivModUnique(0, Pow2(len), 0, 0);
    } else {
      var p := Pow2(lo - 1);
      var m := Pow2(len) - 1;
      assert Pow2(lo) == 2 * p;
      Associate(2, m, p);
      assert FieldMask(lo, len) == 2 * (m * p);
      assert FieldMask(lo, len) / 2 == FieldMask(lo - 1, len);
      assert FieldMask(lo, len) % 2 == 0;
      BitAndFieldMask(w / 2, lo - 1, len);
      DivStep(w, p);
      var x := (w / Pow2(lo)) % Pow2(len);
      assert BitAnd(w, FieldMask(lo, len)) == 2 * (x * p);
      Associate(2, x, p);
    }
  }

  /** Multiplying by a positive number keeps a strict order. */
  lemma MulStrict(a: int, b: int, c: int)
    requires a < b && c > 0
    ensures a * c < b * c
  {
  }

  /** Factors of a product can be regrouped. */
  lemma Associate(a: int, b: int, c: int)
    ensures a * (b * c) == b * (a * c)
  {
  }
}
