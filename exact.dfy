/** Exact binary arithmetic on unbounded integers.

    A dyadic number `Dyadic(x, m)` stands for the rational `x * 2^m` (with `m` possibly
    negative). Two dyadics are compared by scaling both to a common base exponent `L`
    that is no larger than either exponent, so no real numbers are ever needed. */
module Exact {

  /** `2^n` for a natural `n`. */
  function Pow2(n: nat): (r: int)
    ensures r >= 1
  {
    if n == 0 then 1 else 2 * Pow2(n - 1)
  }

  lemma {:induction false} Pow2Add(a: nat, b: nat)
    ensures Pow2(a + b) == Pow2(a) * Pow2(b)
  {
    if a > 0 {
      Pow2Add(a - 1, b);
      calc {
        Pow2(a + b);
        2 * Pow2(a - 1 + b);
        2 * (Pow2(a - 1) * Pow2(b));
        (2 * Pow2(a - 1)) * Pow2(b);
      }
    }
  }

  lemma MulAssoc(a: int, b: int, c: int)
    ensures a * (b * c) == (a * b) * c
  {
  }

  function Max(a: int, b: int): int { if a >= b then a else b }

  function Min(a: int, b: int): int { if a <= b then a else b }

  function Abs(x: int): nat { if x < 0 then -x else x }

  /** The rational number `x * 2^m`. */
  datatype Dyadic = Dyadic(x: int, m: int)

  /** The integer `d.x * 2^(d.m - L)`, that is, `d` measured in units of `2^L`. */
  function ScaledAt(d: Dyadic, L: int): int
    requires L <= d.m
  {
    d.x * Pow2(d.m - L)
  }

  /** Lowering the base exponent by `n` multiplies the scaled integer by `2^n`. */
  lemma ScaledAtLower(d: Dyadic, L: int, n: nat)
    requires L <= d.m
    ensures ScaledAt(d, L - n) == ScaledAt(d, L) * Pow2(n)
  {
    var k: nat := d.m - L;
    Pow2Add(k, n);
    MulAssoc(d.x, Pow2(k), Pow2(n));
    assert d.m - (L - n) == k + n;
  }

  /** `d1` and `d2` denote the same rational number. */
  predicate SameValue(d1: Dyadic, d2: Dyadic)
  {
    var L := Min(d1.m, d2.m);
    ScaledAt(d1, L) == ScaledAt(d2, L)
  }

  /** Two dyadics denote the same number exactly when they agree at any one common base. */
  lemma SameValueAt(d1: Dyadic, d2: Dyadic, L: int)
    requires L <= d1.m && L <= d2.m
    ensures SameValue(d1, d2) <==> ScaledAt(d1, L) == ScaledAt(d2, L)
  {
    var M := Min(d1.m, d2.m);
    var n: nat := M - L;
    ScaledAtLower(d1, M, n);
    ScaledAtLower(d2, M, n);
    assert L == M - n;
    if ScaledAt(d1, L) == ScaledAt(d2, L) {
      MulCancel(ScaledAt(d1, M), ScaledAt(d2, M), Pow2(n));
    }
  }

  lemma MulCancel(a: int, b: int, p: int)
    requires p >= 1 && a * p == b * p
    ensures a == b
  {
    assert (a - b) * p == a * p - b * p;
  }

  /** Reference sum: both operands measured in units of the smaller exponent. */
  function DyAdd(d1: Dyadic, d2: Dyadic): Dyadic
  {
    var L := Min(d1.m, d2.m);
    Dyadic(ScaledAt(d1, L) + ScaledAt(d2, L), L)
  }

  /** Reference product: multiply the integers, add the exponents. */
  function DyMul(d1: Dyadic, d2: Dyadic): Dyadic
  {
    Dyadic(d1.x * d2.x, d1.m + d2.m)
  }

  function DyNeg(d: Dyadic): Dyadic
  {
    Dyadic(-d.x, d.m)
  }

  /** The magnitude of `d`. */
  function DyAbs(d: Dyadic): Dyadic
  {
    Dyadic(Abs(d.x), d.m)
  }

  /** `d1 <= d2` as rational numbers. */
  predicate DyLe(d1: Dyadic, d2: Dyadic)
  {
    var L := Min(d1.m, d2.m);
    ScaledAt(d1, L) <= ScaledAt(d2, L)
  }

  /** `d1 < d2` as rational numbers. */
  predicate DyLt(d1: Dyadic, d2: Dyadic)
  {
    var L := Min(d1.m, d2.m);
    ScaledAt(d1, L) < ScaledAt(d2, L)
  }

  /** The reference sum is the sum of the values at every common base. */
  lemma DyAddAt(d1: Dyadic, d2: Dyadic, L: int)
    requires L <= d1.m && L <= d2.m
    ensures L <= DyAdd(d1, d2).m
    ensures ScaledAt(DyAdd(d1, d2), L) == ScaledAt(d1, L) + ScaledAt(d2, L)
  {
    var M := Min(d1.m, d2.m);
    var n: nat := M - L;
    ScaledAtLower(d1, M, n);
    ScaledAtLower(d2, M, n);
    ScaledAtLower(DyAdd(d1, d2), M, n);
    assert Pow2(0) == 1;
    assert ScaledAt(DyAdd(d1, d2), M) == ScaledAt(d1, M) + ScaledAt(d2, M);
    assert (ScaledAt(d1, M) + ScaledAt(d2, M)) * Pow2(n)
        == ScaledAt(d1, M) * Pow2(n) + ScaledAt(d2, M) * Pow2(n);
  }

  /** The reference product is the product of the values: measured in units of
      `2^(L1 + L2)` it is the product of the operands measured in `2^L1` and `2^L2`. */
  lemma DyMulAt(d1: Dyadic, d2: Dyadic, L1: int, L2: int)
    requires L1 <= d1.m && L2 <= d2.m
    ensures L1 + L2 <= DyMul(d1, d2).m
    ensures ScaledAt(DyMul(d1, d2), L1 + L2) == ScaledAt(d1, L1) * ScaledAt(d2, L2)
  {
    var n1: nat, n2: nat := d1.m - L1, d2.m - L2;
    Pow2Add(n1, n2);
    assert d1.m + d2.m - (L1 + L2) == n1 + n2;
    MulInterchange(d1.x, d2.x, Pow2(n1), Pow2(n2));
  }

  lemma MulInterchange(a: int, b: int, c: int, d: int)
    ensures (a * b) * (c * d) == (a * c) * (b * d)
  {
  }
}
