/** What the arithmetic engine guarantees: the classification laws of each operator,
    negation laws, and that the representation handed to the codec denotes exactly the
    mathematical sum, exactly the product, or the guarded truncated quotient. */
module PCPositProperties {
  import opened Exact
  import opened PositRep
  import opened Renormalization
  import opened PCPosit

  // ---------------------------------------------------------------------------
  // Classification laws

  /** Zero is a two-sided identity of addition, field for field, for every operand
      (Normal, Zero or infinity). */
  lemma SumZeroIdentity(c: Codec, p: Posit)
    ensures Sum(c, Posit(p.fam, Zero), p) == p
    ensures Sum(c, p, Posit(p.fam, Zero)) == p
  {
  }

  /** Infinity plus a nonzero addend is whatever the codec decodes from the sign-bit
      pattern `2^(nbits-1)`; no rounding of an exact sum is involved. */
  lemma SumInfinityPattern(c: Codec, p: Posit, q: Posit)
    requires p.fam == q.fam
    requires p.rep.Cinf? || q.rep.Cinf?
    ensures !p.rep.Zero? && !q.rep.Zero? ==>
      Sum(c, p, q) == Posit(p.fam, c.decode(CinfPattern(p.fam), p.fam))
  {
  }

  /** With a codec that decodes the sign-bit pattern `2^(nbits-1)` to the unsigned
      infinity, infinity absorbs every addend, including Zero and an opposite value. */
  lemma SumInfinityAbsorbs(c: Codec, p: Posit, q: Posit)
    requires p.fam == q.fam
    requires c.decode(CinfPattern(p.fam), p.fam) == Cinf
    requires p.rep.Cinf? || q.rep.Cinf?
    ensures Sum(c, p, q).rep == Cinf
  {
  }

  /** Infinity takes precedence over Zero in multiplication; Zero absorbs every finite
      factor. */
  lemma ProductGating(c: Codec, p: Posit, q: Posit)
    requires p.fam == q.fam
    ensures (p.rep.Cinf? || q.rep.Cinf?) ==> Product(c, p, q) == Posit(p.fam, Cinf)
    ensures (p.rep.Zero? || q.rep.Zero?) && !p.rep.Cinf? && !q.rep.Cinf? ==>
      Product(c, p, q) == Posit(p.fam, Zero)
  {
  }

  /** A divisor Zero or a dividend infinity gives infinity, checked before a dividend
      Zero or a divisor infinity gives Zero: so `0 / 0` and `inf / inf` are infinity. */
  lemma QuotientGating(c: Codec, p: Posit, q: Posit)
    requires p.fam == q.fam
    ensures (p.rep.Cinf? || q.rep.Zero?) ==> Quotient(c, p, q) == Posit(p.fam, Cinf)
    ensures !p.rep.Cinf? && !q.rep.Zero? && (p.rep.Zero? || q.rep.Cinf?) ==>
      Quotient(c, p, q) == Posit(p.fam, Zero)
    ensures p.rep.Zero? && q.rep.Zero? ==> Quotient(c, p, q).rep == Cinf
    ensures p.rep.Cinf? && q.rep.Cinf? ==> Quotient(c, p, q).rep == Cinf
  {
  }

  // ---------------------------------------------------------------------------
  // Negation and subtraction

  /** Negation is an involution. */
  lemma NegInvolution(p: Posit)
    ensures Neg(Neg(p)) == p
  {
  }

  /** Subtracting a Zero or Normal value from itself cancels exactly to Zero, with no
      rounding step. */
  lemma DifferenceSelfIsZero(c: Codec, p: Posit)
    requires !p.rep.Cinf?
    ensures Difference(c, p, p) == Posit(p.fam, Zero)
  {
    if p.rep.Normal? {
      var d := Decompose(p.fam, p.rep);
      assert Decompose(p.fam, Neg(p).rep) == Dyadic(-d.x, d.m);
      assert AlignedSum(d, Dyadic(-d.x, d.m)).x == d.x * Pow2(0) + (-d.x) * Pow2(0);
    }
  }

  // ---------------------------------------------------------------------------
  // Exactness of the sum

  /** The engine's alignment computes the reference sum: the two exponents' minimum
      as the result exponent and, at every common base, the sum of the operands. */
  lemma {:induction false} AlignedSumIsSum(da: Dyadic, db: Dyadic)
    ensures AlignedSum(da, db) == DyAdd(da, db)
  {
    var L := Min(da.m, db.m);
    var c := AlignedSum(da, db);
    assert c.m == L;
    if da.m >= db.m {
      assert Pow2(db.m - db.m) == 1;
      assert c.x == ScaledAt(da, L) + ScaledAt(db, L);
    } else {
      assert Pow2(da.m - da.m) == 1;
      assert c.x == ScaledAt(da, L) + ScaledAt(db, L);
    }
  }

  /** The aligned sum keeps `xc * 2^mc = xa * 2^ma + xb * 2^mb`, measured at any
      common base. */
  lemma AlignedSumExact(da: Dyadic, db: Dyadic, L: int)
    requires L <= da.m && L <= db.m
    ensures L <= AlignedSum(da, db).m
    ensures ScaledAt(AlignedSum(da, db), L) == ScaledAt(da, L) + ScaledAt(db, L)
  {
    AlignedSumIsSum(da, db);
    DyAddAt(da, db, L);
  }

  /** The representation handed to the codec for Normal + Normal denotes exactly the
      mathematical sum; it is Zero exactly when the sum is zero, and otherwise a
      well-formed Normal whose sign is set exactly when the sum is negative. */
  lemma ExactSumDenotesSum(fam: Family, a: Rep, b: Rep)
    requires a.Normal? && b.Normal?
    ensures Denotes(fam, ExactSum(fam, a, b), DyAdd(Decompose(fam, a), Decompose(fam, b)))
    ensures ExactSum(fam, a, b).Zero? <==> DyAdd(Decompose(fam, a), Decompose(fam, b)).x == 0
    ensures ExactSum(fam, a, b).Normal? ==>
      WellFormed(fam, ExactSum(fam, a, b))
      && (ExactSum(fam, a, b).s == 1 <==> DyAdd(Decompose(fam, a), Decompose(fam, b)).x < 0)
  {
    var da, db := Decompose(fam, a), Decompose(fam, b);
    AlignedSumIsSum(da, db);
    var sum := DyAdd(da, db);
    if sum.x != 0 {
      var s: Bit := if sum.x < 0 then 1 else 0;
      assert Signed(s, Abs(sum.x)) == sum.x;
      RenormalizeDenotes(fam, s, Abs(sum.x), sum.m);
    }
  }

  /** A nonzero sum handed to the codec, measured in units of `2^L` for any `L` at
      or below both operands' exponents, is the sum of the operands so measured. */
  lemma ExactSumAt(fam: Family, a: Rep, b: Rep, L: int)
    requires a.Normal? && b.Normal?
    requires L <= Scale(fam, a) && L <= Scale(fam, b)
    requires ExactSum(fam, a, b).Normal?
    ensures L <= Decompose(fam, ExactSum(fam, a, b)).m
    ensures ScaledAt(Decompose(fam, ExactSum(fam, a, b)), L)
      == ScaledAt(Decompose(fam, a), L) + ScaledAt(Decompose(fam, b), L)
  {
    var da, db := Decompose(fam, a), Decompose(fam, b);
    ExactSumDenotesSum(fam, a, b);
    DyAddAt(da, db, L);
    SameValueAt(Decompose(fam, ExactSum(fam, a, b)), DyAdd(da, db), L);
  }

  /** Addition is commutative. */
  lemma SumCommutes(c: Codec, p: Posit, q: Posit)
    requires p.fam == q.fam
    ensures Sum(c, p, q) == Sum(c, q, p)
  {
    if p.rep.Normal? && q.rep.Normal? {
      var da, db := Decompose(p.fam, p.rep), Decompose(p.fam, q.rep);
      assert AlignedSum(da, db) == AlignedSum(db, da);
    }
  }

  // ---------------------------------------------------------------------------
  // Exactness of the product

  /** The representation handed to the codec for Normal * Normal is a well-formed
      Normal that denotes exactly the mathematical product; its sign is set exactly
      when the operands' signs differ. */
  lemma ExactProductDenotesProduct(fam: Family, a: Rep, b: Rep)
    requires a.Normal? && b.Normal?
    ensures ExactProduct(fam, a, b).Normal? && WellFormed(fam, ExactProduct(fam, a, b))
    ensures Denotes(fam, ExactProduct(fam, a, b), DyMul(Decompose(fam, a), Decompose(fam, b)))
    ensures ExactProduct(fam, a, b).s == 1 <==> a.s != b.s
  {
    var xa, xb := Significand(a), Significand(b);
    var xc := xa * xb;
    NonzeroProduct(xa, xb);
    var s: Bit := if xc < 0 then 1 else 0;
    assert Signed(s, Abs(xc)) == xc;
    RenormalizeDenotes(fam, s, Abs(xc), Scale(fam, a) + Scale(fam, b));
    ProductSign(xa, xb);
  }

  lemma ProductSign(x: int, y: int)
    requires x != 0 && y != 0
    ensures x * y < 0 <==> (x < 0) != (y < 0)
  {
    if x < 0 && y < 0 {
      assert x * y == (-x) * (-y);
    } else if x < 0 {
      assert x * y == -((-x) * y);
    } else if y < 0 {
      assert x * y == -(x * (-y));
    }
  }

  /** The Normal handed to the codec, measured in units of `2^(La + Lb)`, is the
      product of the operands measured in units of `2^La` and `2^Lb`. */
  lemma ExactProductAt(fam: Family, a: Rep, b: Rep, La: int, Lb: int)
    requires a.Normal? && b.Normal?
    requires La <= Scale(fam, a) && Lb <= Scale(fam, b)
    ensures ExactProduct(fam, a, b).Normal?
    ensures La + Lb <= Decompose(fam, ExactProduct(fam, a, b)).m
    ensures ScaledAt(Decompose(fam, ExactProduct(fam, a, b)), La + Lb)
      == ScaledAt(Decompose(fam, a), La) * ScaledAt(Decompose(fam, b), Lb)
  {
    var da, db := Decompose(fam, a), Decompose(fam, b);
    ExactProductDenotesProduct(fam, a, b);
    DyMulAt(da, db, La, Lb);
    SameValueAt(Decompose(fam, ExactProduct(fam, a, b)), DyMul(da, db), La + Lb);
  }

  /** Multiplication is commutative. */
  lemma ProductCommutes(c: Codec, p: Posit, q: Posit)
    requires p.fam == q.fam
    ensures Product(c, p, q) == Product(c, q, p)
  {
    if p.rep.Normal? && q.rep.Normal? {
      var xa, xb := Significand(p.rep), Significand(q.rep);
      assert xa * xb == xb * xa;
    }
  }

  // ---------------------------------------------------------------------------
  // The quotient

  /** The guarded truncated quotient `q` brackets the true quotient of the magnitudes:
      `q.x * 2^mc * |b| <= |a| < (q.x + 1) * 2^mc * |b|`. */
  lemma QuotientBrackets(fam: Family, a: Rep, b: Rep)
    requires a.Normal? && b.Normal?
    ensures
      var q := QuotientDyadic(fam, a, b);
      && DyLe(DyMul(q, DyAbs(Decompose(fam, b))), DyAbs(Decompose(fam, a)))
      && DyLt(DyAbs(Decompose(fam, a)), DyMul(Dyadic(q.x + 1, q.m), DyAbs(Decompose(fam, b))))
  {
    var da, db := DyAbs(Decompose(fam, a)), DyAbs(Decompose(fam, b));
    var g := GuardShift(fam, da.m, db.m);
    var q := QuotientDyadic(fam, a, b);
    assert q == Dyadic((da.x * Pow2(g)) / db.x, da.m - db.m - g);
    FloorBrackets(da.x * Pow2(g), db.x);
    ScaledProduct(q.x, q.m, db);
    ScaledProduct(q.x + 1, q.m, db);
    assert ScaledAt(da, da.m - g) == da.x * Pow2(g);
  }

  /** Truncating division by a positive divisor brackets the dividend. */
  lemma FloorBrackets(n: int, d: int)
    requires d >= 1
    ensures (n / d) * d <= n < (n / d + 1) * d
  {
    assert n == d * (n / d) + n % d;
  }

  /** Measured at its own exponent, a product of dyadics is the product of the integers. */
  lemma ScaledProduct(y: int, my: int, d: Dyadic)
    ensures ScaledAt(DyMul(Dyadic(y, my), d), my + d.m) == y * d.x
  {
    assert Pow2(0) == 1;
  }

  /** The representation handed to the codec for Normal / Normal is Zero exactly when
      the truncated quotient is zero, and otherwise a well-formed Normal that denotes
      exactly that quotient with the sign set exactly when the operands' signs differ. */
  lemma ExactQuotientDenotes(fam: Family, a: Rep, b: Rep)
    requires a.Normal? && b.Normal?
    ensures
      var q := QuotientDyadic(fam, a, b);
      && (ExactQuotient(fam, a, b).Zero? <==> q.x == 0)
      && (q.x != 0 ==>
            && WellFormed(fam, ExactQuotient(fam, a, b))
            && (ExactQuotient(fam, a, b).s == 1 <==> a.s != b.s)
            && Denotes(fam, ExactQuotient(fam, a, b), Dyadic(Signed(QuotientSign(a, b), q.x), q.m)))
  {
    var q := QuotientDyadic(fam, a, b);
    if q.x != 0 {
      RenormalizeDenotes(fam, QuotientSign(a, b), q.x, q.m);
    }
  }

  /** Because the guard shift is clamped at zero, the quotient's exponent is the
      smaller of `ma - mb` and the format's precision floor
      `-(2^es * (nbits - 2) + nbits - 1)`; either one can be reached. */
  lemma QuotientExponentBound(fam: Family, a: Rep, b: Rep)
    requires a.Normal? && b.Normal?
    ensures QuotientDyadic(fam, a, b).m
      == Min(Scale(fam, a) - Scale(fam, b), -(Pow2(fam.es) * (fam.nbits - 2) + fam.nbits - 1))
  {
  }

  // ---------------------------------------------------------------------------
  // Closure: results of a well-behaved codec stay well formed

  /** The codec only ever decodes to well-formed representations. */
  ghost predicate DecodesWellFormed(c: Codec)
  {
    forall bits: int, fam: Family {:trigger c.decode(bits, fam)} :: WellFormed(fam, c.decode(bits, fam))
  }

  lemma DecodedWellFormed(c: Codec, bits: int, fam: Family)
    requires DecodesWellFormed(c)
    ensures WellFormed(fam, c.decode(bits, fam))
  {
  }

  /** Given such a codec, addition and subtraction map well-formed operands to a
      well-formed result. */
  lemma SumPreservesWellFormed(c: Codec, p: Posit, q: Posit)
    requires p.fam == q.fam && DecodesWellFormed(c)
    requires WellFormed(p.fam, p.rep) && WellFormed(q.fam, q.rep)
    ensures WellFormed(p.fam, Sum(c, p, q).rep)
    ensures WellFormed(p.fam, Difference(c, p, q).rep)
  {
    SumWellFormed(c, p, q);
    SumWellFormed(c, p, Neg(q));
  }

  lemma SumWellFormed(c: Codec, p: Posit, q: Posit)
    requires p.fam == q.fam && DecodesWellFormed(c)
    requires WellFormed(p.fam, p.rep) && WellFormed(q.fam, q.rep)
    ensures WellFormed(p.fam, Sum(c, p, q).rep)
  {
    if !p.rep.Zero? && !q.rep.Zero? {
      if p.rep.Cinf? || q.rep.Cinf? {
        DecodedWellFormed(c, CinfPattern(p.fam), p.fam);
      } else {
        DecodedWellFormed(c, c.encode(p.fam, ExactSum(p.fam, p.rep, q.rep)), p.fam);
      }
    }
  }

  /** Given such a codec, multiplication and division map well-formed operands to a
      well-formed result. */
  lemma ProductQuotientWellFormed(c: Codec, p: Posit, q: Posit)
    requires p.fam == q.fam && DecodesWellFormed(c)
    ensures WellFormed(p.fam, Product(c, p, q).rep)
    ensures WellFormed(p.fam, Quotient(c, p, q).rep)
  {
    if p.rep.Normal? && q.rep.Normal? {
      DecodedWellFormed(c, c.encode(p.fam, ExactProduct(p.fam, p.rep, q.rep)), p.fam);
      DecodedWellFormed(c, c.encode(p.fam, ExactQuotient(p.fam, p.rep, q.rep)), p.fam);
    }
  }

  // ---------------------------------------------------------------------------
  // Concrete cases in the 8-bit family with es = 0

  /** In a family with `es = 0` (such as the 8-bit one), `1 + 1` is assembled as
      `2`: regime 1, no exponent or fraction bits. */
  lemma OnePlusOne(fam: Family, one: Rep)
    requires fam.es == 0 && one == Normal(0, 0, 0, 0, 0)
    ensures ExactSum(fam, one, one) == Normal(0, 1, 0, 0, 0)
  {
    DecomposeOne(fam, one);
    OnePlusOneStripped(fam, one);
    AssembleUnit(fam, 0, 1);
  }

  lemma OnePlusOneStripped(fam: Family, one: Rep)
    requires one.Normal? && Decompose(fam, one) == Dyadic(1, 0)
    ensures ExactSum(fam, one, one) == Assemble(fam, 0, Dyadic(1, 1))
  {
    AlignedOnes();
    StripTwo();
    PositiveSum(fam, one, one, 2, 0, Dyadic(1, 1));
  }

  lemma DecomposeOne(fam: Family, one: Rep)
    requires one == Normal(0, 0, 0, 0, 0)
    ensures Decompose(fam, one) == Dyadic(1, 0)
  {
    assert Pow2(0) == 1;
  }

  lemma AlignedOnes()
    ensures AlignedSum(Dyadic(1, 0), Dyadic(1, 0)) == Dyadic(2, 0)
  {
    assert Pow2(0) == 1;
  }

  lemma StripTwo()
    ensures Strip(2, 0) == Dyadic(1, 1)
  {
    assert Strip(1, 1) == Dyadic(1, 1);
  }

  lemma PositiveSum(fam: Family, a: Rep, b: Rep, x: int, m: int, d: Dyadic)
    requires a.Normal? && b.Normal? && x >= 1
    requires AlignedSum(Decompose(fam, a), Decompose(fam, b)) == Dyadic(x, m)
    requires Strip(x, m) == d
    ensures ExactSum(fam, a, b) == Assemble(fam, 0, d)
  {
  }

  lemma AssembleUnit(fam: Family, s: Bit, m: int)
    requires fam.es == 0
    ensures Assemble(fam, s, Dyadic(1, m)) == Normal(s, m, 0, 0, 0)
  {
    assert Log2(1) == 0;
    assert Pow2(fam.es) == 1;
  }

  /** In a family with `es = 0`, `3 * 3` is assembled as `9 = (2^3 + 1) * 2^0`:
      regime 3, fraction `001`. */
  lemma ThreeTimesThree(fam: Family)
    requires fam.es == 0
    ensures ExactProduct(fam, Normal(0, 1, 0, 1, 1), Normal(0, 1, 0, 1, 1))
      == Normal(0, 3, 0, 3, 1)
  {
    assert Decompose(fam, Normal(0, 1, 0, 1, 1)) == Dyadic(3, 0) by {
      assert Pow2(0) == 1 && Pow2(1) == 2;
    }
    assert Strip(9, 0) == Dyadic(9, 0);
    assert Log2(9) == 3 by {
      assert Log2(1) == 0;
      assert Log2(2) == 1;
      assert Log2(4) == 2;
    }
    assert Assemble(fam, 0, Dyadic(9, 0)) == Normal(0, 3, 0, 3, 1) by {
      assert Pow2(fam.es) == 1 && Pow2(3) == 8;
    }
  }
}
