/** The posit value wrapper and its arithmetic engine.

    Every binary operator first classifies both operands (Zero, unsigned infinity
    `Cinf`, Normal). Only for two Normal operands does it compute, on unbounded
    integers, the exact sum or product, or the quotient truncated at a guard precision;
    it then renormalizes that result into posit fields and hands the assembled
    representation to the codec for rounding. The functions below are the semantics;
    the methods `Add`, `Mul` and `Div` run the engine's steps and loops and are proved
    to compute exactly those functions. */
module PCPosit {
  import opened Exact
  import opened PositRep
  import opened Renormalization

  datatype Option<T> = None | Some(value: T) {
    function GetOr(default: T): T
    {
      if Some? then value else default
    }
  }

  datatype Result<T, E> = Ok(value: T) | Err(error: E)

  // ---------------------------------------------------------------------------
  // Construction

  /** The kinds of input the constructor can be handed. */
  datatype Input =
    | NoInput
    | PositInput(p: Posit)
    | IntInput(n: int)
    | StrInput(text: string)
    | OtherInput

  datatype InitError =
    | MismatchedNbits          // copy with an explicit, different width
    | MismatchedEs             // copy with an explicit, different exponent-field width
    | BitStringNotImplemented  // textual bit pattern
    | InputNotSupported        // any other input

  const DefaultNbits: Width := 32
  const DefaultEs: nat := 2

  /** A pinned family parameter agrees with the actual one, or nothing was pinned. */
  predicate Agrees<T(==)>(pinned: Option<T>, actual: T)
  {
    pinned.Some? ==> pinned.value == actual
  }

  /** The constructor: no input gives Zero, a posit is copied when the pinned family
      parameters agree with its own, and an integer in bits mode is decoded as a bit
      pattern of the family. */
  function New(c: Codec, v: Input, bitsMode: bool, nbits: Option<Width>, es: Option<nat>)
    : (r: Result<Posit, InitError>)
    ensures r.Ok? <==>
      || v.NoInput?
      || (v.PositInput? && Agrees(nbits, v.p.fam.nbits) && Agrees(es, v.p.fam.es))
      || (v.IntInput? && bitsMode)
    ensures r.Ok? ==> Agrees(nbits, r.value.fam.nbits) && Agrees(es, r.value.fam.es)
    ensures r.Ok? && !v.PositInput? ==> r.value.fam == Family(nbits.GetOr(DefaultNbits), es.GetOr(DefaultEs))
    ensures r.Ok? && v.NoInput? ==> r.value.rep == Zero
    ensures r.Ok? && v.PositInput? ==> r.value == v.p
    ensures v.PositInput? && !Agrees(nbits, v.p.fam.nbits) ==> r == Err(MismatchedNbits)
    ensures v.PositInput? && Agrees(nbits, v.p.fam.nbits) && !Agrees(es, v.p.fam.es) ==>
      r == Err(MismatchedEs)
    ensures r.Ok? && v.IntInput? ==> r.value.rep == c.decode(v.n, r.value.fam)
    ensures v.StrInput? && bitsMode ==> r == Err(BitStringNotImplemented)
    ensures v.OtherInput? || ((v.IntInput? || v.StrInput?) && !bitsMode) ==>
      r == Err(InputNotSupported)
  {
    var fam := Family(nbits.GetOr(DefaultNbits), es.GetOr(DefaultEs));
    match v
    case NoInput => Ok(Posit(fam, Zero))
    case PositInput(p) =>
      if !Agrees(nbits, p.fam.nbits) then Err(MismatchedNbits)
      else if !Agrees(es, p.fam.es) then Err(MismatchedEs)
      else Ok(p)
    case IntInput(n) =>
      if bitsMode then Ok(Posit(fam, c.decode(n, fam))) else Err(InputNotSupported)
    case StrInput(_) =>
      if bitsMode then Err(BitStringNotImplemented) else Err(InputNotSupported)
    case OtherInput => Err(InputNotSupported)
  }

  // ---------------------------------------------------------------------------
  // Negation and subtraction

  /** Negation flips the sign of a Normal value; Zero and the unsigned infinity are
      their own negation. */
  function Neg(p: Posit): (r: Posit)
    ensures r.fam == p.fam
    ensures !p.rep.Normal? ==> r == p
    ensures p.rep.Normal? ==>
      r.rep.Normal? && Decompose(p.fam, r.rep) == DyNeg(Decompose(p.fam, p.rep))
    ensures WellFormed(p.fam, p.rep) ==> WellFormed(r.fam, r.rep)
  {
    if p.rep.Normal? then Posit(p.fam, p.rep.(s := if p.rep.s == 0 then 1 else 0)) else p
  }

  /** Subtraction is addition of the negated second operand: subtracting Zero keeps
      the minuend, and subtracting from Zero negates the subtrahend. */
  function Difference(c: Codec, p: Posit, q: Posit): (r: Posit)
    requires p.fam == q.fam
    ensures r.fam == p.fam
    ensures q.rep.Zero? ==> r == p
    ensures p.rep.Zero? ==> r == Neg(q)
  {
    Sum(c, p, Neg(q))
  }

  // ---------------------------------------------------------------------------
  // Addition

  /** The exact sum of `xa * 2^ma` and `xb * 2^mb`, aligned as the engine does it:
      with `m` the larger exponent, each significand is shifted by the other's
      distance to `m`, and the result exponent is the smaller one. */
  function AlignedSum(da: Dyadic, db: Dyadic): (r: Dyadic)
    ensures r.m == Min(da.m, db.m)
  {
    var m := Max(da.m, db.m);
    Dyadic(da.x * Pow2(m - db.m) + db.x * Pow2(m - da.m), da.m + db.m - m)
  }

  /** The representation assembled for the sum of two Normal operands before the
      codec sees it. A zero sum gives Zero. */
  function ExactSum(fam: Family, a: Rep, b: Rep): (r: Rep)
    requires a.Normal? && b.Normal?
    ensures r.Zero? || r.Normal?
    ensures r.Normal? ==> WellFormed(fam, r) && (r.h == 0 || r.f % 2 == 1)
  {
    var sum := AlignedSum(Decompose(fam, a), Decompose(fam, b));
    if sum.x == 0 then Zero
    else Renormalize(fam, if sum.x < 0 then 1 else 0, Abs(sum.x), sum.m)
  }

  /** Addition: Zero yields the other operand, then infinity absorbs (as the decoded
      bit pattern `2^(nbits-1)`), and two Normal operands give the rounded exact sum;
      an exact zero sum is returned as Zero without rounding. */
  function Sum(c: Codec, p: Posit, q: Posit): (r: Posit)
    requires p.fam == q.fam
    ensures r.fam == p.fam
  {
    if p.rep.Zero? then q
    else if q.rep.Zero? then p
    else if p.rep.Cinf? || q.rep.Cinf? then Posit(p.fam, c.decode(CinfPattern(p.fam), p.fam))
    else
      var pre := ExactSum(p.fam, p.rep, q.rep);
      if pre.Zero? then Posit(p.fam, Zero) else Posit(p.fam, RoundTrip(c, p.fam, pre))
  }

  // ---------------------------------------------------------------------------
  // Multiplication

  /** The representation assembled for the product of two Normal operands before the
      codec sees it; the product of two nonzero significands is never zero. */
  function ExactProduct(fam: Family, a: Rep, b: Rep): (r: Rep)
    requires a.Normal? && b.Normal?
    ensures r.Normal? && WellFormed(fam, r) && (r.h == 0 || r.f % 2 == 1)
  {
    var xc := Significand(a) * Significand(b);
    var mc := Scale(fam, a) + Scale(fam, b);
    NonzeroProduct(Significand(a), Significand(b));
    Renormalize(fam, if xc < 0 then 1 else 0, Abs(xc), mc)
  }

  lemma NonzeroProduct(x: int, y: int)
    requires x != 0 && y != 0
    ensures x * y != 0
  {
  }

  /** Multiplication: infinity takes precedence over Zero, so infinity times Zero is
      infinity; then Zero absorbs; two Normal operands give the rounded exact product. */
  function Product(c: Codec, p: Posit, q: Posit): (r: Posit)
    requires p.fam == q.fam
    ensures r.fam == p.fam
  {
    if p.rep.Cinf? || q.rep.Cinf? then Posit(p.fam, Cinf)
    else if p.rep.Zero? || q.rep.Zero? then Posit(p.fam, Zero)
    else Posit(p.fam, RoundTrip(c, p.fam, ExactProduct(p.fam, p.rep, q.rep)))
  }

  // ---------------------------------------------------------------------------
  // Division

  /** The left shift applied to the dividend's significand before the truncating
      integer division: `max(0, ma - mb + 2^es * (nbits - 2) + nbits - 1)`. */
  function GuardShift(fam: Family, ma: int, mb: int): (g: nat)
    ensures ma - mb - g <= -(Pow2(fam.es) * (fam.nbits - 2) + fam.nbits - 1)
    ensures g > 0 ==> ma - mb - g == -(Pow2(fam.es) * (fam.nbits - 2) + fam.nbits - 1)
  {
    Max(0, ma - mb + Pow2(fam.es) * (fam.nbits - 2) + fam.nbits - 1)
  }

  /** The magnitude of the quotient as the engine computes it:
      `floor(|xa| * 2^g / |xb|) * 2^(ma - mb - g)` with `g` the guard shift. */
  function QuotientDyadic(fam: Family, a: Rep, b: Rep): (q: Dyadic)
    requires a.Normal? && b.Normal?
    ensures q.x >= 0
  {
    var da, db := Decompose(fam, a), Decompose(fam, b);
    var g := GuardShift(fam, da.m, db.m);
    NonnegQuotient(Abs(da.x), Pow2(g), Abs(db.x));
    Dyadic((Abs(da.x) * Pow2(g)) / Abs(db.x), da.m - db.m - g)
  }

  lemma NonnegQuotient(x: int, p: int, y: int)
    requires x >= 0 && p >= 1 && y >= 1
    ensures (x * p) / y >= 0
  {
    assert x * p >= 0;
  }

  /** The sign of a quotient: set exactly when one operand is negative. */
  function QuotientSign(a: Rep, b: Rep): (s: Bit)
    requires a.Normal? && b.Normal?
    ensures s == 1 <==> a.s != b.s
  {
    if (Significand(a) < 0) != (Significand(b) < 0) then 1 else 0
  }

  /** The representation assembled for the quotient of two Normal operands before the
      codec sees it; a quotient that truncates to zero gives Zero. */
  function ExactQuotient(fam: Family, a: Rep, b: Rep): (r: Rep)
    requires a.Normal? && b.Normal?
    ensures r.Zero? <==> QuotientDyadic(fam, a, b).x == 0
    ensures r.Normal? ==> WellFormed(fam, r) && (r.s == 1 <==> a.s != b.s)
  {
    var q := QuotientDyadic(fam, a, b);
    if q.x != 0 then Renormalize(fam, QuotientSign(a, b), q.x, q.m) else Zero
  }

  /** Division: a dividend infinity or a divisor Zero gives infinity (checked first, so
      Zero / Zero and infinity / infinity are infinity); then a dividend Zero or a
      divisor infinity gives Zero; two Normal operands give the rounded quotient. */
  function Quotient(c: Codec, p: Posit, q: Posit): (r: Posit)
    requires p.fam == q.fam
    ensures r.fam == p.fam
  {
    if p.rep.Cinf? || q.rep.Zero? then Posit(p.fam, Cinf)
    else if p.rep.Zero? || q.rep.Cinf? then Posit(p.fam, Zero)
    else Posit(p.fam, RoundTrip(c, p.fam, ExactQuotient(p.fam, p.rep, q.rep)))
  }

  // ---------------------------------------------------------------------------
  // Operations that are declared but always fail

  datatype Relation = Eq | Ne | Lt | Le | Gt | Ge

  datatype OpError = Unimplemented

  /** Equality, inequality and the four order relations are not implemented. */
  function Compare(rel: Relation, p: Posit, q: Posit): (r: Result<bool, OpError>)
    ensures r.Err?
  {
    Err(Unimplemented)
  }

  /** Floor division is not implemented. */
  function FloorDiv(p: Posit, q: Posit): (r: Result<Posit, OpError>)
    ensures r.Err?
  {
    Err(Unimplemented)
  }

  // ---------------------------------------------------------------------------
  // The engine's operator bodies

  /** Addition, step by step: gating, decomposition, aligned exact sum, sign,
      renormalization loops, codec round trip. */
  method Add(c: Codec, p: Posit, q: Posit) returns (r: Posit)
    requires p.fam == q.fam
    ensures r == Sum(c, p, q)
  {
    if p.rep.Zero? {
      return q;
    } else if q.rep.Zero? {
      return p;
    } else if p.rep.Cinf? || q.rep.Cinf? {
      return Posit(p.fam, c.decode(CinfPattern(p.fam), p.fam));
    }
    var xa, xb := Significand(p.rep), Significand(q.rep);
    var ma, mb := Scale(p.fam, p.rep), Scale(q.fam, q.rep);
    var m := Max(ma, mb);
    var xc := xa * Pow2(m - mb) + xb * Pow2(m - ma);
    var mc := ma + mb - m;
    assert Dyadic(xc, mc) == AlignedSum(Decompose(p.fam, p.rep), Decompose(q.fam, q.rep));
    if xc == 0 {
      return Posit(p.fam, Zero);
    }
    var s: Bit := 0;
    if xc < 0 {
      xc := -xc;
      s := 1;
    }
    var pre := Normalize(p.fam, s, xc, mc);
    r := Posit(p.fam, RoundTrip(c, p.fam, pre));
  }

  /** Multiplication, step by step: gating, decomposition, exact product, sign,
      renormalization loops, codec round trip. */
  method Mul(c: Codec, p: Posit, q: Posit) returns (r: Posit)
    requires p.fam == q.fam
    ensures r == Product(c, p, q)
  {
    if p.rep.Cinf? || q.rep.Cinf? {
      return Posit(p.fam, Cinf);
    } else if p.rep.Zero? || q.rep.Zero? {
      return Posit(p.fam, Zero);
    }
    var xa, xb := Significand(p.rep), Significand(q.rep);
    var ma, mb := Scale(p.fam, p.rep), Scale(q.fam, q.rep);
    var xc := xa * xb;
    var mc := ma + mb;
    NonzeroProduct(xa, xb);
    var s: Bit := 0;
    if xc < 0 {
      xc := -xc;
      s := 1;
    }
    var pre := Normalize(p.fam, s, xc, mc);
    r := Posit(p.fam, RoundTrip(c, p.fam, pre));
  }

  /** Division, step by step: gating, decomposition, sign, magnitudes, guard shift,
      truncating quotient, renormalization loops (skipped for a zero quotient), codec
      round trip. */
  method Div(c: Codec, p: Posit, q: Posit) returns (r: Posit)
    requires p.fam == q.fam
    ensures r == Quotient(c, p, q)
  {
    if p.rep.Cinf? || q.rep.Zero? {
      return Posit(p.fam, Cinf);
    } else if p.rep.Zero? || q.rep.Cinf? {
      return Posit(p.fam, Zero);
    }
    var xa, xb := Significand(p.rep), Significand(q.rep);
    var ma, mb := Scale(p.fam, p.rep), Scale(q.fam, q.rep);
    var s: Bit := 0;
    if (xa < 0) != (xb < 0) {
      s := 1;
    }
    if xa < 0 {
      xa := -xa;
    }
    if xb < 0 {
      xb := -xb;
    }
    var g := ma - mb + Pow2(p.fam.es) * (p.fam.nbits - 2) + p.fam.nbits - 1;
    g := Max(0, g);
    var xc := (xa * Pow2(g)) / xb;
    var mc := ma - mb - g;
    NonnegQuotient(xa, Pow2(g), xb);
    assert s == QuotientSign(p.rep, q.rep);
    assert Dyadic(xc, mc) == QuotientDyadic(p.fam, p.rep, q.rep) by {
      assert xa == Abs(Significand(p.rep)) && xb == Abs(Significand(q.rep));
      assert g == GuardShift(p.fam, ma, mb);
    }
    var pre: Rep;
    if xc != 0 {
      pre := Normalize(p.fam, s, xc, mc);
    } else {
      pre := Zero;
    }
    r := Posit(p.fam, RoundTrip(c, p.fam, pre));
  }
}
