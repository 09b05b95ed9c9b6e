/** Renormalization of an exact positive result into posit fields: strip trailing zero
    bits of the significand, find its bit length, and split the combined exponent into
    regime and exponent field. The functions state what the steps compute; the methods
    run the loops the engine runs and are proved to agree with them. */
module Renormalization {
  import opened Exact
  import opened PositRep

  /** Removes trailing zero bits from `x`, raising the exponent by one per bit removed.
      The number `x * 2^m` is unchanged and a positive `x` ends odd. */
  function Strip(x: nat, m: int): (r: Dyadic)
    ensures r.m >= m && r.x >= 0
    ensures ScaledAt(r, m) == x
    ensures x > 0 ==> r.x % 2 == 1
    decreases x
  {
    if x != 0 && x % 2 == 0 then
      var r := Strip(x / 2, m + 1);
      assert Pow2(r.m - m) == 2 * Pow2(r.m - (m + 1));
      r
    else
      Dyadic(x, m)
  }

  /** The position of the leading one bit of a positive `x`. */
  function Log2(x: int): (n: nat)
    requires x >= 1
    ensures Pow2(n) <= x < Pow2(n + 1)
  {
    if x < 2 then 0 else 1 + Log2(x / 2)
  }

  /** The Normal representation with sign `s` of the positive number
      `d.x * 2^d.m`: fraction length from the bit length of `d.x`, regime and exponent
      field from the combined exponent by floor division and remainder by `2^es`. */
  function Assemble(fam: Family, s: Bit, d: Dyadic): (r: Rep)
    requires d.x >= 1
    ensures r.Normal? && WellFormed(fam, r) && r.s == s
    ensures Decompose(fam, r) == Dyadic(Signed(s, d.x), d.m)
  {
    var h := Log2(d.x);
    var t := d.m + h;
    var u := Pow2(fam.es);
    assert u * (t / u) + t % u == t;
    Normal(s, t / u, t % u, h, d.x - Pow2(h))
  }

  /** The full renormalization of the exact number `(-1)^s * x * 2^m` with `x > 0`:
      a well-formed Normal with sign `s` whose fraction has no trailing zero bit. */
  function Renormalize(fam: Family, s: Bit, x: int, m: int): (r: Rep)
    requires x >= 1
    ensures r.Normal? && WellFormed(fam, r) && r.s == s
    ensures r.h == 0 || r.f % 2 == 1
  {
    var d := Strip(x, m);
    var r := Assemble(fam, s, d);
    OddMinusEven(d.x, r.h);
    r
  }

  lemma OddMinusEven(x: int, h: nat)
    requires x % 2 == 1
    ensures h > 0 ==> (x - Pow2(h)) % 2 == 1
  {
    if h > 0 {
      assert Pow2(h) == 2 * Pow2(h - 1);
    }
  }

  /** Renormalization loses nothing: the representation denotes exactly
      `(-1)^s * x * 2^m`, with an exponent no smaller than `m`. */
  lemma RenormalizeDenotes(fam: Family, s: Bit, x: int, m: int)
    requires x >= 1
    ensures Decompose(fam, Renormalize(fam, s, x, m)).m >= m
    ensures SameValue(Decompose(fam, Renormalize(fam, s, x, m)), Dyadic(Signed(s, x), m))
  {
    var d := Strip(x, m);
    var r := Assemble(fam, s, d);
    SameValueAt(Decompose(fam, r), Dyadic(Signed(s, x), m), m);
    assert ScaledAt(Decompose(fam, r), m) == Signed(s, d.x) * Pow2(d.m - m);
  }

  /** Halves `x0` while it is a nonzero even number, counting the halvings into the
      exponent. */
  method StripTrailingZeros(x0: int, m0: int) returns (x: int, m: int)
    requires x0 >= 0
    ensures Dyadic(x, m) == Strip(x0, m0)
  {
    x, m := x0, m0;
    while x != 0 && x % 2 == 0
      invariant x >= 0
      invariant Strip(x, m) == Strip(x0, m0)
      decreases x
    {
      x := x / 2;
      m := m + 1;
    }
  }

  /** Shifts a copy of `xc` right until it is below 2, counting the shifts negatively
      in `g`; the copy ends at 1 and `-g` is the bit length of `xc` less one. */
  method BitLength(xc: int) returns (x: int, g: int)
    requires xc >= 1
    ensures 1 <= x < 2
    ensures g <= 0 && -g == Log2(xc)
  {
    g := 0;
    x := xc;
    while x >= 2
      invariant x >= 1 && g <= 0
      invariant Log2(x) - g == Log2(xc)
      decreases x
    {
      x := x / 2;
      g := g - 1;
    }
  }

  /** Fills a fresh Normal representation field by field from the exact positive
      result `xc * 2^mc` and the sign already decided by the caller. */
  method Normalize(fam: Family, s: Bit, xc0: int, mc0: int) returns (r: Rep)
    requires xc0 >= 1
    ensures r == Renormalize(fam, s, xc0, mc0)
  {
    var xc, mc := StripTrailingZeros(xc0, mc0);
    var x, g := BitLength(xc);
    var e := (mc - g) % Pow2(fam.es);
    var k := (mc - g) / Pow2(fam.es);
    var h := -g;
    var f := xc - Pow2(h);
    r := Normal(s, k, e, h, f);
  }
}
