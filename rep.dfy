/** The structured posit representation and the collaborators the engine relies on.

    A posit family is fixed by its width `nbits` and exponent-field width `es`. Within a
    family a value is Zero, the unsigned infinity `Cinf`, or a Normal value with sign `s`,
    regime `k`, exponent field `e`, fraction length `h` and fraction `f`, denoting
    `(-1)^s * (2^h + f) * 2^(2^es * k + e - h)`. */
module PositRep {
  import opened Exact

  type Bit = b: nat | b <= 1

  /** Total width of an encoded posit; `2^(nbits - 1)` must be a whole bit pattern. */
  type Width = n: nat | n >= 1 witness 1

  datatype Family = Family(nbits: Width, es: nat)

  datatype Rep =
    | Zero
    | Cinf
    | Normal(s: Bit, k: int, e: nat, h: nat, f: nat)

  /** A value owns its representation; the family travels with it. */
  datatype Posit = Posit(fam: Family, rep: Rep)

  /** The bit-pattern codec. Its source is not part of this model: `encode` maps a
      (possibly over-precise) representation to a bit pattern of the family, rounding
      and saturating as the posit format prescribes, and `decode` maps a bit pattern
      back to a representation. Both are left uninterpreted. */
  datatype Codec = Codec(encode: (Family, Rep) -> int, decode: (int, Family) -> Rep)

  /** The mandatory encode-then-decode step that rounds an exact result to the family. */
  function RoundTrip(c: Codec, fam: Family, r: Rep): Rep
  {
    c.decode(c.encode(fam, r), fam)
  }

  /** The bit pattern of the unsigned infinity: only the sign bit set. */
  function CinfPattern(fam: Family): (bits: nat)
    ensures 2 * bits == Pow2(fam.nbits)
  {
    Pow2(fam.nbits - 1)
  }

  /** Field ranges of a Normal representation: `e < 2^es` and `f < 2^h`. */
  predicate WellFormed(fam: Family, r: Rep)
  {
    r.Normal? ==> r.e < Pow2(fam.es) && r.f < Pow2(r.h)
  }

  function Signed(s: Bit, x: int): int
  {
    if s == 1 then -x else x
  }

  /** The signed integer significand `(-1)^s * (2^h + f)`. */
  function Significand(r: Rep): (x: int)
    requires r.Normal?
    ensures x != 0 && (x < 0 <==> r.s == 1)
    ensures Abs(x) == Pow2(r.h) + r.f
  {
    Signed(r.s, Pow2(r.h) + r.f)
  }

  /** The binary scale `2^es * k + e - h` of the significand; for a well-formed value
      the exponent field only moves it within the band of regime `k`. */
  function Scale(fam: Family, r: Rep): (m: int)
    requires r.Normal?
    ensures WellFormed(fam, r) ==>
      Pow2(fam.es) * r.k - r.h <= m < Pow2(fam.es) * (r.k + 1) - r.h
  {
    Pow2(fam.es) * r.k + r.e - r.h
  }

  /** A Normal representation as the exact number `Significand * 2^Scale`; for a
      well-formed value the significand has exactly `h + 1` bits. */
  function Decompose(fam: Family, r: Rep): (d: Dyadic)
    requires r.Normal?
    ensures WellFormed(fam, r) ==> Pow2(r.h) <= Abs(d.x) < Pow2(r.h + 1)
  {
    Dyadic(Significand(r), Scale(fam, r))
  }

  /** `r` stands for the exact number `d`: Zero for a zero `d`, or a Normal of equal value. */
  predicate Denotes(fam: Family, r: Rep, d: Dyadic)
  {
    || (r.Zero? && d.x == 0)
    || (r.Normal? && SameValue(Decompose(fam, r), d))
  }
}
