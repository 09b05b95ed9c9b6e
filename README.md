# Exact-integer posit arithmetic engine, modelled in Dafny

This project models the arithmetic core of `PCPosit`, a reference implementation of
posit numbers. On unbounded integers it computes sums and products exactly, and
quotients truncated at a guard precision, before the codec's single rounding step. A posit family is fixed by its width `nbits` and exponent-field width
`es`. A value is Zero, the unsigned infinity (`Cinf`), or a Normal value with sign
`s`, regime `k`, exponent field `e`, fraction length `h` and fraction `f`. A Normal
value denotes `(-1)^s * (2^h + f) * 2^(2^es * k + e - h)`.

Each binary operator first classifies its operands. Only when both are Normal does it:

1. decompose each into a signed integer significand and a binary scale;
2. compute the exact sum, the exact product, or the truncated quotient after a guard shift;
3. strip trailing zero bits;
4. find the bit length;
5. split the combined exponent into regime and exponent field;
6. hand the assembled representation to the codec, which rounds it to the family.

Files and modules:

- `exact.dfy` (`Exact`): powers of two and dyadic numbers `Dyadic(x, m) = x * 2^m`.
  Values are compared by scaling both to a common base exponent, so no reals are used.
  It also holds the reference sum, product and order of dyadics.
- `rep.dfy` (`PositRep`): the family, the representation `Rep = Zero | Cinf | Normal(s, k, e, h, f)`,
  the value wrapper `Posit(fam, rep)`, the decomposition into `(significand, scale)`,
  and the codec as a pair of uninterpreted function values.
- `normalize.dfy` (`Renormalization`): the steps after the exact computation. The
  functions `Strip`, `Log2`, `Assemble` and `Renormalize` state what is computed. The
  methods `StripTrailingZeros`, `BitLength` and `Normalize` run the loops and are
  proved equal to those functions.
- `pcposit.dfy` (`PCPosit`): construction, negation, subtraction, and the three
  operators. `Sum`, `Product` and `Quotient` are the semantics. The methods `Add`,
  `Mul` and `Div` follow the operator bodies step by step and are proved to compute
  exactly those functions. Comparisons and floor division always fail.
- `properties.dfy` (`PCPositProperties`): the classification laws, the negation laws,
  and the exactness theorems for the representation handed to the codec.

The codec (`encode`, `decode`) is passed in as a `Codec` value and never interpreted.
Every statement about a rounded result is therefore about "whatever the codec returns
for this exact representation". The factory's Zero and infinity skeletons are the
constructors `Zero` and `Cinf`.

Two asymmetries of the code are kept as written:

- Addition returns Zero directly when the exact sum cancels, with no codec round trip
  (`src/sgposit/pcposit.py:85-87`). Division sends its Zero through the codec
  (`src/sgposit/pcposit.py:233-237`).
- Addition builds its infinity by decoding the bit pattern `2^(nbits-1)`
  (`src/sgposit/pcposit.py:68`). Multiplication and division use the infinity
  skeleton directly (`src/sgposit/pcposit.py:131`, `:187`).

## Model

| member | source | states |
|---|---|---|
| `PCPosit.New` | src/sgposit/pcposit.py:32-59 | Construction succeeds exactly for no input, a posit copy whose pinned `nbits`/`es` agree, or an integer in bits mode. A success honours every pinned parameter. A copy keeps the copied value's family; any other success uses the defaults 32/2 for each unpinned parameter. No input gives Zero, a copy is field-wise identical, and a bits-mode integer `n` gives what the codec decodes from `n` in the family. A width mismatch fails with `MismatchedNbits`. An `es` mismatch with an agreeing width fails with `MismatchedEs`. A bit string in bits mode is "not implemented". Any other input, or an integer or string outside bits mode, fails with `InputNotSupported`. |
| `PCPosit.Neg` | src/sgposit/pcposit.py:121-125 | Negation keeps the family and leaves Zero and infinity unchanged. For a Normal it negates the denoted number exactly (significand negated, scale kept) and keeps the field ranges. |
| `PCPositProperties.NegInvolution` | src/sgposit/pcposit.py:121-125 | Negation is an involution. |
| `PCPosit.Difference` | src/sgposit/pcposit.py:116-118 | Subtraction stays in the operands' family. `x - 0 = x` field for field, and `0 - y` is the negation of `y`. |
| `PCPositProperties.DifferenceSelfIsZero` | src/sgposit/pcposit.py:116-118 | `x - x` is Zero for every Zero or Normal `x`. Subtraction is addition of the negation, and the cancelling sum takes the exact-zero path. |
| `PCPosit.Sum` | src/sgposit/pcposit.py:62-113 | Addition's result stays in the operands' family. Its gating and exactness are stated by the lemmas below. |
| `PCPositProperties.SumZeroIdentity` | src/sgposit/pcposit.py:63-66 | Zero is a two-sided identity of addition for every operand, field for field (so `0 + inf = inf`). |
| `PCPositProperties.SumInfinityAbsorbs` | src/sgposit/pcposit.py:67-69 | If the codec decodes `2^(nbits-1)` to infinity, infinity plus anything (Zero included) is infinity. |
| `PCPositProperties.SumInfinityPattern` | src/sgposit/pcposit.py:67-69 | For any codec, infinity plus a nonzero addend is exactly what the codec decodes from the pattern `2^(nbits-1)` in the operands' family. |
| `PCPosit.AlignedSum` | src/sgposit/pcposit.py:78-80 | The aligned sum's exponent is the smaller operand exponent, `ma + mb - max(ma, mb) = min(ma, mb)`. Its value is stated by `AlignedSumIsSum`. |
| `PCPosit.ExactSum` | src/sgposit/pcposit.py:73-108 | The representation assembled for Normal + Normal is never infinity. When Normal, its fields are in range and its fraction has no trailing zero bit. Its value is stated by `ExactSumDenotesSum`. |
| `PCPositProperties.SumCommutes` | src/sgposit/pcposit.py:62-113 | Addition is commutative, gating included. |
| `PCPositProperties.AlignedSumIsSum` | src/sgposit/pcposit.py:78-80 | Aligning to `m = max(ma, mb)` yields the reference sum: exponent `min(ma, mb)`, and significand equal to both operands measured at that exponent, added. |
| `PCPositProperties.AlignedSumExact` | src/sgposit/pcposit.py:73-80 | The aligned sum keeps `xc * 2^mc = xa * 2^ma + xb * 2^mb`, measured at any common base. |
| `PCPositProperties.ExactSumDenotesSum` | src/sgposit/pcposit.py:73-108 | For Normal + Normal, the representation handed to the codec denotes exactly the mathematical sum. It is Zero exactly when the sum is zero. Otherwise it is a well-formed Normal whose sign is set exactly when the sum is negative. |
| `PCPositProperties.ExactSumAt` | src/sgposit/pcposit.py:73-108 | A nonzero assembled sum, measured at any base no larger than both operand scales, equals the operands so measured, added. |
| `PCPositProperties.SumPreservesWellFormed` | src/sgposit/pcposit.py:62-118 | If the codec decodes only to well-formed representations, the sum and the difference of well-formed operands are well formed. |
| `PCPosit.Product` | src/sgposit/pcposit.py:128-177 | Multiplication's result stays in the operands' family. Its gating and exactness are stated by the lemmas below. |
| `PCPosit.ExactProduct` | src/sgposit/pcposit.py:140-172 | The representation assembled for Normal * Normal is always a Normal with fields in range and no trailing zero bit in its fraction. Its value is stated by `ExactProductDenotesProduct`. |
| `PCPositProperties.ProductGating` | src/sgposit/pcposit.py:129-136 | Infinity takes precedence over Zero: any infinity operand gives infinity, including infinity times Zero. Otherwise any Zero operand gives Zero. |
| `PCPositProperties.ExactProductDenotesProduct` | src/sgposit/pcposit.py:140-172 | For Normal * Normal, the representation handed to the codec is a well-formed Normal denoting exactly the product. Its sign is set exactly when the operand signs differ. |
| `PCPositProperties.ExactProductAt` | src/sgposit/pcposit.py:145-172 | The assembled product, measured at base `La + Lb`, equals the operands measured at `La` and `Lb`, multiplied. |
| `PCPositProperties.ProductCommutes` | src/sgposit/pcposit.py:128-177 | Multiplication is commutative, gating included. |
| `PCPosit.Quotient` | src/sgposit/pcposit.py:184-239 | Division's result stays in the operands' family. Its gating and exactness are stated by the lemmas below. |
| `PCPositProperties.QuotientGating` | src/sgposit/pcposit.py:185-192 | A dividend infinity or a divisor Zero gives infinity. That test comes before the one where a dividend Zero or a divisor infinity gives Zero. Hence `0/0` and `inf/inf` are infinity. |
| `PCPosit.GuardShift` | src/sgposit/pcposit.py:209-210 | The clamped guard shift puts the quotient exponent `ma - mb - g` at or below `-(2^es*(nbits-2) + nbits - 1)`. When the shift is positive, the exponent lands exactly there. |
| `PCPosit.QuotientSign` | src/sgposit/pcposit.py:205 | The quotient's sign bit is set exactly when the operands' sign bits differ. |
| `PCPosit.ExactQuotient` | src/sgposit/pcposit.py:205-234 | The representation assembled for Normal / Normal is Zero exactly when the truncated quotient is zero. Otherwise it is a Normal with fields in range whose sign is set exactly when the operand signs differ. Its value is stated by `ExactQuotientDenotes`. |
| `PCPosit.QuotientDyadic` | src/sgposit/pcposit.py:205-212 | The truncated guarded quotient `floor(|xa| * 2^g / |xb|)` is never negative. |
| `PCPositProperties.QuotientBrackets` | src/sgposit/pcposit.py:205-212 | The truncated quotient `q * 2^mc` brackets the true quotient of the magnitudes: `q*2^mc * |b| <= |a| < (q+1)*2^mc * |b|`. |
| `PCPositProperties.QuotientExponentBound` | src/sgposit/pcposit.py:209-212 | The quotient exponent `mc = ma - mb - g` is exactly `min(ma - mb, -(2^es*(nbits-2) + nbits - 1))`: the clamped guard shift lowers the exponent to the precision floor and never raises it. |
| `PCPositProperties.ExactQuotientDenotes` | src/sgposit/pcposit.py:205-234 | For Normal / Normal, the representation handed to the codec is Zero exactly when the truncated quotient is zero. Otherwise it is a well-formed Normal denoting exactly `(+-) q * 2^mc`, with the sign set exactly when the operand signs differ. |
| `PCPositProperties.ProductQuotientWellFormed` | src/sgposit/pcposit.py:128-239 | If the codec decodes only to well-formed representations, products and quotients are well formed. |
| `PositRep.Scale` | src/sgposit/pcposit.py:75-76 | The binary scale `2^es*k + e - h` (`ma`/`mb`). For a well-formed value it stays within regime `k`'s band `[2^es*k - h, 2^es*(k+1) - h)`. With `Significand` it forms `Decompose`. |
| `PositRep.Decompose` | src/sgposit/pcposit.py:73-76 | A Normal as the exact pair `(xa, ma)`, the value every exactness lemma measures. For a well-formed value the significand's magnitude has exactly `h + 1` bits: `2^h <= |xa| < 2^(h+1)`. |
| `PositRep.CinfPattern` | src/sgposit/pcposit.py:68 | The infinity bit pattern `2^(nbits-1)` is the top bit of an `nbits`-bit word: twice it is `2^nbits`. |
| `PositRep.RoundTrip` | src/sgposit/pcposit.py:110-111 | The encode-then-decode step applied to an exact result, also at `:174-175` and `:236-237`. It is a definition over the uninterpreted codec and carries no contract of its own. |
| `PositRep.Significand` | src/sgposit/pcposit.py:73-74 | The signed significand `(-1)^s * (2^h + f)` is never zero. It is negative exactly when `s = 1`, and its magnitude is `2^h + f`. |
| `Renormalization.Strip` | src/sgposit/pcposit.py:92-94 | Stripping trailing zero bits keeps `x * 2^m` and never lowers the exponent. A positive input ends odd. |
| `Renormalization.Log2` | src/sgposit/pcposit.py:96-102 | The shift count `n` satisfies `2^n <= x < 2^(n+1)`. |
| `Renormalization.Assemble` | src/sgposit/pcposit.py:104-108 | Field recovery by floor division and remainder gives a well-formed Normal (`0 <= e < 2^es`, `0 <= f < 2^h`) with the given sign. Its decomposition is exactly the signed input `(x, m)`, i.e. `2^es*k + e - h = m`. |
| `Renormalization.Renormalize` | src/sgposit/pcposit.py:92-108 | Renormalizing a positive result gives a well-formed Normal with the chosen sign. Its fraction has no trailing zero bit. |
| `Renormalization.RenormalizeDenotes` | src/sgposit/pcposit.py:92-108 | Renormalization loses nothing. The result denotes exactly `(-1)^s * x * 2^m`, with a scale no smaller than `m`. |
| `Renormalization.StripTrailingZeros` | src/sgposit/pcposit.py:92-94 | The halving loop computes `Strip`. |
| `Renormalization.BitLength` | src/sgposit/pcposit.py:96-102 | The shift loop ends with `1 <= x < 2` and `-g = Log2(xc)`. |
| `Renormalization.Normalize` | src/sgposit/pcposit.py:92-108 | Filling the fields one by one after the two loops computes `Renormalize`. |
| `PCPosit.Add` | src/sgposit/pcposit.py:62-113 | The operator body computes `Sum`: gating, decomposition, alignment, sign, loops, round trip. |
| `PCPosit.Mul` | src/sgposit/pcposit.py:128-177 | The operator body computes `Product`. |
| `PCPosit.Div` | src/sgposit/pcposit.py:180-239 | The operator body (for `/` and the legacy division alias) computes `Quotient`. |
| `PCPosit.Compare` | src/sgposit/pcposit.py:246-267 | Equality, inequality and the four orderings always fail. |
| `PCPosit.FloorDiv` | src/sgposit/pcposit.py:242-243 | Floor division always fails. |
| `PCPositProperties.OnePlusOne` | src/sgposit/pcposit.py:73-108 | In a family with `es = 0`, `1 + 1` is assembled as regime 1 with no exponent or fraction bits, i.e. the value 2. |
| `PCPositProperties.ThreeTimesThree` | src/sgposit/pcposit.py:140-172 | In a family with `es = 0`, `3 * 3` is assembled as regime 3 with fraction `001` over length 3, i.e. the value 9. |

## Left out

- The codec is not part of this model: bit-pattern encoding and decoding, rounding and saturation. Its behaviour is an uninterpreted parameter, so no lemma claims correct rounding.
- The factory functions and the string renderer are not part of this model. The Zero and infinity skeletons appear as the constructors `Zero` and `Cinf`, and a copy is the same value.
- The normal skeleton's default sign is taken to be 0. Addition starts from `create_positrep` (`src/sgposit/pcposit.py:83`) and sets the sign only for a negative result. The skeleton's source is not part of this model.
- Addition's skeleton is taken to be tagged Normal already, because its Normal path never sets the tag (`src/sgposit/pcposit.py:83-108`). The model assembles a Normal there.
- Multiplication and division start from the Zero skeleton retagged Normal (`src/sgposit/pcposit.py:149-150`, `:202-203`). Its default sign is taken to be 0, since the engine sets it only for a negative result.
- Families are restricted to `nbits >= 1` (`Width`) and `es >= 0` (`nat`). The constructor itself accepts any integers, e.g. `nbits = 0` or `es = -1` reach the Zero factory at `src/sgposit/pcposit.py:42-43`. The model does not represent such families.
- PCPositProperties.SumInfinityAbsorbs: assumes, rather than proves, that decoding `2^(nbits-1)` gives infinity, because that depends on the codec.
- PCPositProperties.SumPreservesWellFormed: assumes the codec decodes only to well-formed representations, because the codec is not part of this model.
- PCPositProperties.ProductQuotientWellFormed: assumes the codec decodes only to well-formed representations, for the same reason.
- PCPositProperties.OnePlusOne: states only the exact representation before rounding. That bit pattern 64 decodes to 1, and that the rounded sum is the pattern for 2, depend on the codec.
- The round-trip idempotence of the codec (decode then encode of a legal pattern) is a codec property and is not modelled.
- The guard-shift constant is kept as written. Nothing claims it is large enough for correct rounding.
- Operands from different families are excluded by a precondition (`p.fam == q.fam`). The code never checks this.
- The temporary objects that the operators build and then overwrite have no observable effect and are not modelled. These are the default `PCPosit()` objects (`src/sgposit/pcposit.py:130`, `:134`, `:148`, `:186`, `:190`, `:201`) and addition's copy of its first operand (`src/sgposit/pcposit.py:82`, overwritten at `:83`).
- Python's runtime dispatch on the input's type becomes the closed `Input` datatype. "Any other kind of input" is the single case `OtherInput`.
- Object identity is not modelled. Values are immutable datatypes, and every operator returns a new value, as the code does.
