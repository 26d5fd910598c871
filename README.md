# prime.c: Montgomery modular exponentiation, modelled in Dafny

prime.c is the arithmetic kernel of a Miller–Rabin primality tester. It has
two ways of computing `x^d mod n`:

- `powm` is plain square-and-multiply, with C's `%` after every product.
- `montgomery` does the same square-and-multiply on Montgomery forms. It
  multiplies by REDC (`montgomery_reduce`) instead of dividing.

They are built from these helpers:

- an extended Euclidean solver (`extended_euclidean`) and a modular inverse
  on top of it (`inverse_m`);
- two bit utilities, `msb32` and `next_pow2`;
- the two Montgomery constants: `montgomery_n1`, with `n * n1 == -1 (mod R)`,
  and `montgomery_r1`, with `R * r1 == 1 (mod n)`.

The Dafny project has six modules:

- `Arith` (arith.dfy): powers, divisibility and residues.
- `Bits` (bits.dfy): `msb32` and `next_pow2` over `bv32`. `Value` gives the
  number an `unsigned int` bit pattern stands for.
- `Euclid` (euclid.dfy): C's truncating `/` and `%` (`TDiv`, `TMod`),
  `extended_euclidean` and `inverse_m`.
- `Montgomery` (montgomery.dfy): `montgomery_n1`, `montgomery_r1`,
  `montgomery_reduce` and `montgomery`.
- `Powm` (powm.dfy): `powm`.
- `Prime` (prime.dfy): the two exponentiations side by side, and the
  demo values printed by `main`.

How the source is modelled:

- Pure C functions are Dafny functions. `msb32`, `montgomery` and `powm`
  update local variables step by step, so they are methods:
  - `Bits.Msb32` runs the five mask-and-add steps in straight-line code. It
    is proved against `Bits.Value` and `Arith.Pow2`.
  - The square-and-multiply loops of `montgomery` and `powm` carry invariants.
    Both methods are proved against the reference power `Arith.Pow`.
- `next_pow2` also reassigns its argument step by step. It has no loop and no
  branch, so it is the function `Bits.NextPow2`, one `var` per step.
- Integers are unbounded. The `requires` clauses keep every intermediate
  product of `montgomery` and `powm` inside a 32-bit `int`, so C's overflow
  never arises in the modelled range.
- The conversions between `int` and `unsigned int` are written out where
  they can change a value:
  - `Wrap32` and `Signed` model the conversions in `montgomery_n1`
    (prime.c:64) and `montgomery_r1` (prime.c:72).
  - The conversions in `montgomery` (prime.c:94, 95, 102, 104, 106) act on
    non-negative values below 2^31 under the requires of
    `Montgomery.Montgomery`. There they change nothing, so the model uses
    `Value(n)` directly.
  - `montgomery_reduce` masks with `& (2^r - 1)` and shifts with `>> r`. On
    two's complement these are Euclidean `%` and `/` by 2^r.

Behaviour of the code that the model follows:

- **REDC can return n.** The conditional subtraction in `montgomery_reduce`
  tests `a > n`, so its result lies in `[0, n]` rather than `[0, n)`.
  `Montgomery.ReduceReachesModulus` shows an input where it returns n. The
  loop of `montgomery` works on values in `[0, n]` throughout. The final
  `(s * r1) % n` still gives the right residue.
- **`extended_euclidean` can return a negative d.** For negative inputs it
  returns `d` with `|d| == gcd(a, b)`, and `d` itself may be negative. For
  non-negative inputs `d` is the gcd. `Euclid.EuclidGcd` states both.
  When d is -1 the coefficient x inverts -a rather than a, so `inverse_m`
  of a negative a need not be an inverse: `inverse_m(-1, 5)` returns 1
  (`Euclid.InverseOfNegative`). For n below 2^30 (the range of
  `Montgomery.MontgomeryN1Correct` and `Montgomery.MontgomeryR1Correct`),
  prime.c calls `inverse_m` only with non-negative a.
- **`powm` does not reduce its result for d == 0.** It returns 1, not
  `1 % n`. With `n == 1` and `d == 0`, `montgomery` returns 0 and `powm`
  returns 1 (`Prime.ZeroExponentModOne`). For odd n below 2^15 and
  `0 <= x < 2^15` they agree on every other input
  (`Prime.MontgomeryMatchesPowm`). Outside that range they need not agree.
- **`msb32(0)` returns 0.** `Bits.Msb32` states this case too.

## Model

| member | source | states |
|---|---|---|
| Euclid.TDiv | prime.c:21 | C's truncating `a / b`: the quotient of the magnitudes, negated when the signs differ; its identity `a == b * (a / b) + a % b` is an ensures of TMod |
| Euclid.TMod | prime.c:17-21 | C's `a % b`: `a == b * (a / b) + r` with C's truncating quotient, `abs(r) < abs(b)`, and r never of the opposite sign to a |
| Euclid.TModUnique | prime.c:117-119 | C's remainder is the only value smaller than `abs(b)` in magnitude, congruent to a modulo `abs(b)`, whose sign does not oppose a's |
| Euclid.TModNonnegative | prime.c:117-119 | for `a >= 0` and `b > 0`, C's `%` is the mathematical remainder |
| Euclid.ExtendedEuclidean | prime.c:8-25 | the returned d and the coefficients written through x and y satisfy Bézout's identity `a*x + b*y == d` for all integers a and b |
| Euclid.EuclidGcd | prime.c:8-25 | `abs(d)` is the greatest common divisor of a and b: it divides both, and every common divisor divides it; d is non-negative when a and b are |
| Euclid.CoefficientBounds | prime.c:16-21 | for `a >= 0`, `b > 0` the coefficients stay small (`abs(x) <= b`, and `abs(y) <= a` or `y == 1`), so the back-substitution cannot overflow |
| Euclid.InverseM | prime.c:30-37 | the coefficient x of a from extended_euclidean, moved up by m once when negative; properties in InverseCorrect, InverseOnlyIfCoprime and InverseOfNegative |
| Euclid.InverseCorrect | prime.c:30-37 | for coprime a and m (`a >= 0`, `m >= 1`), inverse_m returns inv in `[0, m)` with `a * inv == 1 (mod m)` |
| Euclid.InverseOnlyIfCoprime | prime.c:30-37 | conversely, if inverse_m's result is an inverse of a modulo m, then a and m are coprime |
| Euclid.InverseOfNegative | prime.c:28-37 | for a negative a the result need not be an inverse: extended_euclidean(-1, 5) returns d == -1, and inverse_m(-1, 5) returns 1, with `-1 * 1 == 4 (mod 5)` |
| Bits.Msb32 | prime.c:39-48 | the result k is below 32, and `2^k <= n < 2^(k+1)`: k is the index of the highest set bit; for n == 0 it is 0 |
| Bits.NextPow2 | prime.c:50-58 | the five or-shift steps over `bv32` and the wrapping `+ 1`; properties in NextPow2Power, NextPow2Least and NextPow2Above |
| Bits.NextPow2Power | prime.c:50-58 | for `n < 2^31` next_pow2 returns a power of two p with `p/2 <= n < p`; from 2^31 on the addition wraps around to 0 |
| Bits.NextPow2Least | prime.c:50-58 | for `n < 2^31`, next_pow2(n) is 2^j for the least j with `n < 2^j` |
| Bits.NextPow2Above | prime.c:50-58 | for `2^k <= n < 2^(k+1)` below 2^31, next_pow2(n) is `2^(k+1)`: one bit above msb32's index |
| Montgomery.Wrap32 | prime.c:64 | the conversion to `unsigned int` lands in `[0, 2^32)` and is congruent to the value modulo 2^32 |
| Montgomery.Signed | prime.c:64 | the two's-complement conversion of an `unsigned int` to `int`: of the arguments of `inverse_m` at prime.c:64 and 72, and of the unsigned difference before `abs` at prime.c:64; properties in N1FromInverse |
| Montgomery.N1FromInverse | prime.c:64 | with inv the inverse of n modulo R, the unsigned difference `inv - R`, converted back to int and made positive, is `R - inv`, and `n * (R - inv) == -1 (mod R)` |
| Montgomery.RadixBounds | prime.c:63 | for `0 < n < 2^30`, next_pow2(n) is 2^j with `1 <= j <= 30` and `n < 2^j` |
| Montgomery.MontgomeryN1 | prime.c:60-66 | R = next_pow2(n), then N1ForRadix; properties in MontgomeryN1Correct |
| Montgomery.N1ForRadix | prime.c:64 | `abs(inverse_m(n, R) - R)` with the difference taken in unsigned arithmetic; properties in N1FromInverse and MontgomeryN1Correct |
| Montgomery.MontgomeryR1 | prime.c:68-74 | R = next_pow2(n), then R1ForRadix; properties in MontgomeryR1Correct |
| Montgomery.R1ForRadix | prime.c:72 | `inverse_m(R, n)` with R and n converted to `int`; properties in MontgomeryR1Correct |
| Montgomery.MontgomeryN1Correct | prime.c:60-66 | for an odd n below 2^30 and `R = next_pow2(n)`, `0 < n1 < R` and `n * n1 == -1 (mod R)` |
| Montgomery.MontgomeryR1Correct | prime.c:68-74 | for an odd n below 2^30 and `R = next_pow2(n)`, r1 lies in `[0, n)` and `R * r1 == 1 (mod n)` |
| Montgomery.MontgomeryReduce | prime.c:79-89 | mask, multiply, shift and one conditional subtraction of n; properties in ReduceDivisible, ReduceCorrect and ReduceReachesModulus |
| Montgomery.ReduceDivisible | prime.c:85-87 | the multiple `m * n` that REDC adds makes `a + m * n` divisible by R, so the shift is exact |
| Montgomery.ReduceCorrect | prime.c:79-89 | for `0 <= a < n * R` with `n * n1 == -1 (mod R)`, REDC's result lies in `[0, n]` and equals `a * R^-1` modulo n |
| Montgomery.ReduceReachesModulus | prime.c:88 | REDC can return n itself: `a == 3`, `n == 3`, `R == 4`, `n1 == 1` |
| Montgomery.MontMul | prime.c:102 | a value sp with `sp * R == s * i (mod n)` is the Montgomery form of the product of the values that s and i stand for |
| Montgomery.ReduceProduct | prime.c:102-104 | REDC of the product of two Montgomery forms in `[0, n]` is the Montgomery form of the product, again in `[0, n]` |
| Montgomery.MontgomeryExit | prime.c:106 | multiplying a Montgomery form by r1 modulo n gives back the value it stands for |
| Montgomery.MontgomeryConstants | prime.c:93-99 | for an odd n below 2^15 with its highest bit at k, `r = k + 1` satisfies `n < 2^r`, and n1 and r1 satisfy `n * n1 == -1 (mod 2^r)` and `2^r * r1 == 1 (mod n)` |
| Montgomery.MontgomeryEntry | prime.c:94-95 | `R mod n` and `x*R mod n` are the Montgomery forms of 1 and of `x mod n`, both in `[0, n]` |
| Montgomery.LoopStep | prime.c:100-105 | one pass of the loop keeps s and i the Montgomery forms of the accumulator and the base, in `[0, n]`, and keeps `acc * base^e` unchanged modulo n while e is halved |
| Montgomery.SquareAndMultiply | prime.c:94-107 | given the radix constants, the forms of 1 and x, the loop and the final conversion return `x^d mod n` |
| Montgomery.Montgomery | prime.c:91-108 | for an odd n below 2^15, `0 <= x < 2^15` and `d >= 0`, montgomery returns `x^d mod n`; for d == 0 that is `1 mod n` |
| Arith.SquareMultiplyCongruence | prime.c:115-120 | one round of square-and-multiply keeps `acc * base^e` unchanged modulo n, whichever representatives of the new accumulator and base are kept |
| Powm.PowmStep | prime.c:115-120 | one pass of powm's loop keeps `r * a^d` congruent to the answer modulo `abs(n)`, and keeps its sign from opposing the answer's |
| Powm.Powm | prime.c:112-122 | for `d == 0` powm returns 1, for any n including 0; for `d > 0` it returns `a^d % n` with C's truncating remainder |
| Prime.MontgomeryMatchesPowm | prime.c:91-122 | for an odd n below 2^15 and `0 <= x < 2^15`, montgomery and powm both return `x^d mod n`, except when d == 0 and n == 1 |
| Prime.ZeroExponentModOne | prime.c:91-122 | with `n == 1` and `d == 0` montgomery returns 0 while powm returns 1 |
| Prime.ValueOf43 | prime.c:140 | the modulus word 43 stands for 43 |
| Prime.DemoPower1 | prime.c:141-142 | `32^56 mod 43 == 1` |
| Prime.DemoPower2 | prime.c:143-144 | `35^43 mod 43 == 35` |
| Prime.DemoPower3 | prime.c:145-146 | `23^53 mod 43 == 25` |
| Prime.Demo | prime.c:137-147 | the three pairs main prints for n == 43 are (1, 1), (35, 35) and (25, 25) |

## Left out

- `witness` (prime.c:126-129) is a stub that returns 0 and takes a mini-gmp `mpz_t`. mini-gmp is not part of this model.
- The Miller–Rabin bases in the comment at prime.c:131-135 belong to no code.
- `main` (prime.c:137-147) prints with `printf`. `Prime.Demo` returns the six values instead of printing them.
- Montgomery.Montgomery: requires an odd n below 2^15 and `0 <= x < 2^15`. These bounds are sufficient to keep every product inside a 32-bit `int`; they are not exact. Outside them the C code can overflow. For an even n no inverse exists. For a negative x, `x << r` is undefined. None of these cases is modelled.
- Montgomery.SquareAndMultiply: computes s and i after n1 and r1, while the C code computes them before. The values are independent, so the order does not matter.
- Powm.Powm: requires `abs(n) <= 2^15` and `abs(a) < 2^15`, and `n != 0` when `d > 0`. These bounds are sufficient to keep every product inside a 32-bit `int`; they are not exact. With n == 0 and d > 0 the C code divides by zero; with d == 0 the loop does not run and powm returns 1.
- Powm.Powm and Montgomery.Montgomery: require `d >= 0`. For negative d, `d >>= 1` never reaches 0 and the C loop does not end.
- Euclid.InverseCorrect: requires `a >= 0`. For a negative a, inverse_m's result is not always an inverse of a (`Euclid.InverseOfNegative`), although the comment at prime.c:28 promises one for any a.
- Euclid.ExtendedEuclidean: works on unbounded integers. The overflow of `INT_MIN % -1` and `INT_MIN / -1` in C is not modelled.
- Montgomery.MontgomeryN1Correct and Montgomery.MontgomeryR1Correct: are proved for odd n below 2^30 only. For larger n the radix is 2^31, or wraps to 0 (`Bits.NextPow2Power`), and the C arithmetic leaves the `int` range.
- Montgomery.MontgomeryReduce: is defined with Euclidean `%` and `/` by 2^r. These agree with C's mask and arithmetic shift for every 32-bit `int` when `r < 31`; the model does not state that agreement for larger r.
