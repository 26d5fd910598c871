/** Montgomery multiplication of prime.c: the constants n1 and r1, the
    reduction REDC, and modular exponentiation in Montgomery form. The modulus
    arrives as a C `unsigned int` (a bv32 here); the other values are C `int`s,
    whose 32-bit range the preconditions keep every intermediate result inside. */
module Montgomery {
  import opened Arith
  import opened Bits
  import opened Euclid

  /** Reduction of an integer to 32 bits, as a conversion to `unsigned int` does. */
  function Wrap32(v: int): (w: nat)
    ensures w < 0x1_0000_0000 && (v - w) % 0x1_0000_0000 == 0
  {
    v % 0x1_0000_0000
  }

  /** The `int` a 32-bit unsigned value in [0, 2^32) converts to, in two's complement. */
  function Signed(u: nat): int
  {
    if u < 0x8000_0000 then u else u - 0x1_0000_0000
  }

  /** montgomery_n1 (prime.c:60-66): R = next_pow2(n), then the magnitude
      of inverse_m(n, R) - R. */
  function MontgomeryN1(n: bv32): int
  {
    N1ForRadix(Value(n), Value(NextPow2(n)))
  }

  /** The arithmetic of montgomery_n1 once R is known: the difference is taken
      in unsigned arithmetic and converted back to `int` for abs. */
  function N1ForRadix(n: nat, r: nat): int
  {
    Abs(Signed(Wrap32(InverseM(Signed(n), Signed(r)) - r)))
  }

  /** montgomery_r1 (prime.c:68-74): inverse_m(R, n) with R = next_pow2(n). */
  function MontgomeryR1(n: bv32): int
  {
    R1ForRadix(Value(n), Value(NextPow2(n)))
  }

  /** The arithmetic of montgomery_r1 once R is known. */
  function R1ForRadix(n: nat, r: nat): int
  {
    InverseM(Signed(r), Signed(n))
  }

  /** The radix next_pow2 picks for 0 < n < 2^30 is a power of two 2^j,
      with 2^30 as the largest. */
  lemma RadixBounds(n: bv32) returns (j: nat)
    requires 0 < Value(n) < 0x4000_0000
    ensures Value(NextPow2(n)) == Pow2(j) && 1 <= j <= 30
    ensures Value(n) < Pow2(j) <= 0x4000_0000
  {
    Pow2Constants();
    HighBitClear(n);
    j := NextPow2Least(n);
    Pow2Monotone(j, 30);
  }

  /** A value in (-2^32, 0) wraps around to itself plus 2^32. */
  lemma WrapNegative(v: int)
    requires -0x1_0000_0000 < v < 0
    ensures Wrap32(v) == v + 0x1_0000_0000
  {
    ModAddMultiple(v + 0x1_0000_0000, 0x1_0000_0000, -1);
    SmallMod(v + 0x1_0000_0000, 0x1_0000_0000);
  }

  /** With 0 < inv < R <= 2^30 and n * inv == 1 modulo R, the unsigned
      difference inv - R converted back to int and made positive is R - inv,
      and n * (R - inv) == -1 modulo R. */
  lemma N1FromInverse(n: int, R: int, inv: int)
    requires 2 <= R <= 0x4000_0000 && 0 <= inv < R && (n * inv) % R == 1
    ensures Abs(Signed(Wrap32(inv - R))) == R - inv && 0 < R - inv < R
    ensures (n * (R - inv)) % R == R - 1
  {
    assert inv != 0;
    WrapNegative(inv - R);
    var q := (n * inv) / R;
    assert n * inv == R * q + 1;
    assert n * (R - inv) == (R - 1) + R * (n - q - 1);
    ModAddMultiple(R - 1, R, n - q - 1);
    SmallMod(R - 1, R);
  }

  /** For an odd n and a radix R = 2^j with n < R <= 2^30, n1 is R - n^-1 mod R,
      in (0, R), so that n * n1 == -1 modulo R: the constant REDC needs. */
  lemma N1ForRadixCorrect(n: nat, j: nat)
    requires n % 2 == 1 && n < Pow2(j) <= 0x4000_0000 && 1 <= j
    ensures 0 < N1ForRadix(n, Pow2(j)) < Pow2(j)
    ensures (n * N1ForRadix(n, Pow2(j))) % Pow2(j) == Pow2(j) - 1
  {
    var R := Pow2(j);
    OddCoprimePow2(n, j);
    InverseCorrect(n, R);
    SmallMod(1, R);
    N1FromInverse(n, R, InverseM(n, R));
  }

  /** For an odd n and a radix R = 2^j with n < R <= 2^30, r1 is the inverse of
      R modulo n, in [0, n). */
  lemma R1ForRadixCorrect(n: nat, j: nat)
    requires n % 2 == 1 && n < Pow2(j) <= 0x4000_0000
    ensures 0 <= R1ForRadix(n, Pow2(j)) < n
    ensures (Pow2(j) * R1ForRadix(n, Pow2(j))) % n == 1 % n
  {
    OddCoprimePow2(n, j);
    InverseCorrect(Pow2(j), n);
  }

  /** For an odd n below 2^30, montgomery_n1 gives n * n1 == -1 modulo
      R = next_pow2(n), with 0 < n1 < R. */
  lemma MontgomeryN1Correct(n: bv32)
    requires Value(n) % 2 == 1 && Value(n) < 0x4000_0000
    ensures 0 < MontgomeryN1(n) < Value(NextPow2(n))
    ensures (Value(n) * MontgomeryN1(n)) % Value(NextPow2(n)) == Value(NextPow2(n)) - 1
  {
    var j := RadixBounds(n);
    N1ForRadixCorrect(Value(n), j);
  }

  /** For an odd n below 2^30, montgomery_r1 is the inverse of
      R = next_pow2(n) modulo n, in [0, n). */
  lemma MontgomeryR1Correct(n: bv32)
    requires Value(n) % 2 == 1 && Value(n) < 0x4000_0000
    ensures 0 <= MontgomeryR1(n) < Value(n)
    ensures (Value(NextPow2(n)) * MontgomeryR1(n)) % Value(n) == 1 % Value(n)
  {
    var j := RadixBounds(n);
    R1ForRadixCorrect(Value(n), j);
  }

  /** montgomery_reduce (prime.c:79-89). With R = 2^r, the mask
      `a & ((1 << r) - 1)` is a mod R in two's complement, and the arithmetic
      shift `>> r` is floor division by R: Dafny's % and / on a positive divisor. */
  function MontgomeryReduce(a: int, r: nat, n: int, n1: int): int
  {
    var m := ((a % Pow2(r)) * n1) % Pow2(r);
    var t := (a + m * n) / Pow2(r);
    if t > n then t - n else t
  }

  /** Multiplying by a value that is -1 modulo R negates modulo R. */
  lemma TimesMinusOne(a0: int, p: int, R: int)
    requires R > 0 && p % R == R - 1
    ensures (a0 * p) % R == (-a0) % R
  {
    SmallMod(R - 1, R);
    MulCongruence(a0, p, R - 1, R);
    assert a0 * (R - 1) == -a0 + R * a0;
    ModAddMultiple(-a0, R, a0);
  }

  /** With n * n1 == -1 modulo R, the multiple m * n that REDC adds, with
      m == (a0 * n1) mod R, is -a0 modulo R. */
  lemma NegatingMultiple(a0: int, R: int, n: int, n1: int)
    requires R > 0 && (n * n1) % R == R - 1
    ensures ((((a0 * n1) % R) * n) % R) == (-a0) % R
  {
    ModMulLeft(a0 * n1, n, R);
    assert (a0 * n1) * n == a0 * (n * n1);
    TimesMinusOne(a0, n * n1, R);
  }

  /** Adding something that is -(a mod R) modulo R makes a divisible by R. */
  lemma CancelResidue(a: int, b: int, R: int)
    requires R > 0 && b % R == (-(a % R)) % R
    ensures (a + b) % R == 0
  {
    var a0 := a % R;
    ModAdd(a, b, R);
    ModAdd(a0, -a0, R);
    SmallMod(a0, R);
  }

  /** The multiple of n that REDC adds makes a divisible by R. */
  lemma ReduceDivisible(a: int, R: int, n: int, n1: int)
    requires R > 0 && (n * n1) % R == R - 1
    ensures (a + (((a % R) * n1) % R) * n) % R == 0
  {
    NegatingMultiple(a % R, R, n, n1);
    CancelResidue(a, (((a % R) * n1) % R) * n, R);
  }

  lemma MulCancelLess(R: int, t: int, u: int)
    requires R > 0 && R * t < R * u
    ensures t < u
  {
  }

  /** The division of an exact multiple of R by R, and its bounds. */
  lemma ExactQuotient(v: int, R: int, n: int, t: int)
    requires R > 0 && n > 0 && v % R == 0 && t == v / R && 0 <= v < 2 * n * R
    ensures t * R == v && 0 <= t < 2 * n
  {
    assert v == R * t;
    MulCancelLess(R, t, 2 * n);
  }

  lemma ReduceRange(a: int, m: int, n: int, R: int)
    requires n > 0 && 0 <= a < n * R && 0 <= m < R
    ensures 0 <= a + m * n < 2 * n * R
  {
    assert m * n <= (R - 1) * n;
  }

  lemma ReduceResult(a: int, R: int, n: int, m: int, t: int, z: int)
    requires t * R == a + m * n && z == (if t > n then m - R else m)
    ensures (if t > n then t - n else t) * R == a + n * z
  {
  }

  /** REDC: for 0 <= a < n*R and n*n1 == -1 modulo R = 2^r, the result lies in
      [0, n] (n itself is possible, the test being `a > n`) and is a * R^-1
      modulo n. */
  lemma ReduceCorrect(a: int, r: nat, n: int, n1: int)
    requires n > 0 && 0 <= a < n * Pow2(r) && (n * n1) % Pow2(r) == Pow2(r) - 1
    ensures 0 <= MontgomeryReduce(a, r, n, n1) <= n
    ensures (MontgomeryReduce(a, r, n, n1) * Pow2(r)) % n == a % n
  {
    var R := Pow2(r);
    var m := ((a % R) * n1) % R;
    var v := a + m * n;
    var t := v / R;
    ReduceDivisible(a, R, n, n1);
    ReduceRange(a, m, n, R);
    ExactQuotient(v, R, n, t);
    var z := if t > n then m - R else m;
    ReduceResult(a, R, n, m, t, z);
    ModAddMultiple(a, n, z);
  }

  /** The reduction's output can equal n: a == 3 with n == 3 and R == 4. */
  lemma ReduceReachesModulus()
    ensures (3 * 1) % Pow2(2) == Pow2(2) - 1
    ensures MontgomeryReduce(3, 2, 3, 1) == 3
  {
  }

  /** s is the Montgomery form of A: s == A * R modulo n. */
  predicate IsMontForm(s: int, A: int, R: int, n: int)
  {
    n > 0 && s % n == (A * R) % n
  }

  /** A Montgomery product: if s and i are the Montgomery forms of A and B,
      and sp * R == s * i modulo n, then sp is the Montgomery form of A * B. */
  lemma MontMul(sp: int, s: int, i: int, A: int, B: int, R: int, r1: int, n: int)
    requires n > 0
    requires (sp * R) % n == (s * i) % n
    requires IsMontForm(s, A, R, n) && IsMontForm(i, B, R, n)
    requires (R * r1) % n == 1 % n
    ensures IsMontForm(sp, (A * B) % n, R, n)
  {
    calc {
      sp % n;
      { MulCongruence(sp, 1, R * r1, n); }
      (sp * (R * r1)) % n;
      { assert sp * (R * r1) == (sp * R) * r1; }
      ((sp * R) * r1) % n;
      { ModMulLeft(sp * R, r1, n); ModMulLeft(s * i, r1, n); }
      ((s * i) * r1) % n;
      { ModMul(s, i, n); ModMul(A * R, B * R, n); ModMulLeft(s * i, r1, n); ModMulLeft((A * R) * (B * R), r1, n); }
      (((A * R) * (B * R)) * r1) % n;
      { assert ((A * R) * (B * R)) * r1 == ((A * B) * R) * (R * r1); }
      (((A * B) * R) * (R * r1)) % n;
      { MulCongruence((A * B) * R, R * r1, 1, n); }
      ((A * B) * R) % n;
      { ModMulLeft(A * B, R, n); }
      (((A * B) % n) * R) % n;
    }
  }

  lemma ProductBound(s: int, i: int, n: int, R: int)
    requires 0 <= s <= n && 0 <= i <= n && 0 < n < R
    ensures 0 <= s * i < n * R
  {
    assert s * i <= n * i <= n * n;
  }

  /** REDC of the product of two Montgomery forms in [0, n] is the Montgomery
      form of the product of the two values, again in [0, n]: the step
      montgomery repeats (prime.c:102, 104). */
  lemma ReduceProduct(s: int, i: int, A: int, B: int, r: nat, n: int, n1: int, r1: int)
    requires 0 < n < Pow2(r) && (n * n1) % Pow2(r) == Pow2(r) - 1
    requires (Pow2(r) * r1) % n == 1 % n
    requires 0 <= s <= n && 0 <= i <= n
    requires IsMontForm(s, A, Pow2(r), n) && IsMontForm(i, B, Pow2(r), n)
    ensures 0 <= MontgomeryReduce(s * i, r, n, n1) <= n
    ensures IsMontForm(MontgomeryReduce(s * i, r, n, n1), (A * B) % n, Pow2(r), n)
  {
    ProductBound(s, i, n, Pow2(r));
    ReduceCorrect(s * i, r, n, n1);
    MontMul(MontgomeryReduce(s * i, r, n, n1), s, i, A, B, Pow2(r), r1, n);
  }

  /** Leaving Montgomery form: multiplying by r1 undoes the factor R. */
  lemma MontgomeryExit(s: int, acc: int, R: int, r1: int, n: int)
    requires IsMontForm(s, acc, R, n) && (R * r1) % n == 1 % n
    ensures (s * r1) % n == acc % n
  {
    calc {
      (s * r1) % n;
      { ModMulLeft(s, r1, n); ModMulLeft(acc * R, r1, n); }
      ((acc * R) * r1) % n;
      { assert (acc * R) * r1 == acc * (R * r1); MulCongruence(acc, R * r1, 1, n); }
      acc % n;
    }
  }

  /** The constants montgomery computes (prime.c:93, 98-99), for an odd n below
      2^15 whose highest set bit is k: the radix R = 2^(k+1) is next_pow2(n)
      and exceeds n, n * n1 == -1 modulo R, and r1 inverts R modulo n. */
  lemma MontgomeryConstants(n: bv32, k: nat, N: int, r: nat, n1: int, r1: int)
    requires N == Value(n) && N % 2 == 1 && N < 0x8000
    requires Pow2(k) <= N < Pow2(k + 1) && r == k + 1
    requires n1 == MontgomeryN1(n) && r1 == MontgomeryR1(n)
    ensures 0 < N < Pow2(r) && (N * n1) % Pow2(r) == Pow2(r) - 1
    ensures (Pow2(r) * r1) % N == 1 % N
  {
    HighBitClear(n);
    NextPow2Above(n, k);
    MontgomeryN1Correct(n);
    MontgomeryR1Correct(n);
  }

  /** The forms montgomery starts from (prime.c:94-95): R mod n and x*R mod n
      are the Montgomery forms of 1 and of x mod n, both in [0, n]. */
  lemma MontgomeryEntry(x: int, N: int, R: int, s: int, i: int)
    requires 0 < N && s == R % N && i == (x * R) % N
    ensures 0 <= s <= N && 0 <= i <= N
    ensures IsMontForm(s, 1, R, N) && IsMontForm(i, x % N, R, N)
  {
    SmallMod(s, N);
    SmallMod(i, N);
    ModMulLeft(x, R, N);
  }

  /** One pass of montgomery's loop (prime.c:101-104) keeps s and i the
      Montgomery forms of the accumulator and the base, in [0, n], and keeps
      acc * base^e unchanged modulo n while e is halved. */
  lemma LoopStep(s: int, i: int, acc: int, base: int, e: nat, r: nat, n: int, n1: int, r1: int)
    requires 0 < n < Pow2(r) && (n * n1) % Pow2(r) == Pow2(r) - 1
    requires (Pow2(r) * r1) % n == 1 % n
    requires 0 <= s <= n && 0 <= i <= n
    requires IsMontForm(s, acc, Pow2(r), n) && IsMontForm(i, base, Pow2(r), n)
    ensures var s1 := if e % 2 == 1 then MontgomeryReduce(s * i, r, n, n1) else s;
            var acc1 := if e % 2 == 1 then (acc * base) % n else acc;
            0 <= s1 <= n && IsMontForm(s1, acc1, Pow2(r), n)
    ensures 0 <= MontgomeryReduce(i * i, r, n, n1) <= n
    ensures IsMontForm(MontgomeryReduce(i * i, r, n, n1), (base * base) % n, Pow2(r), n)
    ensures var acc1 := if e % 2 == 1 then (acc * base) % n else acc;
            (acc1 * Pow((base * base) % n, e / 2)) % n == (acc * Pow(base, e)) % n
  {
    var acc1 := if e % 2 == 1 then (acc * base) % n else acc;
    if e % 2 == 1 {
      ReduceProduct(s, i, acc, base, r, n, n1, r1);
      SmallMod(acc1, n);
    }
    ReduceProduct(i, i, base, base, r, n, n1, r1);
    SmallMod((base * base) % n, n);
    SquareMultiplyCongruence(acc, base, e, n, acc1, (base * base) % n);
  }

  /** montgomery (prime.c:91-108): x^d mod n by square-and-multiply on
      Montgomery forms, with R = 2^(msb32(n) + 1). This part computes r, n1
      and r1 (prime.c:93, 98-99); the forms of 1 and x, the loop and the
      conversion back are SquareAndMultiply. For an odd n below 2^15 and
      0 <= x < 2^15 every product stays below 2^31. The result is x^d mod n. */
  method Montgomery(x: int, d: int, n: bv32) returns (res: int)
    requires Value(n) % 2 == 1 && Value(n) < 0x8000
    requires 0 <= x < 0x8000 && d >= 0
    ensures res == Pow(x, d) % Value(n)
  {
    var N := Value(n);
    NonzeroWord(n);
    var k := Msb32(n);
    var r := k + 1;
    var n1 := MontgomeryN1(n);
    var r1 := MontgomeryR1(n);
    MontgomeryConstants(n, k, N, r, n1, r1);
    res := SquareAndMultiply(x, d, r, N, n1, r1);
  }

  /** The rest of montgomery (prime.c:94-95, 100-107): s and i start as the
      Montgomery forms of 1 and x; while e is nonzero, multiply s by i when e
      is odd, halve e and square i, every product reduced by REDC; then leave
      Montgomery form with r1. Given the radix constants, the result is
      x^d mod N. */
  method SquareAndMultiply(x: int, d: nat, r: nat, N: int, n1: int, r1: int) returns (res: int)
    requires 0 < N < Pow2(r) && (N * n1) % Pow2(r) == Pow2(r) - 1
    requires (Pow2(r) * r1) % N == 1 % N
    ensures res == Pow(x, d) % N
  {
    var R := Pow2(r);
    var s := R % N;
    var i := (x * R) % N;
    MontgomeryEntry(x, N, R, s, i);
    PowMod(x, d, N);
    ghost var acc, base := 1, x % N;
    var e := d;
    while e != 0
      invariant 0 <= s <= N && 0 <= i <= N
      invariant IsMontForm(s, acc, Pow2(r), N) && IsMontForm(i, base, Pow2(r), N)
      invariant (acc * Pow(base, e)) % N == Pow(x, d) % N
    {
      LoopStep(s, i, acc, base, e, r, N, n1, r1);
      if e % 2 == 1 {
        s := MontgomeryReduce(s * i, r, N, n1);
        acc := (acc * base) % N;
      }
      e := e / 2;
      i := MontgomeryReduce(i * i, r, N, n1);
      base := (base * base) % N;
    }
    MontgomeryExit(s, acc, Pow2(r), r1, N);
    res := (s * r1) % N;
  }
}
