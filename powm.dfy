/** powm of prime.c: square-and-multiply with C's truncating remainder, the
    reference the Montgomery exponentiation is checked against. */
module Powm {
  import opened Arith
  import opened Euclid

  /** Multiplying by a power of a non-negative base keeps the sign of c, and
      this survives replacing c by a value of the same sign and the base by
      its remainder: the sign half of one pass of powm's loop. */
  lemma SignStep(c: int, c1: int, b: int, b1: int, h: nat)
    requires b >= 0 && b1 >= 0 && (b == 0 ==> b1 == 0)
    requires c >= 0 ==> c1 >= 0
    requires c <= 0 ==> c1 <= 0
    ensures c * Pow(b, h) >= 0 ==> c1 * Pow(b1, h) >= 0
    ensures c * Pow(b, h) <= 0 ==> c1 * Pow(b1, h) <= 0
  {
    if b1 > 0 {
      PowPositive(b1, h);
    }
    if b > 0 {
      PowPositive(b, h);
    } else if h > 0 {
      PowZero(h);
    }
  }

  lemma MulAssociates(r: int, u: int, h: int)
    ensures r * (u * h) == (r * u) * h
  {
  }

  /** The remainder of a square is non-negative, and zero when the square is. */
  lemma SquareRemainder(a: int, n: int)
    requires n != 0
    ensures a * a >= 0 && TMod(a * a, n) >= 0
    ensures a * a == 0 ==> TMod(a * a, n) == 0
  {
  }

  /** One pass of powm's loop (prime.c:116-119) keeps r * a^d congruent to
      the answer modulo |n|, and keeps its sign from opposing the answer's. */
  lemma PowmStep(r: int, a: int, e: nat, n: int, P: int)
    requires n != 0
    requires (r * Pow(a, e)) % Abs(n) == P % Abs(n)
    requires P >= 0 ==> r * Pow(a, e) >= 0
    requires P <= 0 ==> r * Pow(a, e) <= 0
    ensures var r1 := if e % 2 == 1 then TMod(r * a, n) else r;
            var a1 := TMod(a * a, n);
            && (r1 * Pow(a1, e / 2)) % Abs(n) == P % Abs(n)
            && (P >= 0 ==> r1 * Pow(a1, e / 2) >= 0)
            && (P <= 0 ==> r1 * Pow(a1, e / 2) <= 0)
  {
    var c := if e % 2 == 1 then r * a else r;
    var r1 := if e % 2 == 1 then TMod(r * a, n) else r;
    var a1 := TMod(a * a, n);
    TModCongruent(a * a, n);
    if e % 2 == 1 {
      TModCongruent(r * a, n);
    }
    SquareMultiplyCongruence(r, a, e, Abs(n), r1, a1);
    PowSquare(a, e);
    var u, h := Pow(a, e % 2), Pow(a * a, e / 2);
    assert u == if e % 2 == 1 then a else 1;
    MulAssociates(r, u, h);
    SquareRemainder(a, n);
    SignStep(c, r1, a * a, a1, e / 2);
  }

  /** powm (prime.c:112-122): r starts at 1; while d is nonzero, r becomes
      r * a % n when d is odd, d is halved and a becomes a * a % n, with C's
      `%`. For d == 0 the result is 1, unreduced; otherwise it is a^d % n as
      C computes it, carrying the sign of a^d. The bounds on a and n keep
      every product inside a 32-bit int. With d == 0 the loop does not run
      and n is never used, so n == 0 is allowed then. */
  method Powm(a: int, d: int, n: int) returns (res: int)
    requires (d > 0 ==> n != 0) && Abs(n) <= 0x8000 && Abs(a) < 0x8000 && d >= 0
    ensures d == 0 ==> res == 1
    ensures d > 0 ==> res == TMod(Pow(a, d), n)
  {
    ghost var P := Pow(a, d);
    var r := 1;
    var b := a;
    var e := d;
    while e != 0
      invariant 0 <= e <= d && Abs(r) < 0x8000 && Abs(b) < 0x8000
      invariant d == 0 ==> r == 1
      invariant d != 0 && e == 0 ==> Abs(r) < Abs(n)
      invariant d != 0 ==> (r * Pow(b, e)) % Abs(n) == P % Abs(n)
      invariant P >= 0 ==> r * Pow(b, e) >= 0
      invariant P <= 0 ==> r * Pow(b, e) <= 0
    {
      PowmStep(r, b, e, n, P);
      if e % 2 == 1 {
        r := TMod(r * b, n);
      }
      e := e / 2;
      b := TMod(b * b, n);
    }
    if d != 0 {
      TModUnique(r, P, n);
    }
    res := r;
  }
}
