/** Integer facts shared by the bit utilities, the Euclidean solver and the
    two modular exponentiations: powers, divisibility and residues. */
module Arith {

  /** 2^k */
  function Pow2(k: nat): (p: nat)
    ensures p >= 1
  {
    if k == 0 then 1 else 2 * Pow2(k - 1)
  }

  /** b^e, by repeated multiplication: the reference the exponentiations are proved against. */
  function Pow(b: int, e: nat): int
  {
    if e == 0 then 1 else b * Pow(b, e - 1)
  }

  function Abs(a: int): nat
  {
    if a < 0 then -a else a
  }

  /** c divides a (0 divides only 0). */
  predicate Divides(c: int, a: int)
  {
    if c == 0 then a == 0 else a % c == 0
  }

  /** The only positive common divisor of a and b is 1. */
  ghost predicate Coprime(a: int, b: int)
  {
    forall c: int :: c > 0 && Divides(c, a) && Divides(c, b) ==> c == 1
  }

  /** g is the greatest common divisor of a and b: a non-negative common divisor
      that every positive common divisor divides. */
  ghost predicate IsGcd(g: int, a: int, b: int)
  {
    && g >= 0
    && Divides(g, a) && Divides(g, b)
    && forall c: int :: c > 0 && Divides(c, a) && Divides(c, b) ==> Divides(c, g)
  }

  lemma {:induction false} Pow2Monotone(j: nat, k: nat)
    requires j <= k
    ensures Pow2(j) <= Pow2(k)
  {
    if j < k {
      Pow2Monotone(j, k - 1);
    }
  }

  lemma {:induction false} Pow2Add(j: nat, k: nat)
    ensures Pow2(j + k) == Pow2(j) * Pow2(k)
  {
    if j > 0 {
      Pow2Add(j - 1, k);
    }
  }

  /** The powers of two that bound the 16-bit and 32-bit ranges used below. */
  lemma Pow2Constants()
    ensures Pow2(15) == 0x8000 && Pow2(30) == 0x4000_0000 && Pow2(31) == 0x8000_0000
  {
    assert Pow2(5) == 32;
    Pow2Add(5, 5);
    Pow2Add(10, 5);
    Pow2Add(15, 15);
  }

  /** A multiple of n strictly between -n and n is zero. */
  lemma MultipleInOpenRange(n: int, z: int)
    requires n > 0 && -n < n * z < n
    ensures z == 0
  {
  }

  /** The only positive divisor of 1 is 1. */
  lemma DividesOne(c: int)
    requires c > 0 && Divides(c, 1)
    ensures c == 1
  {
    if c > 1 {
      SmallMod(1, c);
    }
  }

  /** A value in [0, n) is its own residue. */
  lemma SmallMod(x: int, n: int)
    requires 0 <= x < n
    ensures x % n == x
  {
    MultipleInOpenRange(n, x / n);
  }

  /** Adding a multiple of n does not change the residue modulo n. */
  lemma ModAddMultiple(a: int, n: int, k: int)
    requires n > 0
    ensures (a + n * k) % n == a % n
  {
    var q, r := (a + n * k) / n, (a + n * k) % n;
    var q0, r0 := a / n, a % n;
    assert n * q + r == n * q0 + r0 + n * k;
    assert n * (q - q0 - k) == r0 - r;
    MultipleInOpenRange(n, q - q0 - k);
  }

  /** A residue computed from residues: (a * b) mod n == ((a mod n) * (b mod n)) mod n. */
  lemma ModMul(a: int, b: int, n: int)
    requires n > 0
    ensures (a * b) % n == ((a % n) * (b % n)) % n
  {
    var qa, ra := a / n, a % n;
    var qb, rb := b / n, b % n;
    calc {
      a * b;
      (n * qa + ra) * b;
      n * qa * b + ra * b;
      n * qa * b + ra * (n * qb + rb);
      n * qa * b + ra * (n * qb) + ra * rb;
      ra * rb + n * (qa * b + ra * qb);
    }
    ModAddMultiple(ra * rb, n, qa * b + ra * qb);
  }

  /** Multiplying congruent values by the same factor keeps them congruent. */
  lemma MulCongruence(a: int, b: int, c: int, n: int)
    requires n > 0 && b % n == c % n
    ensures (a * b) % n == (a * c) % n
  {
    ModMul(a, b, n);
    ModMul(a, c, n);
  }

  /** Same as ModMul, reducing only the left factor. */
  lemma ModMulLeft(a: int, b: int, n: int)
    requires n > 0
    ensures (a * b) % n == ((a % n) * b) % n
  {
    ModMul(a, b, n);
    ModMul(a % n, b, n);
    SmallMod(a % n, n);
  }

  lemma ModAdd(a: int, b: int, n: int)
    requires n > 0
    ensures (a + b) % n == ((a % n) + (b % n)) % n
  {
    assert a + b == (a % n) + (b % n) + n * (a / n + b / n);
    ModAddMultiple((a % n) + (b % n), n, a / n + b / n);
  }

  /** A multiple of c is divisible by c. */
  lemma DividesMultiple(c: nat, k: int)
    ensures Divides(c, c * k)
  {
    if c != 0 {
      ModAddMultiple(0, c, k);
    }
  }

  /** If c divides a then a is c times an integer. */
  lemma DividesWitness(c: int, a: int) returns (k: int)
    requires Divides(c, a)
    ensures a == c * k
  {
    if c == 0 {
      k := 0;
    } else {
      k := a / c;
    }
  }

  /** A common divisor of a and b divides every integer combination of them. */
  lemma DividesLinear(c: nat, a: int, b: int, x: int, y: int)
    requires Divides(c, a) && Divides(c, b)
    ensures Divides(c, a * x + b * y)
  {
    var ka := DividesWitness(c, a);
    var kb := DividesWitness(c, b);
    calc {
      a * x + b * y;
      (c * ka) * x + (c * kb) * y;
      c * (ka * x + kb * y);
    }
    DividesMultiple(c, ka * x + kb * y);
  }

  /** A divisor of an odd number is odd. */
  lemma OddDivisor(c: int, v: int)
    requires c > 0 && v % 2 == 1 && Divides(c, v)
    ensures c % 2 == 1
  {
    var t := DividesWitness(c, v);
    if c % 2 == 0 {
      var h := c / 2;
      calc {
        v;
        c * t;
        (2 * h) * t;
        2 * (h * t);
      }
      ModAddMultiple(0, 2, h * t);
    }
  }

  /** An odd divisor of 2m divides m. */
  lemma OddDividesHalf(c: int, m: int)
    requires c > 0 && c % 2 == 1 && Divides(c, 2 * m)
    ensures Divides(c, m)
  {
    var r := m % c;
    calc {
      2 * m;
      2 * (c * (m / c) + r);
      2 * r + c * (2 * (m / c));
    }
    ModAddMultiple(2 * r, c, 2 * (m / c));
    if 0 < r {
      // (2r) mod c == 0 with 0 < 2r < 2c forces 2r == c, impossible for odd c
      var q := (2 * r) / c;
      assert 2 * r == c * q;
      MultipleInOpenRange(c, q - 1);
    }
  }

  /** An odd number and a power of two have no common divisor but 1. */
  lemma OddCoprimePow2(v: int, k: nat)
    requires v % 2 == 1
    ensures Coprime(v, Pow2(k)) && Coprime(Pow2(k), v)
  {
    forall c: int | c > 0 && Divides(c, v) && Divides(c, Pow2(k))
      ensures c == 1
    {
      OddDivisor(c, v);
      OddDivisorOfPow2(c, k);
    }
  }

  /** The only odd positive divisor of 2^k is 1. */
  lemma {:induction false} OddDivisorOfPow2(c: int, k: nat)
    requires c > 0 && c % 2 == 1 && Divides(c, Pow2(k))
    ensures c == 1
  {
    if k == 0 {
      DividesOne(c);
    } else {
      OddDividesHalf(c, Pow2(k - 1));
      OddDivisorOfPow2(c, k - 1);
    }
  }

  /** Reducing the base modulo n does not change b^e modulo n. */
  lemma {:induction false} PowMod(b: int, e: nat, n: int)
    requires n > 0
    ensures Pow(b % n, e) % n == Pow(b, e) % n
  {
    if e > 0 {
      PowMod(b, e - 1, n);
      calc {
        Pow(b % n, e) % n;
        ((b % n) * Pow(b % n, e - 1)) % n;
        { MulCongruence(b % n, Pow(b % n, e - 1), Pow(b, e - 1), n); }
        ((b % n) * Pow(b, e - 1)) % n;
        { ModMulLeft(b, Pow(b, e - 1), n); }
        (b * Pow(b, e - 1)) % n;
      }
    }
  }

  lemma {:induction false} PowAdd(b: int, e: nat, f: nat)
    ensures Pow(b, e + f) == Pow(b, e) * Pow(b, f)
  {
    if e > 0 {
      PowAdd(b, e - 1, f);
    }
  }

  /** A power of a positive base is positive. */
  lemma {:induction false} PowPositive(b: int, e: nat)
    requires b > 0
    ensures Pow(b, e) > 0
  {
    if e > 0 {
      PowPositive(b, e - 1);
    }
  }

  /** A power of a non-negative base is non-negative. */
  lemma PowNonnegative(b: int, e: nat)
    requires b >= 0
    ensures Pow(b, e) >= 0
  {
    if b > 0 {
      PowPositive(b, e);
    } else if e > 0 {
      PowZero(e);
    }
  }

  /** A positive power of zero is zero. */
  lemma PowZero(e: nat)
    requires e > 0
    ensures Pow(0, e) == 0
  {
  }

  lemma MulRearrange(b: int, u: int, v: int)
    ensures b * (b * (u * v)) == u * ((b * b) * v)
  {
  }

  /** b^e == b^(e mod 2) * (b*b)^(e div 2): the step of square-and-multiply. */
  lemma {:induction false} PowSquare(b: int, e: nat)
    ensures Pow(b, e) == Pow(b, e % 2) * Pow(b * b, e / 2)
  {
    if e >= 2 {
      PowSquare(b, e - 2);
      var u, v := Pow(b, (e - 2) % 2), Pow(b * b, (e - 2) / 2);
      assert e / 2 == (e - 2) / 2 + 1 && e % 2 == (e - 2) % 2;
      assert Pow(b, e) == b * (b * (u * v));
      assert Pow(b * b, e / 2) == (b * b) * v;
      MulRearrange(b, u, v);
    }
  }

  /** One round of square-and-multiply keeps acc * base^e unchanged modulo n,
      whichever representative of the new accumulator and base is kept. */
  lemma SquareMultiplyCongruence(acc: int, base: int, e: nat, n: int, acc1: int, base1: int)
    requires n > 0
    requires acc1 % n == (if e % 2 == 1 then acc * base else acc) % n
    requires base1 % n == (base * base) % n
    ensures (acc1 * Pow(base1, e / 2)) % n == (acc * Pow(base, e)) % n
  {
    var h := e / 2;
    var c := if e % 2 == 1 then acc * base else acc;
    PowMod(base1, h, n);
    PowMod(base * base, h, n);
    MulCongruence(acc1, Pow(base1, h), Pow(base * base, h), n);
    ModMulLeft(acc1, Pow(base * base, h), n);
    ModMulLeft(c, Pow(base * base, h), n);
    PowSquare(base, e);
    assert c == acc * Pow(base, e % 2);
    assert c * Pow(base * base, h) == acc * Pow(base, e);
  }
}
