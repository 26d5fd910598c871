/** extended_euclidean and inverse_m of prime.c over C's signed integer
    division, which truncates toward zero. */
module Euclid {
  import opened Arith

  /** C's `a / b`: the quotient of the magnitudes, negated when the signs differ. */
  function TDiv(a: int, b: int): int
    requires b != 0
  {
    if (a < 0) == (b < 0) then Abs(a) / Abs(b) else -(Abs(a) / Abs(b))
  }

  /** C's `a % b`: the remainder of the magnitudes, carrying the sign of a.
      Together with TDiv it satisfies C's identity (a/b)*b + a%b == a. */
  function TMod(a: int, b: int): (r: int)
    requires b != 0
    ensures a == b * TDiv(a, b) + r
    ensures Abs(r) < Abs(b)
    ensures a >= 0 ==> r >= 0
    ensures a <= 0 ==> r <= 0
  {
    var m := Abs(a) % Abs(b);
    assert Abs(a) == Abs(b) * (Abs(a) / Abs(b)) + m;
    if a < 0 then -m else m
  }

  /** C's remainder is congruent to the dividend modulo |b|. */
  lemma TModCongruent(a: int, b: int)
    requires b != 0
    ensures TMod(a, b) % Abs(b) == a % Abs(b)
  {
    var k := if b < 0 then -TDiv(a, b) else TDiv(a, b);
    assert a == TMod(a, b) + Abs(b) * k;
    ModAddMultiple(TMod(a, b), Abs(b), k);
  }

  /** C's remainder is the only value below |b| in magnitude, congruent to a
      modulo |b|, that is not of the opposite sign to a. */
  lemma TModUnique(v: int, a: int, b: int)
    requires b != 0 && Abs(v) < Abs(b) && v % Abs(b) == a % Abs(b)
    requires a >= 0 ==> v >= 0
    requires a <= 0 ==> v <= 0
    ensures v == TMod(a, b)
  {
    var t, m := TMod(a, b), Abs(b);
    TModCongruent(a, b);
    assert v - t == m * (v / m - t / m);
    MultipleInOpenRange(m, v / m - t / m);
  }

  /** On a non-negative dividend and a positive divisor C's remainder is the
      mathematical one. */
  lemma TModNonnegative(a: int, b: int)
    requires a >= 0 && b > 0
    ensures TMod(a, b) == a % b
  {
    SmallMod(a % b, b);
    TModUnique(a % b, a, b);
  }

  /** The outputs of extended_euclidean: the returned d and the two
      coefficients that it stores through its x and y arguments. */
  datatype Solution = Solution(d: int, x: int, y: int)

  /** The back-substitution of extended_euclidean: a solution for (b, a % b)
      gives one for (a, b). */
  lemma BezoutStep(a: int, b: int, q: int, r: int, x1: int, y1: int)
    requires a == b * q + r
    ensures a * y1 + b * (x1 - q * y1) == b * x1 + r * y1
  {
  }

  /** extended_euclidean (prime.c:8-25): the recursive solver of a*x + b*y == d. */
  function ExtendedEuclidean(a: int, b: int): (s: Solution)
    ensures a * s.x + b * s.y == s.d
    decreases Abs(b)
  {
    if b == 0 then
      Solution(a, 1, 0)
    else
      var q, r := TDiv(a, b), TMod(a, b);
      var t := ExtendedEuclidean(b, r);
      BezoutStep(a, b, q, r, t.x, t.y);
      Solution(t.d, t.y, t.x - q * t.y)
  }

  lemma DividesAbs(a: int)
    ensures Divides(Abs(a), a)
  {
    if a < 0 {
      DividesMultiple(Abs(a), -1);
    } else {
      DividesMultiple(Abs(a), 1);
    }
  }

  /** The magnitude of the d that extended_euclidean returns is gcd(a, b); it is
      non-negative itself when a and b are. */
  lemma {:induction false} EuclidGcd(a: int, b: int)
    ensures IsGcd(Abs(ExtendedEuclidean(a, b).d), a, b)
    ensures a >= 0 && b >= 0 ==> ExtendedEuclidean(a, b).d >= 0
    decreases Abs(b)
  {
    var g := Abs(ExtendedEuclidean(a, b).d);
    if b == 0 {
      DividesAbs(a);
      DividesMultiple(g, 0);
      forall c: int | c > 0 && Divides(c, a) && Divides(c, b)
        ensures Divides(c, g)
      {
        DividesLinear(c, a, b, if a < 0 then -1 else 1, 0);
      }
    } else {
      var q, r := TDiv(a, b), TMod(a, b);
      assert g == Abs(ExtendedEuclidean(b, r).d);
      EuclidGcd(b, r);
      GcdStep(g, a, b, q, r);
    }
  }

  /** With a == b*q + r, the pairs (a, b) and (b, r) have the same common
      divisors, hence the same gcd. */
  lemma GcdStep(g: nat, a: int, b: int, q: int, r: int)
    requires a == b * q + r && IsGcd(g, b, r)
    ensures IsGcd(g, a, b)
  {
    assert a == b * q + r * 1;
    DividesLinear(g, b, r, q, 1);
    forall c: int | c > 0 && Divides(c, a) && Divides(c, b)
      ensures Divides(c, g)
    {
      assert r == a * 1 + b * -q;
      DividesLinear(c, a, b, 1, -q);
    }
  }

  lemma CoefficientStep(a: int, b: int, q: int, r: int, x1: int, y1: int)
    requires q >= 0 && a == b * q + r && Abs(x1) <= r && Abs(y1) <= b
    ensures Abs(x1 - q * y1) <= a
  {
    if y1 < 0 {
      assert q * y1 >= q * -b;
    } else {
      assert q * y1 <= q * b;
    }
  }

  /** For a >= 0 and b > 0 the coefficients stay small: |x| <= b and
      |y| <= max(a, 1), so none of the intermediate products leaves the range
      of the inputs' type. */
  lemma {:induction false} CoefficientBounds(a: int, b: int)
    requires a >= 0 && b > 0
    ensures Abs(ExtendedEuclidean(a, b).x) <= b
    ensures Abs(ExtendedEuclidean(a, b).y) <= a || ExtendedEuclidean(a, b).y == 1
    decreases b
  {
    var q, r := TDiv(a, b), TMod(a, b);
    var t := ExtendedEuclidean(b, r);
    assert ExtendedEuclidean(a, b) == Solution(t.d, t.y, t.x - q * t.y);
    if r > 0 {
      CoefficientBounds(b, r);
      CoefficientStep(a, b, q, r, t.x, t.y);
    } else {
      assert t == Solution(b, 1, 0);
    }
  }

  /** inverse_m (prime.c:30-37): the coefficient of a, moved up by m when negative. */
  function InverseM(a: int, m: int): int
  {
    var s := ExtendedEuclidean(a, m);
    if s.x < 0 then s.x + m else s.x
  }

  /** With a*x + m*y == 1 and -m < x < m, x or x + m is an inverse of a in [0, m). */
  lemma InverseFromBezout(a: int, m: int, x: int, y: int, inv: int)
    requires m > 0 && a * x + m * y == 1 && -m < x < m
    requires inv == if x < 0 then x + m else x
    ensures 0 <= inv < m && (a * inv) % m == 1 % m
  {
    var k := if x < 0 then a - y else -y;
    assert a * inv == 1 + m * k;
    ModAddMultiple(1, m, k);
  }

  /** Modulo 1 the coefficient of a is 0. */
  lemma UnitModulus(a: int)
    requires a >= 0
    ensures ExtendedEuclidean(a, 1).x == 0
  {
    assert TMod(a, 1) == 0;
    assert ExtendedEuclidean(1, 0) == Solution(1, 1, 0);
  }

  /** A Bezout coefficient of magnitude at most m > 1 with a*x + m*y == 1 lies
      strictly between -m and m. */
  lemma BezoutInterior(a: int, m: int, x: int, y: int)
    requires m > 1 && a * x + m * y == 1 && Abs(x) <= m
    ensures -m < x < m
  {
    if x == m {
      assert m * (a + y) == 1;
      MultipleInOpenRange(m, a + y);
    } else if x == -m {
      assert m * (y - a) == 1;
      MultipleInOpenRange(m, y - a);
    }
  }

  /** For coprime a and m, extended_euclidean returns d == 1 and a coefficient
      of a strictly between -m and m. */
  lemma CoprimeSolution(a: int, m: int)
    requires a >= 0 && m >= 1 && Coprime(a, m)
    ensures ExtendedEuclidean(a, m).d == 1
    ensures -m < ExtendedEuclidean(a, m).x < m
  {
    var s := ExtendedEuclidean(a, m);
    EuclidGcd(a, m);
    assert Divides(s.d, m);
    CoefficientBounds(a, m);
    if m == 1 {
      UnitModulus(a);
    } else {
      BezoutInterior(a, m, s.x, s.y);
    }
  }

  /** inverse_m returns an inverse of a modulo m, in [0, m), when a and m are coprime. */
  lemma InverseCorrect(a: int, m: int)
    requires a >= 0 && m >= 1 && Coprime(a, m)
    ensures 0 <= InverseM(a, m) < m && (a * InverseM(a, m)) % m == 1 % m
  {
    var s := ExtendedEuclidean(a, m);
    CoprimeSolution(a, m);
    InverseFromBezout(a, m, s.x, s.y, InverseM(a, m));
  }

  /** Conversely, a value inverse_m returns is an inverse only when a and m are
      coprime: no inverse exists otherwise. */
  lemma InverseOnlyIfCoprime(a: int, m: int)
    requires m >= 1 && (a * InverseM(a, m)) % m == 1 % m
    ensures Coprime(a, m)
  {
    var inv := InverseM(a, m);
    var k := (a * inv) / m;
    forall c: int | c > 0 && Divides(c, a) && Divides(c, m)
      ensures c == 1
    {
      if m == 1 {
        DividesLinear(c, a, m, 0, 1);
      } else {
        SmallMod(1, m);
        assert a * inv + m * -k == 1;
        DividesLinear(c, a, m, inv, -k);
      }
      DividesOne(c);
    }
  }

  /** For a negative a, extended_euclidean can return d == -1, and its
      coefficient then inverts -a rather than a: inverse_m(-1, 5) returns 1,
      and -1 * 1 is 4 modulo 5, not 1. */
  lemma InverseOfNegative()
    ensures ExtendedEuclidean(-1, 5).d == -1
    ensures InverseM(-1, 5) == 1
    ensures (-1 * InverseM(-1, 5)) % 5 == 4
  {
    assert TDiv(-1, 5) == 0 && TMod(-1, 5) == -1;
    assert TDiv(5, -1) == -5 && TMod(5, -1) == 0;
    assert ExtendedEuclidean(-1, 0) == Solution(-1, 1, 0);
    assert ExtendedEuclidean(5, -1) == Solution(-1, 0, 1);
    assert ExtendedEuclidean(-1, 5) == Solution(-1, 1, 0);
  }
}
