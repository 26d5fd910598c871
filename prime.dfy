/** The two exponentiations of prime.c side by side: montgomery agrees with
    the reference powm, and the three cases printed by the demo. */
module Prime {
  import opened Arith
  import opened Bits
  import opened Euclid
  import opened Montgomery
  import opened Powm

  /** montgomery(x, d, n) == powm(x, d, n) for an odd n below 2^15 and
      0 <= x < 2^15, except for d == 0 with n == 1, where powm returns its
      unreduced 1 and montgomery returns 1 mod 1 == 0. */
  method MontgomeryMatchesPowm(x: int, d: int, n: bv32) returns (m: int, p: int)
    requires Value(n) % 2 == 1 && Value(n) < 0x8000
    requires 0 <= x < 0x8000 && d >= 0
    requires d > 0 || Value(n) > 1
    ensures m == p == Pow(x, d) % Value(n)
  {
    m := Montgomery.Montgomery(x, d, n);
    p := Powm.Powm(x, d, Value(n));
    if d > 0 {
      PowNonnegative(x, d);
      TModNonnegative(Pow(x, d), Value(n));
    } else {
      SmallMod(1, Value(n));
    }
  }

  /** For n == 1 and d == 0 the two disagree: powm returns 1, montgomery 0. */
  method ZeroExponentModOne(x: int) returns (m: int, p: int)
    requires 0 <= x < 0x8000
    ensures m == 0 && p == 1
  {
    OneLowValue(1, 32);
    m := Montgomery.Montgomery(x, 0, 1);
    p := Powm.Powm(x, 0, 1);
  }

  /** The word 43 stands for 43. */
  lemma ValueOf43()
    ensures Value(43) == 43
  {
    LowValueZero(26);
    assert LowValue(1, 27) == 1;
    assert LowValue(2, 28) == 2;
    assert LowValue(5, 29) == 5;
    assert LowValue(10, 30) == 10;
    assert LowValue(21, 31) == 21;
  }

  /** Squaring a power modulo n: b^(2e) mod n from b^e mod n, where
      v*v == n*q + w. */
  lemma PowDoubleMod(b: int, e: nat, n: int, v: int, q: int, w: int)
    requires n > 0 && Pow(b, e) % n == v && v * v == n * q + w && 0 <= w < n
    ensures Pow(b, 2 * e) % n == w
  {
    PowAdd(b, e, e);
    ModMul(Pow(b, e), Pow(b, e), n);
    SmallMod(v, n);
    ModAddMultiple(w, n, q);
    SmallMod(w, n);
  }

  /** One more factor: b^(e+1) mod n from b^e mod n, where b*v == n*q + w. */
  lemma PowNextMod(b: int, e: nat, n: int, v: int, q: int, w: int)
    requires n > 0 && Pow(b, e) % n == v && b * v == n * q + w && 0 <= w < n
    ensures Pow(b, e + 1) % n == w
  {
    SmallMod(v, n);
    MulCongruence(b, Pow(b, e), v, n);
    ModAddMultiple(w, n, q);
    SmallMod(w, n);
  }

  /** The three powers of the demo, by square-and-multiply on residues. The
      base is a parameter fixed by the requires so that the verifier does not
      try to unfold a literal such as Pow(32, 56) itself. */
  lemma DemoPower1(b: int)
    requires b == 32
    ensures Pow(b, 56) % 43 == 1
  {
    SmallMod(1, 43);
    PowNextMod(b, 0, 43, 1, 0, 32);
    PowDoubleMod(b, 1, 43, 32, 23, 35);
    PowNextMod(b, 2, 43, 35, 26, 2);
    PowDoubleMod(b, 3, 43, 2, 0, 4);
    PowNextMod(b, 6, 43, 4, 2, 42);
    PowDoubleMod(b, 7, 43, 42, 41, 1);
    PowDoubleMod(b, 14, 43, 1, 0, 1);
    PowDoubleMod(b, 28, 43, 1, 0, 1);
  }

  lemma DemoPower2(b: int)
    requires b == 35
    ensures Pow(b, 43) % 43 == 35
  {
    SmallMod(1, 43);
    PowNextMod(b, 0, 43, 1, 0, 35);
    PowDoubleMod(b, 1, 43, 35, 28, 21);
    PowDoubleMod(b, 2, 43, 21, 10, 11);
    PowNextMod(b, 4, 43, 11, 8, 41);
    PowDoubleMod(b, 5, 43, 41, 39, 4);
    PowDoubleMod(b, 10, 43, 4, 0, 16);
    PowNextMod(b, 20, 43, 16, 13, 1);
    PowDoubleMod(b, 21, 43, 1, 0, 1);
    PowNextMod(b, 42, 43, 1, 0, 35);
  }

  lemma DemoPower3(b: int)
    requires b == 23
    ensures Pow(b, 53) % 43 == 25
  {
    SmallMod(1, 43);
    PowNextMod(b, 0, 43, 1, 0, 23);
    PowDoubleMod(b, 1, 43, 23, 12, 13);
    PowNextMod(b, 2, 43, 13, 6, 41);
    PowDoubleMod(b, 3, 43, 41, 39, 4);
    PowDoubleMod(b, 6, 43, 4, 0, 16);
    PowNextMod(b, 12, 43, 16, 8, 24);
    PowDoubleMod(b, 13, 43, 24, 13, 17);
    PowDoubleMod(b, 26, 43, 17, 6, 31);
    PowNextMod(b, 52, 43, 31, 16, 25);
  }

  /** The demo of prime.c:140-146: with n == 43, both exponentiations give
      32^56 == 1, 35^43 == 35 and 23^53 == 25. */
  method Demo() returns (m1: int, p1: int, m2: int, p2: int, m3: int, p3: int)
    ensures m1 == p1 == 1 && m2 == p2 == 35 && m3 == p3 == 25
  {
    ValueOf43();
    DemoPower1(32);
    DemoPower2(35);
    DemoPower3(23);
    m1, p1 := MontgomeryMatchesPowm(32, 56, 43);
    m2, p2 := MontgomeryMatchesPowm(35, 43, 43);
    m3, p3 := MontgomeryMatchesPowm(23, 53, 43);
  }
}
