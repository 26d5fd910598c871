/** The bit utilities of prime.c (msb32, next_pow2) over 32-bit unsigned words,
    and the number such a word stands for. */
module Bits {
  import opened Arith

  /** Bit k is the highest set bit of w. */
  predicate IsTopBit(w: bv32, k: bv6)
  {
    k < 32 && w >> k == 1
  }

  /** The number denoted by the low m bits of w. */
  function LowValue(w: bv32, m: nat): nat
  {
    if m == 0 then 0 else 2 * LowValue(w >> 1, m - 1) + (if w & 1 == 1 then 1 else 0)
  }

  /** The number a C `unsigned int` holding the bit pattern w stands for. */
  function Value(w: bv32): nat
  {
    LowValue(w, 32)
  }

  lemma {:induction false} LowValueZero(m: nat)
    ensures LowValue(0, m) == 0
  {
    if m > 0 {
      LowValueZero(m - 1);
    }
  }

  lemma OneLowValue(w: bv32, m: nat)
    requires IsTopBit(w, 0) && 0 < m
    ensures LowValue(w, m) == 1
  {
    assert w == 1 && w >> 1 == 0;
    LowValueZero(m - 1);
  }

  /** If the highest set bit of w is bit k and k < m, then 2^k <= LowValue(w, m) < 2^(k+1). */
  lemma {:induction false} TopBitLowValue(w: bv32, k: bv6, m: nat)
    requires IsTopBit(w, k) && k as nat < m
    ensures Pow2(k as nat) <= LowValue(w, m) < Pow2(k as nat + 1)
    decreases m
  {
    if k == 0 {
      OneLowValue(w, m);
    } else {
      TopBitShift(w, k);
      IndexPred(k);
      TopBitLowValue(w >> 1, k - 1, m - 1);
    }
  }

  /** The word with only bit k set denotes 2^k. */
  lemma {:induction false} SingleBitLowValue(k: bv6, m: nat)
    requires k < 32 && k as nat < m
    ensures LowValue(1 << k, m) == Pow2(k as nat)
    decreases m
  {
    if k == 0 {
      LowValueZero(m - 1);
    } else {
      assert (1 as bv32 << k) >> 1 == 1 << (k - 1);
      SingleBitLowValue(k - 1, m - 1);
    }
  }

  /** If the highest set bit of w is bit k, then 2^k <= Value(w) < 2^(k+1). */
  lemma TopBitBounds(w: bv32, k: bv6)
    requires IsTopBit(w, k)
    ensures Pow2(k as nat) <= Value(w) < Pow2(k as nat + 1)
  {
    TopBitLowValue(w, k, 32);
  }

  lemma TopBitBelow(w: bv32, m: bv6)
    requires w != 0 && m < 32 && w >> m == 0
    ensures 0 < m && w >> (m - 1) <= 1
  {
  }

  /** A nonzero word has a highest set bit, at or below m when no bit above m is set. */
  lemma {:induction false} TopBitExists(w: bv32, m: bv6) returns (k: bv6)
    requires w != 0 && m < 32 && w >> m <= 1
    ensures IsTopBit(w, k)
    decreases m as int
  {
    if IsTopBit(w, m) {
      k := m;
    } else {
      TopBitBelow(w, m);
      k := TopBitExists(w, m - 1);
    }
  }

  /** A word whose value is positive is not the zero word. */
  lemma NonzeroWord(w: bv32)
    requires Value(w) > 0
    ensures w != 0
  {
    if w == 0 {
      LowValueZero(32);
    }
  }

  /** A word whose value is below 2^31 has its top bit clear. */
  lemma HighBitClear(w: bv32)
    requires Value(w) < 0x8000_0000
    ensures w < 0x8000_0000
  {
    Pow2Constants();
    if !(w < 0x8000_0000) {
      assert IsTopBit(w, 31);
      TopBitBounds(w, 31);
    }
  }

  /** msb32: the index of the highest set bit of n, found by halving the
      candidate range five times (prime.c:39-48); 0 when no bit is set. The
      running index, 0..31, is held in six bits. */
  method Msb32(n: bv32) returns (k: nat)
    ensures k < 32
    ensures n != 0 ==> Pow2(k) <= Value(n) < Pow2(k + 1)
    ensures n == 0 ==> k == 0
  {
    var ret: bv6 := 0;
    var m := n;
    if m & 0xffff_0000 != 0 { ret := ret + 16; m := m & 0xffff_0000; }
    if m & 0xff00_ff00 != 0 { ret := ret + 8; m := m & 0xff00_ff00; }
    if m & 0xf0f0_f0f0 != 0 { ret := ret + 4; m := m & 0xf0f0_f0f0; }
    if m & 0xcccc_cccc != 0 { ret := ret + 2; m := m & 0xcccc_cccc; }
    if m & 0xaaaa_aaaa != 0 { ret := ret + 1; }
    if n != 0 {
      TopBitBounds(n, ret);
    }
    k := ret as nat;
  }

  /** next_pow2: copy the highest set bit into every lower position, then add
      one (prime.c:50-58). */
  function NextPow2(n: bv32): bv32
  {
    var n := n | (n >> 1);
    var n := n | (n >> 2);
    var n := n | (n >> 4);
    var n := n | (n >> 8);
    var n := n | (n >> 16);
    n + 1
  }

  /** Below 2^31 next_pow2 returns a power of two p with p/2 <= n < p, the
      least power of two above n; from 2^31 on the addition wraps around to 0. */
  lemma NextPow2Power(n: bv32)
    ensures n < 0x8000_0000 ==> var p := NextPow2(n); p != 0 && p & (p - 1) == 0 && p >> 1 <= n < p
    ensures 0x8000_0000 <= n ==> NextPow2(n) == 0
  {
  }

  /** Doubling n doubles next_pow2(n): below 2^31 the smeared value of n is
      twice that of n >> 1, plus one. */
  lemma NextPow2Halve(n: bv32)
    requires 0 < n < 0x8000_0000
    ensures NextPow2(n) & 1 == 0 && NextPow2(n) >> 1 == NextPow2(n >> 1)
  {
  }

  lemma IndexPred(k: bv6)
    requires k > 0
    ensures (k - 1) as nat == k as nat - 1
  {
  }

  lemma TopBitShift(w: bv32, k: bv6)
    requires IsTopBit(w, k) && k > 0
    ensures IsTopBit(w >> 1, k - 1)
  {
  }

  lemma NextPow2OfOne(n: bv32, m: nat)
    requires IsTopBit(n, 0) && 2 <= m
    ensures LowValue(NextPow2(n), m) == Pow2(1)
  {
    assert n == 1 && NextPow2(n) == 1 << 1;
    SingleBitLowValue(1, m);
  }

  lemma NextPow2Double(n: bv32, j: nat, m: nat)
    requires 0 < n < 0x8000_0000 && 0 < m && LowValue(NextPow2(n >> 1), m - 1) == Pow2(j)
    ensures LowValue(NextPow2(n), m) == Pow2(j + 1)
  {
    NextPow2Halve(n);
  }

  /** With its highest set bit at k < 31, next_pow2(n) denotes 2^(k+1). */
  lemma {:induction false} NextPow2LowValue(n: bv32, k: bv6, m: nat)
    requires n < 0x8000_0000 && IsTopBit(n, k) && k as nat + 1 < m
    ensures LowValue(NextPow2(n), m) == Pow2(k as nat + 1)
    decreases m
  {
    if k == 0 {
      NextPow2OfOne(n, m);
    } else {
      TopBitShift(n, k);
      IndexPred(k);
      NextPow2LowValue(n >> 1, k - 1, m - 1);
      NextPow2Double(n, k as nat, m);
    }
  }

  /** With its highest set bit at k, next_pow2(n) denotes 2^(k+1). */
  lemma NextPow2Radix(n: bv32, k: bv6)
    requires n < 0x8000_0000 && IsTopBit(n, k)
    ensures k < 31 && Value(NextPow2(n)) == Pow2(k as nat + 1)
  {
    assert k < 31;
    NextPow2LowValue(n, k, 32);
  }

  /** For n < 2^31 with 2^k <= n < 2^(k+1), next_pow2(n) is 2^(k+1): the
      radix of montgomery_n1/montgomery_r1 is one bit above msb32's index
      (prime.c:63, 71, 93). */
  lemma NextPow2Above(n: bv32, k: nat)
    requires n < 0x8000_0000 && Pow2(k) <= Value(n) < Pow2(k + 1)
    ensures Value(NextPow2(n)) == Pow2(k + 1)
  {
    var j := NextPow2Least(n);
    if j <= k {
      Pow2Monotone(j, k);
    }
  }

  /** For n < 2^31, next_pow2(n) is 2^j for the least j with n < 2^j. */
  lemma NextPow2Least(n: bv32) returns (j: nat)
    requires n < 0x8000_0000
    ensures Value(NextPow2(n)) == Pow2(j) && Value(n) < Pow2(j)
    ensures forall i: nat :: Value(n) < Pow2(i) ==> j <= i
  {
    if n == 0 {
      j := 0;
      SingleBitLowValue(0, 32);
    } else {
      var k := TopBitExists(n, 31);
      NextPow2Radix(n, k);
      TopBitBounds(n, k);
      j := k as nat + 1;
      forall i: nat | Value(n) < Pow2(i)
        ensures j <= i
      {
        if i < j {
          Pow2Monotone(i, k as nat);
        }
      }
    }
  }
}
