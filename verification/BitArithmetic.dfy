/** Bitwise operations and powers of two on natural numbers. */
module BitArithmetic {
  function Pow2(n: nat): (p: nat)
    ensures p > 0
  {
    if n == 0 then 1 else 2 * Pow2(n - 1)
  }

  function Quotient(m: nat, p: nat): nat
    requires p > 0
  {
    m / p
  }

  function ShiftRight(m: nat, k: nat): nat {
    Quotient(m, Pow2(k))
  }

  function And(a: nat, b: nat): nat {
    if a == 0 || b == 0 then 0 else (a % 2) * (b % 2) + 2 * And(a / 2, b / 2)
  }

  function BitLength(a: nat): nat {
    if a == 0 then 0 else 1 + BitLength(a / 2)
  }

  function CountLeadingZeros32(a: nat): int {
    32 - BitLength(a)
  }

  lemma SmallPowers()
    ensures Pow2(10) == 0x400 && Pow2(13) == 0x2000 && Pow2(16) == 0x1_0000 && Pow2(23) == 0x80_0000
  {
    assert Pow2(5) == 32;
    PowAdd(5, 5);
    PowAdd(10, 3);
    PowAdd(13, 3);
    PowAdd(13, 10);
  }

  lemma {:induction false} PowAdd(a: nat, b: nat)
    ensures Pow2(a + b) == Pow2(a) * Pow2(b)
  {
    if a > 0 {
      PowAdd(a - 1, b);
      PowStep(a);
      PowStep(a + b);
      DoubleFactor(Pow2(a - 1), Pow2(b), Pow2(a), Pow2(a + b - 1), Pow2(a + b));
    }
  }

  lemma PowStep(a: nat)
    requires a > 0
    ensures Pow2(a) == 2 * Pow2(a - 1)
  {
  }

  lemma DoubleFactor(p: int, q: int, r: int, pq: int, rq: int)
    requires r == 2 * p && pq == p * q && rq == 2 * pq
    ensures rq == r * q
  {
  }

  lemma {:induction false} PowMonotone(a: nat, b: nat)
    requires a <= b
    ensures Pow2(a) <= Pow2(b)
  {
    if a < b {
      PowMonotone(a, b - 1);
    }
  }

  lemma HalveMod(m: nat, p: nat)
    requires p > 0
    ensures m % (2 * p) == 2 * ((m / 2) % p) + m % 2
    ensures m / (2 * p) == (m / 2) / p
  {
    var q, r := (m / 2) / p, (m / 2) % p;
    assert m / 2 == p * q + r;
    assert 2 * (p * q) == (2 * p) * q;
    assert m == (2 * p) * q + (2 * r + m % 2);
    DivModUnique(m, 2 * p, q, 2 * r + m % 2);
  }

  lemma DivModUnique(m: int, d: nat, q: int, r: nat)
    requires r < d && m == d * q + r
    ensures m / d == q && m % d == r
  {
    var e := m / d - q;
    assert d * (m / d) == d * q + d * e;
    if e > 0 {
      MulAtLeast(d, e);
    } else if e < 0 {
      MulAtLeast(d, -e);
      Negate(d, -e);
    }
  }

  lemma Negate(d: int, e: int)
    ensures d * -e == -(d * e)
  {
  }

  lemma MulAtLeast(d: nat, e: nat)
    requires e > 0
    ensures d * e >= d
  {
    assert d * e == d * (e - 1) + d;
  }

  lemma ScaleOrder(a: nat, b: nat, k: nat)
    requires a < b && k > 0
    ensures a * k < b * k
  {
    MulAtLeast(k, b - a);
    DistributeSum(a, b - a, k);
  }

  lemma DistributeSum(a: int, b: int, k: int)
    ensures (a + b) * k == a * k + b * k
  {
  }

  lemma {:induction false} BitLengthBounds(a: nat, k: nat)
    requires a < Pow2(k)
    ensures BitLength(a) <= k
    ensures a > 0 ==> BitLength(a) > 0 && Pow2(BitLength(a) - 1) <= a < Pow2(BitLength(a))
  {
    if a > 0 {
      BitLengthBounds(a / 2, k - 1);
    }
  }

  /** A single-bit mask tests that bit. */
  lemma {:induction false} AndBit(m: nat, k: nat)
    ensures And(m, Pow2(k)) != 0 <==> (m / Pow2(k)) % 2 != 0
  {
    if k == 0 {
      assert And(m / 2, 0) == 0;
    } else if m > 0 {
      AndBit(m / 2, k - 1);
      HalveMod(m, Pow2(k - 1));
    } else {
      assert 0 / Pow2(k) == 0;
    }
  }

  /** The mask 3*2^k - 1 covers every bit below k, and bit k + 1, but not bit k. */
  lemma {:induction false} AndRoundMask(m: nat, k: nat)
    ensures And(m, 3 * Pow2(k) - 1) != 0 <==> m % Pow2(k) != 0 || (m / (2 * Pow2(k))) % 2 != 0
  {
    if k == 0 {
      AndTwo(m);
    } else {
      AndRoundMask(m / 2, k - 1);
      PowStep(k);
      AndOdd(m, 3 * Pow2(k - 1) - 1);
      hide Pow2, And;
      MaskStep(m, Pow2(k - 1), Pow2(k));
    }
  }

  lemma AndTwo(m: nat)
    ensures And(m, 3 * Pow2(0) - 1) != 0 <==> m % Pow2(0) != 0 || (m / (2 * Pow2(0))) % 2 != 0
  {
    assert And(m, 2) == if m == 0 then 0 else 2 * And(m / 2, 1);
    assert And(m / 2, 1) != 0 <==> (m / 2) % 2 != 0 by {
      assert And(m / 4, 0) == 0;
    }
  }

  lemma AndOdd(m: nat, mask: nat)
    ensures And(m, 2 * mask + 1) != 0 <==> m % 2 != 0 || And(m / 2, mask) != 0
  {
  }

  /** The test on m with the doubled mask, as the test on m / 2 and the bit shifted out. */
  lemma MaskStep(m: nat, p: nat, q: nat)
    requires p > 0 && q == 2 * p
    ensures 3 * q - 1 == 2 * (3 * p - 1) + 1
    ensures m % q != 0 || (m / (2 * q)) % 2 != 0 <==>
              m % 2 != 0 || (m / 2) % p != 0 || ((m / 2) / (2 * p)) % 2 != 0
  {
    HalveMod(m, p);
    HalveMod(m, 2 * p);
    RemainderSplit(m % q, (m / 2) % p, m % 2);
  }

  lemma RemainderSplit(whole: int, half: nat, bit: nat)
    requires whole == 2 * half + bit
    ensures whole != 0 <==> half != 0 || bit != 0
  {
  }
}
