/** singleToHalf and halfToSingle on bit patterns.  Every value is counted in units of 2^-149, the
    smallest binary32 subnormal, so that all of them are integers. */
module HalfFloat {
  import opened BitArithmetic

  type Bits32 = x: nat | x < 0x1_0000_0000
  type Bits16 = x: nat | x < 0x1_0000

  function SingleToHalf(bits: Bits32): nat {
    var halfSign := (bits / 0x8000_0000) * 0x8000;
    halfSign + HalfPattern((bits / 0x80_0000) % 0x100, bits % 0x80_0000)
  }

  /** The half without its sign, from the exponent and mantissa fields of the single. */
  function HalfPattern(exp: nat, mantissa: nat): nat {
    if exp == 0xff then
      if mantissa == 0 then 0x7c00 else WithQuietBit(0x7c00 + mantissa / 0x2000)
    else
      var halfExp: int := exp - 127 + 15;
      if halfExp >= 0x1f then
        0x7c00
      else if halfExp <= 0 then
        if 14 - halfExp > 24 then
          0
        else
          var full := mantissa + 0x80_0000;
          RoundedShift(full, ShiftRight(full, 14 - halfExp), 13 - halfExp)
      else
        RoundedShift(mantissa, halfExp * 0x400 + mantissa / 0x2000, 12)
  }

  /** value | 0x0200 */
  function WithQuietBit(value: nat): nat {
    if And(value, 0x200) != 0 then value else value + 0x200
  }

  /** Adds one to the shifted value when the round bit and one of the bits tested with it are set. */
  function RoundedShift(mantissa: nat, shifted: nat, roundBitIndex: nat): nat {
    var roundBit := Pow2(roundBitIndex);
    if And(mantissa, roundBit) != 0 && And(mantissa, 3 * roundBit - 1) != 0 then shifted + 1 else shifted
  }

  function HalfToSingle(value: Bits16): nat {
    if value % 0x8000 == 0 then
      value * 0x1_0000
    else
      var sign := (value / 0x8000) * 0x8000_0000;
      sign + SinglePattern((value / 0x400) % 0x20, value % 0x400)
  }

  /** The single without its sign, from the exponent and mantissa fields of the half. */
  function SinglePattern(halfExp: nat, halfMantissa: nat): nat
    requires halfMantissa < 0x400
  {
    if halfExp == 0x1f then
      0x7f80_0000 + halfMantissa * 0x2000
    else if halfExp == 0 then
      SmallPowers();
      BitLengthBounds(halfMantissa, 10);
      var leading := CountLeadingZeros32(halfMantissa) - 22;
      (112 - leading) * 0x80_0000 + (halfMantissa * Pow2(14 + leading)) % 0x80_0000
    else
      (halfExp + 112) * 0x80_0000 + halfMantissa * 0x2000
  }

  // ----- what the patterns mean

  predicate IsNan32(bits: Bits32) {
    (bits / 0x80_0000) % 0x100 == 0xff && bits % 0x80_0000 != 0
  }

  predicate IsNan16(value: Bits16) {
    value % 0x8000 > 0x7c00
  }

  /** Magnitude of a binary32 pattern without its sign; infinity counts as 2^128. */
  function Magnitude32(p: nat): nat {
    FieldMagnitude(p / 0x80_0000, p % 0x80_0000)
  }

  function FieldMagnitude(e: nat, m: nat): nat {
    if e == 0 then m else (m + 0x80_0000) * Pow2(e - 1)
  }

  /** Magnitude of a binary16 pattern in units of 2^-24; infinity counts as 2^16, the next value of
      an unbounded exponent range. */
  function Steps16(p: nat): nat {
    var e, m := p / 0x400, p % 0x400;
    if e == 0 then m else (0x400 + m) * Pow2(e - 1)
  }

  /** One binary16 step, 2^-24, in units of 2^-149. */
  const UNIT_EXPONENT: nat := 125

  function Magnitude16(p: nat): nat {
    Steps16(p) * Pow2(UNIT_EXPONENT)
  }

  const INFINITY16: nat := 0x7c00

  function Distance(x: nat, y: nat): nat {
    if x < y then y - x else x - y
  }

  /** roundTiesToEven: p is at least as near to x as every other pattern, and wins a tie only if
      its last bit is zero. */
  ghost predicate IsNearestEven(x: nat, p: nat) {
    p <= INFINITY16 &&
    forall q :: 0 <= q <= INFINITY16 && q != p ==>
      Distance(x, Magnitude16(p)) <= Distance(x, Magnitude16(q)) &&
      (Distance(x, Magnitude16(p)) == Distance(x, Magnitude16(q)) ==> p % 2 == 0)
  }

  // ----- order of the patterns

  lemma StepGrows(p: nat)
    ensures Steps16(p + 1) > Steps16(p)
    ensures p >= 0x400 ==> Steps16(p + 1) == Steps16(p) + Pow2(p / 0x400 - 1)
    ensures p < 0x400 ==> Steps16(p + 1) == Steps16(p) + 1
  {
    var e, m := p / 0x400, p % 0x400;
    if m < 0x3ff {
      assert (p + 1) / 0x400 == e && (p + 1) % 0x400 == m + 1;
      if e > 0 {
        Distribute(0x400 + m, Pow2(e - 1));
      }
    } else {
      assert (p + 1) / 0x400 == e + 1 && (p + 1) % 0x400 == 0;
      if e > 0 {
        assert Pow2(e) == 2 * Pow2(e - 1);
      }
    }
  }

  lemma Distribute(a: nat, p: nat)
    ensures (a + 1) * p == a * p + p
  {
  }

  lemma {:induction false} PatternsOrdered(p: nat, q: nat)
    requires p < q
    ensures Steps16(p) < Steps16(q)
    ensures Magnitude16(p) < Magnitude16(q)
    decreases q
  {
    StepGrows(q - 1);
    if p < q - 1 {
      PatternsOrdered(p, q - 1);
    }
    assert Steps16(p) + 1 <= Steps16(q);
    ScaleOrder(Steps16(p), Steps16(q), Pow2(UNIT_EXPONENT));
  }

  // ----- local criterion: compare with the midpoints to the two neighbours

  ghost predicate BelowUpperMidpoint(x: nat, p: nat) {
    p < INFINITY16 ==>
      var mid := Magnitude16(p) + Magnitude16(p + 1);
      2 * x < mid || (2 * x == mid && p % 2 == 0)
  }

  ghost predicate AboveLowerMidpoint(x: nat, p: nat) {
    p > 0 ==>
      var mid := Magnitude16(p - 1) + Magnitude16(p);
      2 * x > mid || (2 * x == mid && p % 2 == 0)
  }

  ghost predicate RoundsTo(x: nat, p: nat) {
    p <= INFINITY16 && BelowUpperMidpoint(x, p) && AboveLowerMidpoint(x, p)
  }

  lemma RoundsToIsNearest(x: nat, p: nat)
    requires RoundsTo(x, p)
    ensures IsNearestEven(x, p)
  {
    hide Magnitude16;
    forall q | 0 <= q <= INFINITY16 && q != p
      ensures Distance(x, Magnitude16(p)) <= Distance(x, Magnitude16(q))
      ensures Distance(x, Magnitude16(p)) == Distance(x, Magnitude16(q)) ==> p % 2 == 0
    {
      if q < p {
        PatternsOrdered(p - 1, p);
        if q < p - 1 {
          PatternsOrdered(q, p - 1);
        }
      } else {
        PatternsOrdered(p, p + 1);
        if p + 1 < q {
          PatternsOrdered(p + 1, q);
        }
      }
    }
  }

  /** Between two neighbours p and p + 1: h is half the gap. */
  lemma RoundBetween(x: nat, p: nat, h: nat, up: bool)
    requires p < INFINITY16
    requires Magnitude16(p + 1) == Magnitude16(p) + 2 * h
    requires Magnitude16(p) <= x < Magnitude16(p) + 2 * h
    requires up <==> x - Magnitude16(p) > h || (x - Magnitude16(p) == h && p % 2 == 1)
    ensures RoundsTo(x, if up then p + 1 else p)
  {
    hide Magnitude16, Steps16, Pow2;
    if up {
      if p + 1 < INFINITY16 {
        PatternsOrdered(p + 1, p + 2);
      }
    } else if p > 0 {
      PatternsOrdered(p - 1, p);
    }
  }

  // ----- singleToHalf is correctly rounded

  /** The two bit tests of the code, as quotients and remainders. */
  lemma RoundedShiftTests(m: nat, k: nat, shifted: nat)
    ensures var p := Pow2(k);
            RoundedShift(m, shifted, k)
            == if (m / p) % 2 != 0 && (m % p != 0 || (m / (2 * p)) % 2 != 0) then shifted + 1 else shifted
  {
    hide Pow2, And;
    AndBit(m, k);
    AndRoundMask(m, k);
  }

  /** With m = 2p*a + r the quotients and remainders are those of r. */
  lemma TestsOfRemainder(m: nat, p: nat, a: nat, r: nat)
    requires p > 0 && r < 2 * p && m == (2 * p) * a + r
    ensures (m / p) % 2 == (if r >= p then 1 else 0) && m % p == (if r >= p then r - p else r) && m / (2 * p) == a
  {
    DivModUnique(m, 2 * p, a, r);
    Doubled(p, a);
    if r >= p {
      DivModUnique(m, p, 2 * a + 1, r - p);
    } else {
      DivModUnique(m, p, 2 * a, r);
    }
  }

  lemma Doubled(p: nat, a: nat)
    ensures p * (2 * a) == (2 * p) * a && p * (2 * a + 1) == (2 * p) * a + p
  {
  }

  /** The rounding test of the code, read as arithmetic: d = 2^(k+1) is one unit of the result. */
  lemma RoundedShiftMeaning(m: nat, k: nat, shifted: nat, d: nat, a: nat, r: nat)
    requires d == 2 * Pow2(k) && r < d && m == d * a + r
    ensures var up := 2 * r > d || (2 * r == d && a % 2 == 1);
            RoundedShift(m, shifted, k) == if up then shifted + 1 else shifted
  {
    hide Pow2, RoundedShift;
    RoundedShiftTests(m, k, shifted);
    TestsOfRemainder(m, Pow2(k), a, r);
  }

  lemma Commute(a: int, b: int)
    ensures a * b == b * a
  {
  }

  /** Pattern p stands for d*a and the next one for d*(a + 1), both scaled by w. */
  ghost predicate IsGrid(p: nat, d: nat, a: nat, w: nat) {
    Magnitude16(p) == (d * a) * w && Magnitude16(p + 1) == Magnitude16(p) + d * w
  }

  /** A significand `full` = d*a + r (d = 2^(k+1)) scaled by w rounds as r rounds in d. */
  lemma RoundScaled(full: nat, k: nat, w: nat, p: nat, d: nat, a: nat, r: nat)
    requires w > 0 && p < INFINITY16
    requires d == 2 * Pow2(k) && r < d && full == d * a + r
    requires IsGrid(p, d, a, w) && a % 2 == p % 2
    ensures RoundsTo(full * w, RoundedShift(full, p, k))
  {
    hide Magnitude16, Pow2, RoundedShift, RoundsTo;
    var h := Pow2(k);
    DistributeSum(d * a, r, w);
    RoundedShiftMeaning(full, k, p, d, a, r);
    ScaleOrder(r, d, w);
    Associate(2, h, w);
    if r > h {
      ScaleOrder(h, r, w);
    } else if r < h {
      ScaleOrder(r, h, w);
    }
    RoundBetween(full * w, p, h * w, r > h || (r == h && p % 2 == 1));
  }

  /** Results in the subnormal range of binary16. */
  lemma SubnormalRounds(e: nat, m: nat)
    requires 102 <= e <= 112 && m < 0x80_0000
    ensures RoundsTo((m + 0x80_0000) * Pow2(e - 1),
                     RoundedShift(m + 0x80_0000, ShiftRight(m + 0x80_0000, 126 - e), 125 - e))
  {
    var full, k, w := m + 0x80_0000, 125 - e, Pow2(e - 1);
    var d := 2 * Pow2(k);
    assert Pow2(126 - e) == d;
    hide Pow2, RoundedShift, RoundsTo, Steps16;
    SmallPowers();
    var p, r := DivMod(full, d);
    PowAdd(126 - e, e - 1);
    PowMonotone(14, 126 - e);
    FourteenthPower();
    QuotientSmall(full, d, p, r);
    SubnormalGrid(p, d, w);
    Commute(d, p);
    RoundScaled(full, k, w, p, d, p, r);
  }

  lemma FourteenthPower()
    ensures Pow2(14) == 0x4000
  {
    assert Pow2(7) == 0x80;
    PowAdd(7, 7);
  }

  /** Below 0x400 a pattern is its own number of steps. */
  lemma SubnormalGrid(p: nat, d: nat, w: nat)
    requires p < 0x400 && d * w == Pow2(UNIT_EXPONENT)
    ensures IsGrid(p, d, p, w)
  {
    hide Pow2;
    StepGrows(p);
    assert Steps16(p) == p && Steps16(p + 1) == p + 1;
    Commute(d, p);
    Associate(p, d, w);
    DistributeSum(p, 1, d * w);
  }

  lemma DivMod(m: nat, d: nat) returns (q: nat, r: nat)
    requires d > 0
    ensures m == d * q + r && r < d && q == m / d
  {
    q, r := m / d, m % d;
  }

  lemma QuotientSmall(full: nat, d: nat, p: nat, r: nat)
    requires full == d * p + r && full < 0x100_0000 && d >= 0x4000
    ensures p < 0x400
  {
    if p >= 0x400 {
      LeftFactor(0x4000, d, p);
    }
  }

  lemma Associate(a: int, b: int, c: int)
    ensures (a * b) * c == a * (b * c)
  {
  }

  lemma LeftFactor(a: nat, b: nat, d: nat)
    requires a <= b
    ensures a * d <= b * d
  {
    if a < b && d > 0 {
      ScaleOrder(a, b, d);
    }
  }

  /** The rounding test looks at the low fourteen bits, which the hidden bit does not touch. */
  lemma HiddenBitIgnored(m: nat, p: nat, q: nat, r: nat, k: nat)
    requires q < 0x400 && r < 0x2000 && m == 0x2000 * q + r && Pow2(k) == 0x1000
    ensures RoundedShift(m + 0x80_0000, p, k) == RoundedShift(m, p, k)
  {
    RoundedShiftMeaning(m + 0x80_0000, k, p, 0x2000, 0x400 + q, r);
    RoundedShiftMeaning(m, k, p, 0x2000, q, r);
  }

  /** Results in the normal range of binary16; the round bit stands for 0x1000. */
  lemma NormalRounds(m: nat, w: nat, p: nat, q: nat, r: nat, k: nat)
    requires w > 0 && p < INFINITY16 && IsGrid(p, 0x2000, 0x400 + q, w) && q % 2 == p % 2
    requires q < 0x400 && r < 0x2000 && m == 0x2000 * q + r && Pow2(k) == 0x1000
    ensures RoundsTo((m + 0x80_0000) * w, RoundedShift(m, p, k))
  {
    HiddenBitIgnored(m, p, q, r, k);
    RoundScaled(m + 0x80_0000, k, w, p, 0x2000, 0x400 + q, r);
  }

  lemma NormalSteps(e: nat, q: nat)
    requires 113 <= e <= 142 && q < 0x400
    ensures var p := (e - 112) * 0x400 + q;
            Steps16(p) == (0x400 + q) * Pow2(e - 113) && Steps16(p + 1) == Steps16(p) + Pow2(e - 113)
  {
    hide Pow2;
    var p := (e - 112) * 0x400 + q;
    assert p / 0x400 == e - 112 && p % 0x400 == q;
    StepGrows(p);
  }

  /** A gap of v, in steps of u, is 0x2000 times w. */
  lemma GridScale(steps: nat, next: nat, a: nat, v: nat, u: nat, w: nat)
    requires steps == a * v && next == steps + v && v * u == 0x2000 * w
    ensures steps * u == (0x2000 * a) * w && next * u == steps * u + 0x2000 * w
  {
    Associate(a, v, u);
    Associate(a, 0x2000, w);
    DistributeSum(steps, v, u);
  }

  /** The binary16 value with exponent e - 112 and mantissa q, and the gap above it. */
  lemma NormalGap(e: nat, q: nat)
    requires 113 <= e <= 142 && q < 0x400
    ensures IsGrid(NormalIndex(e, q), 0x2000, 0x400 + q, Pow2(e - 1))
  {
    hide Pow2, Steps16;
    SmallPowers();
    var p := (e - 112) * 0x400 + q;
    PowAdd(13, e - 1);
    PowAdd(e - 113, UNIT_EXPONENT);
    NormalSteps(e, q);
    GridScale(Steps16(p), Steps16(p + 1), 0x400 + q, Pow2(e - 113), Pow2(UNIT_EXPONENT), Pow2(e - 1));
  }

  /** Too small for the least subnormal: below half a step. */
  lemma UnderflowRounds(x: nat)
    requires x < Pow2(124)
    ensures RoundsTo(x, 0)
  {
    assert Pow2(UNIT_EXPONENT) == 2 * Pow2(124);
    assert Steps16(0) == 0 && Steps16(1) == 1;
  }

  /** At 2^16 and beyond. */
  lemma OverflowRounds(x: nat)
    requires Magnitude16(INFINITY16) <= x
    ensures RoundsTo(x, INFINITY16)
  {
    PatternsOrdered(INFINITY16 - 1, INFINITY16);
  }

  lemma HalfPatternRounds(e: nat, m: nat)
    requires m < 0x80_0000 && e <= 0xff && (e == 0xff ==> m == 0)
    ensures RoundsTo(FieldMagnitude(e, m), HalfPattern(e, m))
  {
    if e >= 143 {
      LargeMagnitude(e, m);
      OverflowRounds(FieldMagnitude(e, m));
    } else if e < 102 {
      SmallMagnitude(e, m);
      UnderflowRounds(FieldMagnitude(e, m));
    } else if e <= 112 {
      SubnormalRounds(e, m);
    } else {
      NormalPatternRounds(e, m);
    }
  }

  lemma NormalPatternRounds(e: nat, m: nat)
    requires 113 <= e <= 142 && m < 0x80_0000
    ensures RoundsTo(FieldMagnitude(e, m), HalfPattern(e, m))
  {
    hide *;
    var k := 12;
    var q, r := DivMod(m, 0x2000);
    NormalPattern(e, m, k, q);
    TwelfthBit(k);
    NormalGap(e, q);
    NormalRounds(m, Pow2(e - 1), NormalIndex(e, q), q, r, k);
  }

  /** The binary16 pattern with exponent e - 112 and mantissa q. */
  function NormalIndex(e: nat, q: nat): (p: nat)
    requires 113 <= e <= 142 && q < 0x400
    ensures p < INFINITY16 && p % 2 == q % 2
  {
    (e - 112) * 0x400 + q
  }

  lemma NormalPattern(e: nat, m: nat, k: nat, q: nat)
    requires 113 <= e <= 142 && m < 0x80_0000 && k == 12 && q == m / 0x2000
    ensures q < 0x400 && HalfPattern(e, m) == RoundedShift(m, NormalIndex(e, q), k)
    ensures FieldMagnitude(e, m) == (m + 0x80_0000) * Pow2(e - 1)
  {
    hide RoundedShift, Pow2;
  }

  lemma TwelfthBit(k: nat)
    requires k == 12
    ensures Pow2(k) == 0x1000
  {
  }

  lemma JoinFields(s: nat, d: nat, r: nat)
    requires r < d
    ensures (s * d + r) / d == s && (s * d + r) % d == r
  {
    Commute(s, d);
    DivModUnique(s * d + r, d, s, r);
  }

  lemma SplitSingle(bits: Bits32)
    ensures (bits % 0x8000_0000) / 0x80_0000 == (bits / 0x80_0000) % 0x100 <= 0xff
    ensures (bits % 0x8000_0000) % 0x80_0000 == bits % 0x80_0000
  {
  }

  /** The sign is kept and the magnitude rounded, for every input that is not a NaN. */
  lemma SingleToHalfRounds(bits: Bits32)
    requires !IsNan32(bits)
    ensures SingleToHalf(bits) / 0x8000 == bits / 0x8000_0000
    ensures RoundsTo(Magnitude32(bits % 0x8000_0000), SingleToHalf(bits) % 0x8000)
  {
    SplitSingle(bits);
    var e, m := (bits / 0x80_0000) % 0x100, bits % 0x80_0000;
    HalfPatternRounds(e, m);
    JoinFields(bits / 0x8000_0000, 0x8000, HalfPattern(e, m));
  }

  lemma LargeMagnitude(e: nat, m: nat)
    requires e >= 143
    ensures FieldMagnitude(e, m) >= Magnitude16(INFINITY16)
  {
    SmallPowers();
    InfinityMagnitude();
    hide Pow2, Magnitude16;
    PowMonotone(165, 23 + (e - 1));
    PowAdd(23, e - 1);
    LeftFactor(0x80_0000, m + 0x80_0000, Pow2(e - 1));
  }

  lemma InfinityMagnitude()
    ensures Magnitude16(INFINITY16) == Pow2(165)
  {
    SmallPowers();
    PowAdd(10, 30);
    PowAdd(40, UNIT_EXPONENT);
  }

  lemma SmallMagnitude(e: nat, m: nat)
    requires e < 102 && m < 0x80_0000
    ensures FieldMagnitude(e, m) < Pow2(124)
  {
    SmallPowers();
    if e == 0 {
      PowMonotone(23, 124);
    } else {
      ScaleOrder(m + 0x80_0000, 0x100_0000, Pow2(e - 1));
      assert Pow2(24) == 0x100_0000;
      PowAdd(24, e - 1);
      PowMonotone(24 + (e - 1), 124);
    }
  }

  /** singleToHalf is IEEE 754 roundTiesToEven: a nearest binary16 value, ties to the even
      mantissa, overflow to infinity, the sign kept. */
  lemma SingleToHalfIsCorrectlyRounded(bits: Bits32)
    requires !IsNan32(bits)
    ensures SingleToHalf(bits) / 0x8000 == bits / 0x8000_0000
    ensures IsNearestEven(Magnitude32(bits % 0x8000_0000), SingleToHalf(bits) % 0x8000)
  {
    SingleToHalfRounds(bits);
    RoundsToIsNearest(Magnitude32(bits % 0x8000_0000), SingleToHalf(bits) % 0x8000);
  }

  /** A value that is a binary16 value already rounds to itself only. */
  lemma ExactRoundsToItself(p: nat, r: nat)
    requires p <= INFINITY16 && RoundsTo(Magnitude16(p), r)
    ensures r == p
  {
    if r < p {
      PatternsOrdered(r, r + 1);
      if r + 1 < p {
        PatternsOrdered(r + 1, p);
      }
    } else if p < r {
      PatternsOrdered(r - 1, r);
      if p < r - 1 {
        PatternsOrdered(p, r - 1);
      }
    }
  }

  lemma RoundingIsMonotone(x: nat, y: nat, p: nat, q: nat)
    requires x <= y && RoundsTo(x, p) && RoundsTo(y, q)
    ensures p <= q
  {
    hide Magnitude16;
    if q < p {
      PatternsOrdered(q, q + 1);
      PatternsOrdered(p - 1, p);
      if q < p - 1 {
        PatternsOrdered(q, p - 1);
        PatternsOrdered(q + 1, p);
      }
    }
  }

  function Signed(negative: bool, magnitude: int): int {
    if negative then -magnitude else magnitude
  }

  function Value32(bits: Bits32): int {
    Signed(bits >= 0x8000_0000, Magnitude32(bits % 0x8000_0000))
  }

  function Value16(value: Bits16): int {
    Signed(value >= 0x8000, Magnitude16(value % 0x8000))
  }

  lemma BelowTwice(v: nat, d: nat, s: nat)
    requires d > 0 && v / d == s <= 1
    ensures v < 2 * d
  {
    var q, r := DivMod(v, d);
  }

  lemma SingleToHalfFits(bits: Bits32)
    ensures SingleToHalf(bits) < 0x1_0000
  {
    if IsNan32(bits) {
      NanStaysNan(bits);
    } else {
      SingleToHalfRounds(bits);
      BelowTwice(SingleToHalf(bits), 0x8000, bits / 0x8000_0000);
    }
  }

  /** Larger floats never convert to smaller halves. */
  lemma SingleToHalfIsMonotone(a: Bits32, b: Bits32)
    requires !IsNan32(a) && !IsNan32(b) && Value32(a) <= Value32(b)
    ensures SingleToHalf(a) < 0x1_0000 && SingleToHalf(b) < 0x1_0000
    ensures Value16(SingleToHalf(a)) <= Value16(SingleToHalf(b))
  {
    SingleToHalfFits(a);
    SingleToHalfFits(b);
    SingleToHalfRounds(a);
    SingleToHalfRounds(b);
    SignedMonotone(sign1 := a / 0x8000_0000, sign2 := b / 0x8000_0000,
                   x := Magnitude32(a % 0x8000_0000), y := Magnitude32(b % 0x8000_0000),
                   p := SingleToHalf(a) % 0x8000, q := SingleToHalf(b) % 0x8000);
    SignOf(a, SingleToHalf(a));
    SignOf(b, SingleToHalf(b));
  }

  lemma SignOf(bits: Bits32, half: Bits16)
    requires half / 0x8000 == bits / 0x8000_0000
    ensures bits >= 0x8000_0000 <==> bits / 0x8000_0000 == 1
    ensures half >= 0x8000 <==> bits / 0x8000_0000 == 1
  {
  }

  lemma SignedMonotone(sign1: nat, sign2: nat, x: nat, y: nat, p: nat, q: nat)
    requires Signed(sign1 == 1, x) <= Signed(sign2 == 1, y)
    requires RoundsTo(x, p) && RoundsTo(y, q)
    ensures Signed(sign1 == 1, Magnitude16(p)) <= Signed(sign2 == 1, Magnitude16(q))
  {
    hide Pow2, Steps16, RoundsTo;
    if sign1 == 1 && sign2 == 1 {
      RoundingIsMonotone(y, x, q, p);
      MagnitudesOrdered(q, p);
    } else if sign1 != 1 && sign2 != 1 {
      RoundingIsMonotone(x, y, p, q);
      MagnitudesOrdered(p, q);
    } else if sign1 != 1 {
      // the first is not negative and the second is: both are zero
      NoSteps();
      ExactRoundsToItself(0, p);
      ExactRoundsToItself(0, q);
    }
  }

  lemma NoSteps()
    ensures Magnitude16(0) == 0
  {
  }

  lemma MagnitudesOrdered(p: nat, q: nat)
    requires p <= q
    ensures Magnitude16(p) <= Magnitude16(q)
  {
    if p < q {
      PatternsOrdered(p, q);
    }
  }

  /** A NaN converts to a quiet NaN of the same sign. */
  lemma NanStaysNan(bits: Bits32)
    requires IsNan32(bits)
    ensures SingleToHalf(bits) < 0x1_0000 && IsNan16(SingleToHalf(bits))
    ensures SingleToHalf(bits) / 0x8000 == bits / 0x8000_0000
    ensures (SingleToHalf(bits) / 0x200) % 2 == 1
  {
    var v := 0x7c00 + (bits % 0x80_0000) / 0x2000;
    QuietBit(v);
    var s := bits / 0x8000_0000;
    JoinFields(s, 0x8000, WithQuietBit(v));
    QuietFields(s, v);
  }

  lemma QuietFields(s: nat, v: nat)
    requires s <= 1 && 0x7c00 <= v < 0x8000
    ensures var r := s * 0x8000 + (if (v / 0x200) % 2 == 1 then v else v + 0x200);
            r < 0x1_0000 && r % 0x8000 > 0x7c00 && (r / 0x200) % 2 == 1
  {
  }

  lemma QuietBit(v: nat)
    ensures WithQuietBit(v) == if (v / 0x200) % 2 == 1 then v else v + 0x200
  {
    assert Pow2(9) == 0x200;
    AndBit(v, 9);
  }

  // ----- halfToSingle is exact

  lemma SinglePatternIsExact(e: nat, m: nat)
    requires m < 0x400 && e < 0x1f && (e != 0 || m != 0)
    ensures SinglePattern(e, m) < 0x7f80_0000
    ensures Magnitude32(SinglePattern(e, m)) == Magnitude16(e * 0x400 + m)
  {
    JoinFields(e, 0x400, m);
    if e == 0 {
      SubnormalPattern(m);
    } else {
      NormalSingle(e, m);
      hide *;
      SmallPowers();
      PowAdd(13, e + 111);
      PowAdd(e - 1, UNIT_EXPONENT);
      Widen(0x400 + m, Pow2(e - 1), Pow2(UNIT_EXPONENT), Pow2(e + 111));
    }
  }

  /** The fields of the single made from a normal half. */
  lemma NormalSingle(e: nat, m: nat)
    requires m < 0x400 && 0 < e < 0x1f
    ensures SinglePattern(e, m) < 0x7f80_0000
    ensures Magnitude32(SinglePattern(e, m)) == (m * 0x2000 + 0x80_0000) * Pow2(e + 111)
    ensures Magnitude16(e * 0x400 + m) == ((0x400 + m) * Pow2(e - 1)) * Pow2(UNIT_EXPONENT)
  {
    hide Pow2;
    JoinFields(e, 0x400, m);
    JoinFields(e + 112, 0x80_0000, m * 0x2000);
  }

  lemma Widen(a: nat, v: nat, u: nat, w: nat)
    requires v * u == 0x2000 * w
    ensures (a * 0x2000) * w == (a * v) * u
  {
    Associate(a, 0x2000, w);
    Associate(a, v, u);
  }

  lemma SubnormalPattern(m: nat)
    requires 0 < m < 0x400
    ensures SinglePattern(0, m) < 0x7f80_0000
    ensures Magnitude32(SinglePattern(0, m)) == Magnitude16(m)
  {
    hide Pow2;
    SmallPowers();
    BitLengthBounds(m, 10);
    var len := BitLength(m);
    LeadingOne(m, len, 24 - len);
    SubnormalSingle(m, len, m * Pow2(24 - len));
    hide *;
    PowAdd(24 - len, 101 + len);
    Associate(m, Pow2(24 - len), Pow2(101 + len));
  }

  /** The fields of the single made from a subnormal half: `shifted` has its leading one at bit 23. */
  lemma SubnormalSingle(m: nat, len: nat, shifted: nat)
    requires 0 < m < 0x400 && len == BitLength(m) && 1 <= len <= 10
    requires shifted == m * Pow2(24 - len) && 0x80_0000 <= shifted < 0x100_0000
    ensures SinglePattern(0, m) < 0x7f80_0000
    ensures Magnitude32(SinglePattern(0, m)) == shifted * Pow2(101 + len)
    ensures Magnitude16(m) == m * Pow2(UNIT_EXPONENT)
  {
    SubnormalSingleIs(m, len, shifted);
    hide Pow2, SinglePattern, BitLength;
    JoinFields(102 + len, 0x80_0000, shifted - 0x80_0000);
  }

  lemma SubnormalSingleIs(m: nat, len: nat, shifted: nat)
    requires 0 < m < 0x400 && len == BitLength(m) && 1 <= len <= 10
    requires shifted == m * Pow2(24 - len) && 0x80_0000 <= shifted < 0x100_0000
    ensures SinglePattern(0, m) == (102 + len) * 0x80_0000 + (shifted - 0x80_0000)
  {
    hide Pow2, BitLength;
    JoinFields(1, 0x80_0000, shifted - 0x80_0000);
  }

  lemma LeadingOne(m: nat, len: nat, k: nat)
    requires len > 0 && Pow2(len - 1) <= m < Pow2(len) && len + k == 24
    ensures 0x80_0000 <= m * Pow2(k) < 0x100_0000
  {
    SmallPowers();
    assert Pow2(24) == 2 * Pow2(23);
    PowAdd(len, k);
    PowAdd(len - 1, k);
    ScaleOrder(m, Pow2(len), Pow2(k));
    LeftFactor(Pow2(len - 1), m, Pow2(k));
  }

  lemma HalfToSingleFields(value: Bits16)
    requires value % 0x8000 < INFINITY16
    ensures HalfToSingle(value) / 0x8000_0000 == value / 0x8000
    ensures HalfToSingle(value) % 0x8000_0000 < 0x7f80_0000
    ensures Magnitude32(HalfToSingle(value) % 0x8000_0000) == Magnitude16(value % 0x8000)
  {
    var p := value % 0x8000;
    if p != 0 {
      var e, m := (value / 0x400) % 0x20, value % 0x400;
      SplitHalf(value);
      SinglePatternIsExact(e, m);
      JoinFields(value / 0x8000, 0x8000_0000, SinglePattern(e, m));
    } else {
      JoinFields(value / 0x8000, 0x8000_0000, 0);
    }
  }

  /** halfToSingle loses nothing on finite values, subnormals included. */
  lemma HalfToSingleIsExact(value: Bits16)
    requires value % 0x8000 < INFINITY16
    ensures HalfToSingle(value) < 0x1_0000_0000 && !IsNan32(HalfToSingle(value))
    ensures HalfToSingle(value) / 0x8000_0000 == value / 0x8000
    ensures Value32(HalfToSingle(value)) == Value16(value)
  {
    HalfToSingleFields(value);
    var single := HalfToSingle(value);
    BelowTwice(single, 0x8000_0000, value / 0x8000);
    SplitSingle(single);
    SignOf(single, value);
  }

  lemma SplitHalf(value: Bits16)
    ensures ((value / 0x400) % 0x20) * 0x400 + value % 0x400 == value % 0x8000
  {
  }

  /** Converting up and back gives the half back; a NaN comes back quiet. */
  lemma RoundTrip(value: Bits16)
    ensures HalfToSingle(value) < 0x1_0000_0000
    ensures SingleToHalf(HalfToSingle(value)) == if IsNan16(value) then WithQuietBit(value) else value
  {
    var p := value % 0x8000;
    if p >= INFINITY16 {
      SpecialRoundTrip(value);
    } else {
      HalfToSingleIsExact(value);
      HalfToSingleFields(value);
      SingleToHalfRounds(HalfToSingle(value));
      ExactRoundsToItself(p, SingleToHalf(HalfToSingle(value)) % 0x8000);
    }
  }

  lemma SpecialRoundTrip(value: Bits16)
    requires value % 0x8000 >= INFINITY16
    ensures HalfToSingle(value) < 0x1_0000_0000
    ensures SingleToHalf(HalfToSingle(value)) == if IsNan16(value) then WithQuietBit(value) else value
  {
    hide *;
    var s, m := value / 0x8000, value % 0x400;
    SpecialToSingle(value);
    SpecialToHalf(s, m);
    SpecialIsNan(value);
  }

  lemma SpecialFields(value: Bits16)
    requires value % 0x8000 >= INFINITY16
    ensures (value / 0x400) % 0x20 == 0x1f
    ensures value == (value / 0x8000) * 0x8000 + 0x7c00 + value % 0x400
  {
  }

  lemma SpecialIsNan(value: Bits16)
    requires value % 0x8000 >= INFINITY16
    ensures var m := value % 0x400;
            (if IsNan16(value) then WithQuietBit(value) else value)
            == (value / 0x8000) * 0x8000 + if m == 0 || ((0x7c00 + m) / 0x200) % 2 == 1 then 0x7c00 + m else 0x7c00 + m + 0x200
  {
    SpecialFields(value);
    QuietBit(value);
    QuietPosition(value / 0x8000, 0x7c00 + value % 0x400);
  }

  lemma QuietPosition(s: nat, v: nat)
    ensures ((s * 0x8000 + v) / 0x200) % 2 == (v / 0x200) % 2
  {
    assert (s * 0x8000 + v) / 0x200 == s * 0x40 + v / 0x200;
  }

  lemma SpecialToSingle(value: Bits16)
    requires value % 0x8000 >= INFINITY16
    ensures HalfToSingle(value) == (value / 0x8000) * 0x8000_0000 + (0x7f80_0000 + (value % 0x400) * 0x2000)
    ensures HalfToSingle(value) < 0x1_0000_0000
  {
    SpecialFields(value);
  }

  lemma SpecialToHalf(s: nat, m: nat)
    requires s <= 1 && m < 0x400
    ensures var v := 0x7c00 + m;
            SingleToHalf(s * 0x8000_0000 + (0x7f80_0000 + m * 0x2000))
            == s * 0x8000 + if m == 0 || (v / 0x200) % 2 == 1 then v else v + 0x200
  {
    JoinFields(s, 0x8000_0000, 0x7f80_0000 + m * 0x2000);
    JoinFields(s * 0x100 + 0xff, 0x80_0000, m * 0x2000);
    QuietBit(0x7c00 + m);
  }
}
