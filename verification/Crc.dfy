/** Polynomials over GF(2): a register holds the coefficients of x^0..x^15 of a remainder modulo
    the generator x^16 + x^12 + x^5 + 1. */
module CrcPolynomial {
  type Register = r: seq<bool> | |r| == 16 witness seq(16, _ => false)

  function Zero(): Register {
    seq(16, _ => false)
  }

  /** One step of polynomial division: multiply by x, add one message bit, and subtract the
      generator when the leading coefficient comes out. */
  function BitStep(r: Register, bit: bool): (s: Register)
    ensures forall i :: 0 <= i < 16 ==>
              s[i] == ((i > 0 && r[i - 1]) != ((r[15] != bit) && (i == 0 || i == 5 || i == 12)))
  {
    var t := r[15] != bit;
    seq(16, i requires 0 <= i < 16 => (i > 0 && r[i - 1]) != (t && (i == 0 || i == 5 || i == 12)))
  }

  /** The remainder after a message of bits. */
  function CrcBits(r: Register, bits: seq<bool>): Register {
    if |bits| == 0 then r else BitStep(CrcBits(r, bits[..|bits| - 1]), bits[|bits| - 1])
  }

  function Xor(x: seq<bool>, y: seq<bool>): (z: seq<bool>)
    requires |x| == |y|
    ensures |z| == |x| && forall i :: 0 <= i < |x| ==> z[i] == (x[i] != y[i])
  {
    seq(|x|, i requires 0 <= i < |x| => x[i] != y[i])
  }

  lemma {:induction false} CrcBitsAppend(r: Register, x: seq<bool>, y: seq<bool>)
    ensures CrcBits(r, x + y) == CrcBits(CrcBits(r, x), y)
  {
    if |y| == 0 {
      assert x + y == x;
    } else {
      CrcBitsAppend(r, x, y[..|y| - 1]);
      assert (x + y)[..|x + y| - 1] == x + y[..|y| - 1];
    }
  }

  lemma StepLinear(c: Register, d: Register, p: bool, q: bool)
    ensures BitStep(Xor(c, d), p != q) == Xor(BitStep(c, p), BitStep(d, q))
  {
  }

  /** The remainder is linear over exclusive or. */
  lemma {:induction false} CrcLinear(c: Register, d: Register, x: seq<bool>, y: seq<bool>)
    requires |x| == |y|
    ensures CrcBits(Xor(c, d), Xor(x, y)) == Xor(CrcBits(c, x), CrcBits(d, y))
  {
    if |x| > 0 {
      var n := |x| - 1;
      CrcLinear(c, d, x[..n], y[..n]);
      assert Xor(x, y)[..n] == Xor(x[..n], y[..n]);
      StepLinear(CrcBits(c, x[..n]), CrcBits(d, y[..n]), x[n], y[n]);
    }
  }

  // ----- bursts

  ghost predicate AllZero(bits: seq<bool>) {
    forall i :: 0 <= i < |bits| ==> !bits[i]
  }

  lemma {:induction false} ZerosFromZero(bits: seq<bool>)
    requires AllZero(bits)
    ensures CrcBits(Zero(), bits) == Zero()
  {
    if |bits| > 0 {
      ZerosFromZero(bits[..|bits| - 1]);
    }
  }

  /** The generator has a constant term, so a zero bit never turns a nonzero remainder to zero. */
  lemma StepKeepsNonzero(r: Register)
    requires !AllZero(r)
    ensures !AllZero(BitStep(r, false))
  {
    var i :| 0 <= i < 16 && r[i];
    var s := BitStep(r, false);
    if i == 15 {
      assert s[0];
    } else if !r[15] {
      assert s[i + 1];
    } else {
      assert s[0];
    }
  }

  lemma {:induction false} ZerosKeepNonzero(r: Register, bits: seq<bool>)
    requires !AllZero(r) && AllZero(bits)
    ensures !AllZero(CrcBits(r, bits))
  {
    if |bits| > 0 {
      var n := |bits| - 1;
      ZerosKeepNonzero(r, bits[..n]);
      StepKeepsNonzero(CrcBits(r, bits[..n]));
    }
  }

  /** Up to sixteen bits that are not all zero leave a nonzero remainder: the last feedback into
      the register is still visible among its low coefficients. */
  lemma {:induction false} BurstLeavesTrace(bits: seq<bool>)
    requires |bits| <= 16
    ensures if AllZero(bits) then CrcBits(Zero(), bits) == Zero()
            else exists i :: 0 <= i < |bits| && CrcBits(Zero(), bits)[i]
  {
    if |bits| > 0 {
      var n := |bits| - 1;
      BurstLeavesTrace(bits[..n]);
      var r := CrcBits(Zero(), bits[..n]);
      var s := CrcBits(Zero(), bits);
      assert s == BitStep(r, bits[n]);
      if AllZero(bits[..n]) {
        assert bits[n] ==> s[0];
        assert !bits[n] ==> AllZero(bits);
      } else {
        var i :| 0 <= i < n && r[i];
        if r[15] != bits[n] {
          assert s[0];
        } else {
          assert s[i + 1];
        }
      }
    }
  }

  /** x and y differ, and only inside sixteen bits starting at `start`. */
  ghost predicate DifferByBurst(x: seq<bool>, y: seq<bool>, start: nat) {
    |x| == |y| && x != y && forall i :: 0 <= i < |x| && x[i] != y[i] ==> start <= i < start + 16
  }

  lemma ZeroSlice(d: seq<bool>, from: nat, to: nat)
    requires from <= to <= |d| && forall i :: from <= i < to ==> !d[i]
    ensures AllZero(d[from..to])
  {
  }

  /** The difference of such messages: zeros, a nonzero burst, zeros. */
  lemma SplitBurst(x: seq<bool>, y: seq<bool>, start: nat) returns (before: seq<bool>, burst: seq<bool>, after: seq<bool>)
    requires DifferByBurst(x, y, start)
    ensures Xor(x, y) == before + burst + after
    ensures AllZero(before) && |burst| <= 16 && !AllZero(burst) && AllZero(after)
  {
    var d := Xor(x, y);
    var k :| 0 <= k < |x| && x[k] != y[k];
    var stop := if start + 16 < |x| then start + 16 else |x|;
    ZeroSlice(d, 0, start);
    ZeroSlice(d, stop, |d|);
    assert d[k];
    hide Xor, AllZero;
    before, burst, after := d[0..start], d[start..stop], d[stop..|d|];
    ThreeSlices(d, start, stop);
    TrueInSlice(d, start, stop, k);
  }

  lemma ThreeSlices(d: seq<bool>, i: nat, j: nat)
    requires i <= j <= |d|
    ensures d == d[0..i] + d[i..j] + d[j..|d|]
  {
  }

  lemma TrueInSlice(d: seq<bool>, i: nat, j: nat, k: nat)
    requires i <= k < j <= |d| && d[k]
    ensures !AllZero(d[i..j])
  {
    assert d[i..j][k - i];
  }

  /** Equal-length messages that differ by a burst of at most sixteen bits have different CRCs. */
  lemma BurstDetected(r: Register, x: seq<bool>, y: seq<bool>, start: nat)
    requires DifferByBurst(x, y, start)
    ensures CrcBits(r, x) != CrcBits(r, y)
  {
    hide *;
    var before, burst, after := SplitBurst(x, y, start);
    BurstAmongZeros(before, burst, after);
    SameLength(x, y, start);
    DifferenceShows(r, x, y);
  }

  lemma SameLength(x: seq<bool>, y: seq<bool>, start: nat)
    requires DifferByBurst(x, y, start)
    ensures |x| == |y|
  {
  }

  /** A nonzero remainder of the difference tells the messages apart. */
  lemma DifferenceShows(r: Register, x: seq<bool>, y: seq<bool>)
    requires |x| == |y| && !AllZero(CrcBits(Zero(), Xor(x, y)))
    ensures CrcBits(r, x) != CrcBits(r, y)
  {
    CrcLinear(r, r, x, y);
    assert Xor(r, r) == Zero();
    var i :| 0 <= i < 16 && CrcBits(Zero(), Xor(x, y))[i];
    assert CrcBits(r, x)[i] != CrcBits(r, y)[i];
  }

  /** A zero prefix does not show, a nonzero burst does, and a zero suffix does not hide it. */
  lemma BurstAmongZeros(before: seq<bool>, burst: seq<bool>, after: seq<bool>)
    requires AllZero(before) && |burst| <= 16 && !AllZero(burst) && AllZero(after)
    ensures !AllZero(CrcBits(Zero(), before + burst + after))
  {
    ZerosFromZero(before);
    BurstLeavesTrace(burst);
    CrcBitsAppend(Zero(), before, burst);
    CrcBitsAppend(Zero(), before + burst, after);
    ZerosKeepNonzero(CrcBits(Zero(), burst), after);
  }
}

/** crcUpdate, on an unsigned 32-bit register that is never masked inside the loop.  A machine
    word is the sequence of its bits, least significant first. */
module Crc {
  import opened CrcPolynomial
  import opened RmdTypes
  import BitArithmetic

  type Word32 = w: seq<bool> | |w| == 32 witness seq(32, _ => false)

  function Bit(b: Byte, k: nat): bool
    requires k < 8
  {
    var weights := [1, 2, 4, 8, 16, 32, 64, 128];
    (b / weights[k]) % 2 == 1
  }

  // ----- the word operations of the code

  /** w << 1 */
  function ShiftLeft1(w: Word32): (r: Word32)
    ensures forall i :: 0 <= i < 32 ==> r[i] == (i > 0 && w[i - 1])
  {
    seq(32, i requires 0 <= i < 32 => i > 0 && w[i - 1])
  }

  /** b << 8 */
  function ByteShiftedBy8(b: Byte): (r: Word32)
    ensures forall i :: 0 <= i < 32 ==> r[i] == (8 <= i < 16 && Bit(b, i - 8))
  {
    seq(32, i requires 0 <= i < 32 => 8 <= i < 16 && Bit(b, i - 8))
  }

  /** 0x1021 */
  function Generator(): (r: Word32)
    ensures forall i :: 0 <= i < 32 ==> r[i] == (i == 0 || i == 5 || i == 12)
  {
    seq(32, i => i == 0 || i == 5 || i == 12)
  }

  /** An unsigned short widened, and an unsigned int cut to sixteen bits. */
  function Widen(r: Register): (w: Word32)
    ensures Low16(w) == r
  {
    r + seq(16, _ => false)
  }

  function Low16(w: Word32): Register {
    w[..16]
  }

  /** low | (high << 8) */
  function Uint16Le(low: Byte, high: Byte): Register {
    seq(16, i requires 0 <= i < 16 => if i < 8 then Bit(low, i) else Bit(high, i - 8))
  }

  // ----- the number a register stands for

  /** The sum of 2^i over the bits i that are set. */
  function Number(bits: seq<bool>): nat {
    if |bits| == 0 then 0 else (if bits[0] then 1 else 0) + 2 * Number(bits[1..])
  }

  /** Registers that stand for one number are one register. */
  lemma {:induction false} NumberInjective(x: seq<bool>, y: seq<bool>)
    requires |x| == |y| && Number(x) == Number(y)
    ensures x == y
  {
    if |x| > 0 {
      NumberInjective(x[1..], y[1..]);
      assert x == [x[0]] + x[1..] && y == [y[0]] + y[1..];
    }
  }

  lemma {:induction false} NumberOfByte(bits: seq<bool>, b: nat, width: nat)
    requires |bits| == width && b < BitArithmetic.Pow2(width)
    requires forall k :: 0 <= k < width ==> bits[k] == ((b / BitArithmetic.Pow2(k)) % 2 == 1)
    ensures Number(bits) == b
  {
    if width > 0 {
      PowOfNone();
      hide BitArithmetic.Pow2;
      BitArithmetic.PowStep(width);
      forall k | 0 <= k < width - 1 ensures bits[1..][k] == ((b / 2 / BitArithmetic.Pow2(k)) % 2 == 1) {
        BitArithmetic.PowStep(k + 1);
        BitArithmetic.HalveMod(b, BitArithmetic.Pow2(k));
        assert bits[1..][k] == bits[k + 1];
      }
      NumberOfByte(bits[1..], b / 2, width - 1);
    }
  }

  lemma PowOfNone()
    ensures BitArithmetic.Pow2(0) == 1
  {
  }

  lemma {:induction false} NumberAppend(x: seq<bool>, y: seq<bool>)
    ensures Number(x + y) == Number(x) + BitArithmetic.Pow2(|x|) * Number(y)
  {
    if |x| == 0 {
      assert x + y == y;
    } else {
      NumberAppend(x[1..], y);
      assert (x + y)[1..] == x[1..] + y;
      DoubleProduct(BitArithmetic.Pow2(|x| - 1), Number(y));
    }
  }

  lemma DoubleProduct(p: nat, n: nat)
    ensures 2 * (p * n) == (2 * p) * n
  {
  }

  lemma BitIsDigit(b: Byte, k: nat)
    requires k < 8
    ensures Bit(b, k) == ((b / BitArithmetic.Pow2(k)) % 2 == 1)
  {
    assert BitArithmetic.Pow2(3) == 8;
    match k {
      case 0 => assert BitArithmetic.Pow2(0) == 1;
      case 1 => assert BitArithmetic.Pow2(1) == 2;
      case 2 => assert BitArithmetic.Pow2(2) == 4;
      case 3 => assert BitArithmetic.Pow2(3) == 8;
      case 4 => assert BitArithmetic.Pow2(4) == 16;
      case 5 => assert BitArithmetic.Pow2(5) == 32;
      case 6 => assert BitArithmetic.Pow2(6) == 64;
      case 7 => assert BitArithmetic.Pow2(7) == 128;
    }
  }

  /** The stored checksum, low byte first. */
  lemma Uint16LeIs(low: Byte, high: Byte)
    ensures Number(Uint16Le(low, high)) == low + 0x100 * high
  {
    var r := Uint16Le(low, high);
    forall k | 0 <= k < 8 ensures r[..8][k] == Bit(low, k) && r[8..][k] == Bit(high, k) {
    }
    forall k | 0 <= k < 8
      ensures Bit(low, k) == ((low / BitArithmetic.Pow2(k)) % 2 == 1) && Bit(high, k) == ((high / BitArithmetic.Pow2(k)) % 2 == 1)
    {
      BitIsDigit(low, k);
      BitIsDigit(high, k);
    }
    hide Bit;
    ByteRange();
    NumberOfByte(r[..8], low, 8);
    NumberOfByte(r[8..], high, 8);
    NumberAppend(r[..8], r[8..]);
    assert r == r[..8] + r[8..];
  }

  lemma ByteRange()
    ensures BitArithmetic.Pow2(8) == 0x100
  {
    assert BitArithmetic.Pow2(4) == 16;
  }

  // ----- messages

  /** The bits of a byte in the order the CRC takes them, most significant first. */
  function ByteBits(b: Byte): (bits: seq<bool>)
    ensures |bits| == 8 && forall k :: 0 <= k < 8 ==> bits[k] == Bit(b, 7 - k)
  {
    seq(8, k requires 0 <= k < 8 => Bit(b, 7 - k))
  }

  function MessageBits(message: seq<Byte>): (bits: seq<bool>)
    ensures |bits| == 8 * |message|
  {
    if |message| == 0 then [] else MessageBits(message[..|message| - 1]) + ByteBits(message[|message| - 1])
  }

  /** The 16-bit CRC of a message, from a given register. */
  function CrcOf(r: Register, message: seq<Byte>): Register {
    CrcBits(r, MessageBits(message))
  }

  lemma {:induction false} MessageBitsAppend(a: seq<Byte>, b: seq<Byte>)
    ensures MessageBits(a + b) == MessageBits(a) + MessageBits(b)
  {
    if |b| == 0 {
      assert a + b == a;
    } else {
      MessageBitsAppend(a, b[..|b| - 1]);
      assert (a + b)[..|a + b| - 1] == a + b[..|b| - 1];
    }
  }

  /** Two calls in a row cover the concatenation. */
  lemma CrcComposes(r: Register, a: seq<Byte>, b: seq<Byte>)
    ensures CrcOf(CrcOf(r, a), b) == CrcOf(r, a + b)
  {
    MessageBitsAppend(a, b);
    CrcBitsAppend(r, MessageBits(a), MessageBits(b));
  }

  // ----- the loops

  /** Bits of the byte still to be taken, where they sit in the register after j steps. */
  function Pending(b: Byte, j: nat): (r: Register)
    requires j <= 8
    ensures forall i :: 0 <= i < 16 ==> r[i] == (i >= 8 + j && Bit(b, i - 8 - j))
  {
    seq(16, i requires 0 <= i < 16 => i >= 8 + j && Bit(b, i - 8 - j))
  }

  /** One pass of the inner loop: bits above the sixteenth never come back. */
  lemma UnmaskedStep(crc: Word32, s: Register, b: Byte, j: nat)
    requires j < 8 && Low16(crc) == Xor(s, Pending(b, j))
    ensures var shifted := ShiftLeft1(crc);
            var next := if crc[15] then Xor(shifted, Generator()) else shifted;
            Low16(next) == Xor(BitStep(s, ByteBits(b)[j]), Pending(b, j + 1))
  {
    assert crc[15] == Low16(crc)[15];
    assert forall i :: 0 <= i < 16 ==> crc[i] == Low16(crc)[i];
  }

  method ShiftByte(crc: Word32, b: Byte) returns (out: Word32)
    ensures Low16(out) == CrcBits(Low16(crc), ByteBits(b))
  {
    out := Xor(crc, ByteShiftedBy8(b));
    assert Low16(out) == Xor(Low16(crc), Pending(b, 0));
    for j := 0 to 8
      invariant Low16(out) == Xor(CrcBits(Low16(crc), ByteBits(b)[..j]), Pending(b, j))
    {
      UnmaskedStep(out, CrcBits(Low16(crc), ByteBits(b)[..j]), b, j);
      assert ByteBits(b)[..j + 1][..j] == ByteBits(b)[..j];
      var temp := ShiftLeft1(out);
      if out[15] {
        temp := Xor(temp, Generator());
      }
      out := temp;
    }
    assert ByteBits(b)[..8] == ByteBits(b);
    assert Low16(out) == CrcBits(Low16(crc), ByteBits(b));
  }

  /** crcUpdate: never masked inside, equal to the 16-bit remainder all the same. */
  method CrcUpdate(currentCrc: Register, src: seq<Byte>) returns (newCrc: Register)
    ensures newCrc == CrcOf(currentCrc, src)
  {
    var crc := Widen(currentCrc);
    for i := 0 to |src|
      invariant Low16(crc) == CrcOf(currentCrc, src[..i])
    {
      assert src[..i + 1][..i] == src[..i];
      CrcBitsAppend(currentCrc, MessageBits(src[..i]), ByteBits(src[i]));
      crc := ShiftByte(crc, src[i]);
    }
    assert src[..|src|] == src;
    newCrc := Low16(crc);
  }
}
