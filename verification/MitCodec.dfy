/** The CAN command and reply codec: quantisation of physical values and the packed byte layouts. */
module MitCodec {
  import opened RmdTypes
  import BitArithmetic
  import opened RealArithmetic

  const P_MIN: real := -12.566
  const P_MAX: real := 12.566
  const V_MIN: real := -45.0
  const V_MAX: real := 45.0
  const KP_MIN: real := 0.0
  const KP_MAX: real := 500.0
  const KD_MIN: real := 0.0
  const KD_MAX: real := 50.0
  const DEFAULT_MAX_TORQUE: real := 24.0
  const STATUS2_COMMAND: Byte := 0x9c
  const MIT_STATUS: nat := 0x0237

  function PositiveTorqueLimit(maxTorque: real): (r: real)
    ensures r > 0.0
  {
    if maxTorque > 0.0 then maxTorque else DEFAULT_MAX_TORQUE
  }

  // ----- quantisation

  function MaxCode(bits: nat): (r: nat)
    ensures bits > 0 ==> r >= 1
  {
    BitArithmetic.Pow2(bits) - 1
  }

  /** A value's place on the scale of codes, before rounding. */
  function Place(value: real, min: real, max: real, m: real): real
    requires min < max
  {
    (value - min) * m / (max - min)
  }

  function Value(place: real, min: real, max: real, m: real): real
    requires m > 0.0
  {
    place * (max - min) / m + min
  }

  function FloatToUint(value: real, min: real, max: real, bits: nat): int
    requires min < max && bits > 0
  {
    LRound(Place(Clamp(value, min, max), min, max, MaxCode(bits) as real))
  }

  function UintToFloat(value: nat, min: real, max: real, bits: nat): real
    requires bits > 0
  {
    var code := if value > MaxCode(bits) then MaxCode(bits) else value;
    Value(code as real, min, max, MaxCode(bits) as real)
  }

  function StepSize(min: real, max: real, bits: nat): real
    requires bits > 0
  {
    (max - min) / MaxCode(bits) as real
  }

  lemma Quotient(a: real, b: real) returns (q: real)
    requires b != 0.0
    ensures q == a / b && q * b == a
  {
    q := a / b;
  }

  lemma QuotientUnique(a: real, b: real, q: real)
    requires b != 0.0 && q * b == a
    ensures a / b == q
  {
  }

  lemma RoundExact(k: int)
    ensures LRound(k as real) == k
  {
  }

  lemma RoundMonotone(x: real, y: real)
    requires x <= y
    ensures LRound(x) <= LRound(y)
  {
  }

  lemma RoundBetween(x: real, high: nat)
    requires 0.0 <= x <= high as real
    ensures 0 <= LRound(x) <= high
  {
    RoundMonotone(x, high as real);
    RoundExact(high);
  }

  lemma PlaceOfValue(place: real, min: real, max: real, m: real)
    requires min < max && m > 0.0
    ensures Place(Value(place, min, max, m), min, max, m) == place
  {
    var q := Quotient(place * (max - min), m);
    assert Value(place, min, max, m) - min == q;
    QuotientUnique(q * m, max - min, place);
  }

  lemma ValueOfPlace(value: real, min: real, max: real, m: real)
    requires min < max && m > 0.0
    ensures Value(Place(value, min, max, m), min, max, m) == value
  {
    var q := Quotient((value - min) * m, max - min);
    QuotientUnique(q * (max - min), m, value - min);
  }

  lemma QuotientMonotone(a: real, b: real, c: real)
    requires a <= b && c > 0.0
    ensures a / c <= b / c
  {
    var p := Quotient(a, c);
    var q := Quotient(b, c);
    if q < p {
      ProductLess(q, p, c);
    }
  }

  lemma PlaceMonotone(u: real, v: real, min: real, max: real, m: real)
    requires min < max && m > 0.0 && u <= v
    ensures Place(u, min, max, m) <= Place(v, min, max, m)
  {
    ProductAtMost(u - min, v - min, m);
    QuotientMonotone((u - min) * m, (v - min) * m, max - min);
  }

  lemma ValueMonotone(x: real, y: real, min: real, max: real, m: real)
    requires min < max && m > 0.0 && x <= y
    ensures Value(x, min, max, m) <= Value(y, min, max, m)
  {
    ProductAtMost(x, y, max - min);
    QuotientMonotone(x * (max - min), y * (max - min), m);
  }

  lemma ValueDifference(x: real, y: real, min: real, max: real, m: real)
    requires min < max && m > 0.0
    ensures Value(y, min, max, m) - Value(x, min, max, m) == (y - x) * ((max - min) / m)
  {
    var s := Quotient(max - min, m);
    QuotientUnique(x * (max - min), m, x * s);
    QuotientUnique(y * (max - min), m, y * s);
  }

  lemma FullQuotient(a: real, m: real)
    requires a != 0.0
    ensures a * m / a == m
  {
  }

  lemma NoQuotient(d: real, m: real, a: real)
    requires a != 0.0 && d == 0.0
    ensures d * m / a == 0.0
  {
  }

  lemma EndPlaces(min: real, max: real, m: real)
    requires min < max
    ensures Place(min, min, max, m) == 0.0 && Place(max, min, max, m) == m
  {
    NoQuotient(min - min, m, max - min);
    FullQuotient(max - min, m);
  }

  lemma EndValues(min: real, max: real, m: real)
    requires min < max && m > 0.0
    ensures Value(0.0, min, max, m) == min && Value(m, min, max, m) == max
  {
    NoQuotient(0.0, max - min, m);
    FullQuotient(m, max - min);
  }

  lemma ClampRange(value: real, min: real, max: real)
    requires min < max
    ensures min <= Clamp(value, min, max) <= max && (min <= value <= max ==> Clamp(value, min, max) == value)
  {
  }

  lemma CodeInRange(value: real, min: real, max: real, bits: nat)
    requires min < max && bits > 0
    ensures 0 <= FloatToUint(value, min, max, bits) <= MaxCode(bits)
  {
    hide Place, Clamp, LRound, MaxCode;
    var v, m := Clamp(value, min, max), MaxCode(bits) as real;
    ClampRange(value, min, max);
    PlaceMonotone(min, v, min, max, m);
    PlaceMonotone(v, max, min, max, m);
    EndPlaces(min, max, m);
    RoundBetween(Place(v, min, max, m), MaxCode(bits));
  }

  /** Every code survives decoding and encoding. */
  lemma CodeRoundTrip(code: nat, min: real, max: real, bits: nat)
    requires min < max && bits > 0 && code <= MaxCode(bits)
    ensures FloatToUint(UintToFloat(code, min, max, bits), min, max, bits) == code
  {
    hide Place, Value, Clamp, LRound, MaxCode;
    var m := MaxCode(bits) as real;
    var value := Value(code as real, min, max, m);
    assert UintToFloat(code, min, max, bits) == value;
    ValueMonotone(0.0, code as real, min, max, m);
    ValueMonotone(code as real, m, min, max, m);
    EndValues(min, max, m);
    ClampRange(value, min, max);
    PlaceOfValue(code as real, min, max, m);
    RoundExact(code);
  }

  /** How far the value of a code lies from a value brought into range. */
  function Error(code: nat, value: real, min: real, max: real, bits: nat): real
    requires bits > 0
  {
    Distance(UintToFloat(code, min, max, bits), Clamp(value, min, max))
  }

  lemma StepIsPositive(span: real, m: real, s: real)
    requires span > 0.0 && m > 0.0 && s * m == span
    ensures s > 0.0
  {
    if s <= 0.0 {
      ProductAtMost(s, 0.0, m);
    }
  }

  lemma ScaledDistance(u: real, v: real, x: real, y: real, s: real)
    requires s > 0.0 && u - v == (x - y) * s
    ensures Distance(u, v) == Distance(x, y) * s
  {
    if x < y {
      ProductLess(x - y, 0.0, s);
      assert (y - x) * s == -((x - y) * s);
    } else {
      ProductAtMost(0.0, x - y, s);
    }
  }

  /** On the scale of codes a value lies within half a code of the code chosen for it, and the error
      of any code is its distance on that scale times the step. */
  lemma ErrorOfCode(value: real, min: real, max: real, bits: nat, code: nat) returns (place: real)
    requires min < max && bits > 0 && code <= MaxCode(bits)
    ensures StepSize(min, max, bits) > 0.0
    ensures Error(code, value, min, max, bits)
            == Distance(code as real, place) * StepSize(min, max, bits)
    ensures LRound(place) == FloatToUint(value, min, max, bits)
    ensures place == Place(Clamp(value, min, max), min, max, MaxCode(bits) as real)
  {
    hide *;
    var v, m := Clamp(value, min, max), MaxCode(bits) as real;
    place := Place(v, min, max, m);
    var s := Quotient(max - min, m);
    Definitions(value, min, max, bits, code);
    StepIsPositive(max - min, m, s);
    ValueOfPlace(v, min, max, m);
    ValueDifference(place, code as real, min, max, m);
    ScaledDistance(Value(code as real, min, max, m), v, code as real, place, s);
  }

  lemma Definitions(value: real, min: real, max: real, bits: nat, code: nat)
    requires min < max && bits > 0 && code <= MaxCode(bits)
    ensures StepSize(min, max, bits) == (max - min) / MaxCode(bits) as real
    ensures FloatToUint(value, min, max, bits) == LRound(Place(Clamp(value, min, max), min, max, MaxCode(bits) as real))
    ensures Error(code, value, min, max, bits)
            == Distance(Value(code as real, min, max, MaxCode(bits) as real), Clamp(value, min, max))
  {
    hide LRound, Place, Value, Distance;
  }

  lemma NoIntegerCloser(place: real, other: int)
    ensures Distance(LRound(place) as real, place) <= 0.5
    ensures Distance(LRound(place) as real, place) <= Distance(other as real, place)
  {
    RoundNearby(place);
    var code := LRound(place);
    assert other <= code - 1 || other == code || other >= code + 1;
  }

  /** Encoding and decoding moves a value by at most half a step from its clamped self. */
  lemma HalfStep(value: real, min: real, max: real, bits: nat)
    requires min < max && bits > 0
    ensures FloatToUint(value, min, max, bits) >= 0
    ensures Error(FloatToUint(value, min, max, bits), value, min, max, bits) <= 0.5 * StepSize(min, max, bits)
  {
    CodeInRange(value, min, max, bits);
    var code := FloatToUint(value, min, max, bits);
    var place := ErrorOfCode(value, min, max, bits, code);
    NoIntegerCloser(place, code);
    ProductAtMost(Distance(code as real, place), 0.5, StepSize(min, max, bits));
  }

  lemma CloserScaled(e: real, f: real, d: real, g: real, s: real)
    requires s > 0.0 && e == d * s && f == g * s && d <= g
    ensures e <= f
  {
    ProductAtMost(d, g, s);
  }

  lemma ErrorsOfCodes(value: real, min: real, max: real, bits: nat, code: nat, other: nat)
    returns (place: real, s: real, e: real, f: real)
    requires min < max && bits > 0 && code <= MaxCode(bits) && other <= MaxCode(bits)
    ensures s > 0.0 && LRound(place) == FloatToUint(value, min, max, bits)
    ensures e == Error(code, value, min, max, bits) && f == Error(other, value, min, max, bits)
    ensures e == Distance(code as real, place) * s && f == Distance(other as real, place) * s
  {
    hide *;
    place := ErrorOfCode(value, min, max, bits, code);
    var same := ErrorOfCode(value, min, max, bits, other);
    s := StepSize(min, max, bits);
    e, f := Error(code, value, min, max, bits), Error(other, value, min, max, bits);
  }

  /** The code chosen is a nearest one: no other code's value lies closer. */
  lemma NearestCode(value: real, min: real, max: real, bits: nat, other: nat)
    requires min < max && bits > 0 && other <= MaxCode(bits)
    ensures FloatToUint(value, min, max, bits) >= 0
    ensures Error(FloatToUint(value, min, max, bits), value, min, max, bits) <= Error(other, value, min, max, bits)
  {
    hide *;
    CodeInRange(value, min, max, bits);
    var code := FloatToUint(value, min, max, bits);
    var place, s, e, f := ErrorsOfCodes(value, min, max, bits, code, other);
    NoIntegerCloser(place, other);
    CloserScaled(e, f, Distance(code as real, place), Distance(other as real, place), s);
  }

  /** Larger values never get smaller codes. */
  lemma EncodeMonotone(u: real, v: real, min: real, max: real, bits: nat)
    requires min < max && bits > 0 && u <= v
    ensures FloatToUint(u, min, max, bits) <= FloatToUint(v, min, max, bits)
  {
    var m := MaxCode(bits) as real;
    PlaceMonotone(Clamp(u, min, max), Clamp(v, min, max), min, max, m);
    RoundMonotone(Place(Clamp(u, min, max), min, max, m), Place(Clamp(v, min, max), min, max, m));
  }

  /** Larger codes have larger values; codes beyond the range count as the largest one. */
  lemma DecodeMonotone(j: nat, k: nat, min: real, max: real, bits: nat)
    requires min < max && bits > 0 && j < k
    ensures UintToFloat(j, min, max, bits) <= UintToFloat(k, min, max, bits)
    ensures j < MaxCode(bits) ==> UintToFloat(j, min, max, bits) < UintToFloat(k, min, max, bits)
  {
    var m, top := MaxCode(bits) as real, MaxCode(bits);
    var x, y := (if j > top then top else j) as real, (if k > top then top else k) as real;
    assert UintToFloat(j, min, max, bits) == Value(x, min, max, m);
    assert UintToFloat(k, min, max, bits) == Value(y, min, max, m);
    hide *;
    ValueMonotone(x, y, min, max, m);
    if j < top {
      ValueDifference(x, y, min, max, m);
      var s := Quotient(max - min, m);
      StepIsPositive(max - min, m, s);
      ProductLess(0.0, y - x, s);
    }
  }

  // ----- the command frame

  /** The five codes of a command. */
  datatype Command = Command(p: nat, v: nat, kp: nat, kd: nat, torque: nat) {
    predicate InRange() {
      p < 0x1_0000 && v < 0x1000 && kp < 0x1000 && kd < 0x1000 && torque < 0x1000
    }
  }

  function PackCommand(c: Command): (bytes: seq<Byte>)
    ensures |bytes| == 8
  {
    [ (c.p / 0x100) % 0x100,
      c.p % 0x100,
      (c.v / 0x10) % 0x100,
      (c.v % 0x10) * 0x10 + (c.kp / 0x100) % 0x10,
      c.kp % 0x100,
      (c.kd / 0x10) % 0x100,
      (c.kd % 0x10) * 0x10 + (c.torque / 0x100) % 0x10,
      c.torque % 0x100 ]
  }

  function Join16(high: nat, low: nat): nat {
    high * 0x100 + low
  }

  /** A 12-bit code whose low four bits open the shared byte. */
  function HighOf(byte: nat, shared: nat): nat {
    byte * 0x10 + shared / 0x10
  }

  /** A 12-bit code whose high four bits close the shared byte. */
  function LowOf(shared: nat, byte: nat): nat {
    (shared % 0x10) * 0x100 + byte
  }

  /** How the motor takes a command frame apart: the 64 bits read from the first byte on. */
  function UnpackCommand(bytes: seq<Byte>): (c: Command)
    requires |bytes| == 8
  {
    Command(Join16(bytes[0], bytes[1]),
            HighOf(bytes[2], bytes[3]),
            LowOf(bytes[3], bytes[4]),
            HighOf(bytes[5], bytes[6]),
            LowOf(bytes[6], bytes[7]))
  }

  /** No bit of a command is lost. */
  lemma CommandRoundTrip(c: Command)
    requires c.InRange()
    ensures UnpackCommand(PackCommand(c)) == c
  {
    var bytes := PackCommand(c);
    SplitPosition(c.p);
    SplitCode(c.v, c.kp);
    SplitCode(c.kd, c.torque);
    HighBack(c.v, bytes[3]);
    LowBack(c.kp, bytes[3]);
    HighBack(c.kd, bytes[6]);
    LowBack(c.torque, bytes[6]);
  }

  lemma SplitPosition(p: nat)
    requires p < 0x1_0000
    ensures Join16((p / 0x100) % 0x100, p % 0x100) == p
  {
  }

  lemma HighBack(high: nat, shared: nat)
    requires high < 0x1000 && shared / 0x10 == high % 0x10
    ensures HighOf((high / 0x10) % 0x100, shared) == high
  {
  }

  lemma LowBack(low: nat, shared: nat)
    requires low < 0x1000 && shared % 0x10 == low / 0x100
    ensures LowOf(shared, low % 0x100) == low
  {
  }

  lemma SplitCode(high: nat, low: nat)
    requires high < 0x1000 && low < 0x1000
    ensures var shared := (high % 0x10) * 0x10 + (low / 0x100) % 0x10;
            shared / 0x10 == high % 0x10 && shared % 0x10 == low / 0x100
  {
  }

  /** Every eight bytes are the frame of exactly one command. */
  lemma FrameRoundTrip(bytes: seq<Byte>)
    requires |bytes| == 8
    ensures UnpackCommand(bytes).InRange() && PackCommand(UnpackCommand(bytes)) == bytes
  {
    SplitShared(bytes[2], bytes[3], bytes[4]);
    SplitShared(bytes[5], bytes[6], bytes[7]);
    SplitJoined(bytes[0], bytes[1]);
    hide HighOf, LowOf, Join16;
    assert PackCommand(UnpackCommand(bytes)) == bytes;
  }

  lemma SplitShared(high: Byte, shared: Byte, low: Byte)
    ensures var h, l := HighOf(high, shared), LowOf(shared, low);
            && h < 0x1000 && l < 0x1000 && (h / 0x10) % 0x100 == high
            && (h % 0x10) * 0x10 + (l / 0x100) % 0x10 == shared && l % 0x100 == low
  {
    var h, l := HighOf(high, shared), LowOf(shared, low);
    assert h / 0x10 == high && h % 0x10 == shared / 0x10;
    assert l / 0x100 == shared % 0x10;
  }

  lemma SplitJoined(high: Byte, low: Byte)
    ensures var j := Join16(high, low); j < 0x1_0000 && (j / 0x100) % 0x100 == high && j % 0x100 == low
  {
  }

  ghost predicate Within(code: nat, value: real, min: real, max: real, bits: nat)
    requires bits > 0
  {
    Error(code, value, min, max, bits) <= 0.5 * StepSize(min, max, bits)
  }

  lemma Widths()
    ensures MaxCode(12) == 0xfff && MaxCode(16) == 0xffff
  {
    assert BitArithmetic.Pow2(4) == 0x10;
    assert BitArithmetic.Pow2(8) == 0x100;
    assert BitArithmetic.Pow2(12) == 0x1000;
  }

  /** The codes packMit computes. */
  function CommandFor(p: real, v: real, kp: real, kd: real, torque: real, limit: real): (c: Command)
    requires limit > 0.0
    ensures c.InRange()
  {
    Widths();
    CodeInRange(p, P_MIN, P_MAX, 16);
    CodeInRange(v, V_MIN, V_MAX, 12);
    CodeInRange(kp, KP_MIN, KP_MAX, 12);
    CodeInRange(kd, KD_MIN, KD_MAX, 12);
    CodeInRange(torque, -limit, limit, 12);
    Command(FloatToUint(p, P_MIN, P_MAX, 16), FloatToUint(v, V_MIN, V_MAX, 12),
            FloatToUint(kp, KP_MIN, KP_MAX, 12), FloatToUint(kd, KD_MIN, KD_MAX, 12),
            FloatToUint(torque, -limit, limit, 12))
  }

  function PackMit(p: real, v: real, kp: real, kd: real, torque: real, maxTorque: real): (bytes: seq<Byte>)
    ensures |bytes| == 8
  {
    PackCommand(CommandFor(p, v, kp, kd, torque, PositiveTorqueLimit(maxTorque)))
  }

  lemma CodesWithin(p: real, v: real, kp: real, kd: real, torque: real, limit: real)
    requires limit > 0.0
    ensures var c := CommandFor(p, v, kp, kd, torque, limit);
            && Within(c.p, p, P_MIN, P_MAX, 16) && Within(c.v, v, V_MIN, V_MAX, 12)
            && Within(c.kp, kp, KP_MIN, KP_MAX, 12) && Within(c.kd, kd, KD_MIN, KD_MAX, 12)
            && Within(c.torque, torque, -limit, limit, 12)
  {
    HalfStep(p, P_MIN, P_MAX, 16);
    HalfStep(v, V_MIN, V_MAX, 12);
    HalfStep(kp, KP_MIN, KP_MAX, 12);
    HalfStep(kd, KD_MIN, KD_MAX, 12);
    HalfStep(torque, -limit, limit, 12);
  }

  /** The motor that unpacks a command frame gets every physical value within half a step.  Its torque
      scale is the motor's own limit, or 24 Nm if that is not positive. */
  lemma CommandArrives(p: real, v: real, kp: real, kd: real, torque: real, maxTorque: real)
    ensures var limit := if maxTorque > 0.0 then maxTorque else 24.0;
            var c := UnpackCommand(PackMit(p, v, kp, kd, torque, maxTorque));
            && Within(c.p, p, -12.566, 12.566, 16) && Within(c.v, v, -45.0, 45.0, 12)
            && Within(c.kp, kp, 0.0, 500.0, 12) && Within(c.kd, kd, 0.0, 50.0, 12)
            && Within(c.torque, torque, -limit, limit, 12)
  {
    hide Within, CommandFor, PackCommand, UnpackCommand;
    var limit := PositiveTorqueLimit(maxTorque);
    CodesWithin(p, v, kp, kd, torque, limit);
    CommandRoundTrip(CommandFor(p, v, kp, kd, torque, limit));
  }

  // ----- the reply frame

  datatype MitFeedback = MitFeedback(valid: bool, motorId: int, position: real, velocity: real, torque: real)

  const NO_FEEDBACK := MitFeedback(false, 0, 0.0, 0.0, 0.0)

  /** `data` is the payload buffer, `length` the number of bytes received into it. */
  function ParseMitReply(data: seq<Byte>, length: int, expectedMotorId: int, maxTorque: real): MitFeedback
    requires |data| == 8
  {
    if length != 8 then NO_FEEDBACK
    else if expectedMotorId > 0 && data[0] != expectedMotorId then NO_FEEDBACK.(motorId := data[0])
    else
      var limit := PositiveTorqueLimit(maxTorque);
      MitFeedback(true, data[0],
                  UintToFloat(Join16(data[1], data[2]), P_MIN, P_MAX, 16),
                  UintToFloat(HighOf(data[3], data[4]), V_MIN, V_MAX, 12),
                  UintToFloat(LowOf(data[4], data[5]), -limit, limit, 12))
  }

  /** The reply a motor sends: its id, three codes in 40 bits, and two bytes nobody reads. */
  function ReplyBytes(id: Byte, p: nat, v: nat, t: nat, rest: seq<Byte>): seq<Byte> {
    [ id, (p / 0x100) % 0x100, p % 0x100, (v / 0x10) % 0x100,
      (v % 0x10) * 0x10 + (t / 0x100) % 0x10, t % 0x100 ] + rest
  }

  /** A reply parses back to the id and the values it was made from. */
  lemma ReplyParses(id: Byte, p: nat, v: nat, t: nat, rest: seq<Byte>, expectedMotorId: int, maxTorque: real)
    requires p < 0x1_0000 && v < 0x1000 && t < 0x1000 && |rest| == 2
    requires expectedMotorId <= 0 || expectedMotorId == id
    ensures var limit := if maxTorque > 0.0 then maxTorque else 24.0;
            ParseMitReply(ReplyBytes(id, p, v, t, rest), 8, expectedMotorId, maxTorque)
            == MitFeedback(true, id, UintToFloat(p, -12.566, 12.566, 16), UintToFloat(v, -45.0, 45.0, 12),
                           UintToFloat(t, -limit, limit, 12))
  {
    var data := ReplyBytes(id, p, v, t, rest);
    ReplyCodes(id, p, v, t, rest);
    assert data[0] == id;
  }

  lemma ReplyCodes(id: Byte, p: nat, v: nat, t: nat, rest: seq<Byte>)
    requires p < 0x1_0000 && v < 0x1000 && t < 0x1000 && |rest| == 2
    ensures var data := ReplyBytes(id, p, v, t, rest);
            && |data| == 8 && Join16(data[1], data[2]) == p && HighOf(data[3], data[4]) == v && LowOf(data[4], data[5]) == t
  {
    SplitPosition(p);
    SplitCode(v, t);
    var shared := (v % 0x10) * 0x10 + (t / 0x100) % 0x10;
    HighBack(v, shared);
    LowBack(t, shared);
  }

  /** Parsing loses nothing: the six bytes can be rebuilt from what was parsed. */
  lemma ReplyRoundTrip(data: seq<Byte>, expectedMotorId: int, maxTorque: real)
    requires |data| == 8 && ParseMitReply(data, 8, expectedMotorId, maxTorque).valid
    ensures var f, limit := ParseMitReply(data, 8, expectedMotorId, maxTorque), if maxTorque > 0.0 then maxTorque else 24.0;
            var p, v, t := FloatToUint(f.position, -12.566, 12.566, 16), FloatToUint(f.velocity, -45.0, 45.0, 12),
                           FloatToUint(f.torque, -limit, limit, 12);
            && p >= 0 && v >= 0 && t >= 0 && 0 <= f.motorId < 0x100
            && ReplyBytes(f.motorId, p, v, t, data[6..]) == data
  {
    var limit := PositiveTorqueLimit(maxTorque);
    Widths();
    CodeRoundTrip(Join16(data[1], data[2]), P_MIN, P_MAX, 16);
    CodeRoundTrip(HighOf(data[3], data[4]), V_MIN, V_MAX, 12);
    CodeRoundTrip(LowOf(data[4], data[5]), -limit, limit, 12);
    RebuildReply(data);
  }

  lemma RebuildReply(data: seq<Byte>)
    requires |data| == 8
    ensures ReplyBytes(data[0], Join16(data[1], data[2]), HighOf(data[3], data[4]),
                       LowOf(data[4], data[5]), data[6..]) == data
  {
    var v, t := HighOf(data[3], data[4]), LowOf(data[4], data[5]);
    assert v % 0x10 == data[4] / 0x10 && v / 0x10 == data[3];
    assert t / 0x100 == data[4] % 0x10 && t % 0x100 == data[5];
    assert data == data[..6] + data[6..];
  }

  function ApplyMitFeedback(actual: MotorActual, f: MitFeedback): MotorActual {
    if !f.valid then actual
    else actual.(pos := f.position, vel := f.velocity, statusWord := MIT_STATUS, errorCode := 0)
  }

  // ----- the status reply

  function Signed(v: nat, range: nat): int {
    if 2 * v < range then v else v - range
  }

  datatype Status2Feedback = Status2Feedback(valid: bool, temperature: int, estimatedTorque: real)

  function ParseStatus2Reply(data: seq<Byte>, length: int, torqueConstant: real): Status2Feedback
    requires |data| == 8
  {
    if length != 8 || data[0] != STATUS2_COMMAND then Status2Feedback(false, 0, 0.0)
    else
      Status2Feedback(true, Signed(data[1], 0x100),
                      Signed(Join16(data[3], data[2]), 0x1_0000) as real * 0.01 * torqueConstant)
  }

  /** A status reply parses back to the temperature and the current it was made from. */
  lemma Status2Parses(temperature: int, current: int, rest: seq<Byte>, torqueConstant: real)
    requires -0x80 <= temperature < 0x80 && -0x8000 <= current < 0x8000 && |rest| == 4
    ensures var data := [STATUS2_COMMAND, temperature % 0x100, current % 0x100, (current / 0x100) % 0x100] + rest;
            ParseStatus2Reply(data, 8, torqueConstant)
            == Status2Feedback(true, temperature, current as real * 0.01 * torqueConstant)
  {
    var low, high := current % 0x100, (current / 0x100) % 0x100;
    assert Join16(high, low) == current % 0x1_0000;
    assert Signed(temperature % 0x100, 0x100) == temperature;
    assert Signed(current % 0x1_0000, 0x1_0000) == current;
  }

  function ApplyStatus2Feedback(actual: MotorActual, f: Status2Feedback): MotorActual {
    if !f.valid then actual else actual.(tor := f.estimatedTorque, temp := f.temperature)
  }
}
