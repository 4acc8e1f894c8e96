/** The layouts and units of the process data read back: what one side stores, the other side finds. */
module EthercatLayouts {
  import opened RmdTypes
  import BitArithmetic
  import opened EthercatPdo
  import opened RealArithmetic

  // ----- fields of a layout

  ghost predicate FitsUnsigned(value: int, size: nat) {
    0 <= value < Range(size)
  }

  ghost predicate FitsSigned(value: int, size: nat) {
    0 <= Range(size) + 2 * value && 2 * value < Range(size)
  }

  lemma UnsignedBack(value: int, size: nat)
    requires FitsUnsigned(value, size)
    ensures FromLe(Le(value, size)) == value
  {
    LeRoundTrip(value, size);
    BitArithmetic.DivModUnique(value, Range(size), 0, value);
  }

  lemma SignedBack(value: int, size: nat)
    requires FitsSigned(value, size)
    ensures SignedFromLe(Le(value, size)) == value
  {
    SignedRoundTrip(value, size);
  }

  // ----- what the drive finds in a command

  /** A command as the drive takes it out of its bytes. */
  function ReadRx(bytes: seq<Byte>, profile: RxProfile): RxData
    requires |bytes| == RxSize(profile)
  {
    match profile
    case RxStandard =>
      StandardRx(FromLe(bytes[0..2]), SignedFromLe(bytes[2..6]), SignedFromLe(bytes[6..10]), SignedFromLe(bytes[10..12]),
                 FromLe(bytes[12..14]), SignedFromLe(bytes[14..15]))
    case RxPvt =>
      PvtRx(FromLe(bytes[0..2]), SignedFromLe(bytes[2..6]), SignedFromLe(bytes[6..10]), SignedFromLe(bytes[10..12]),
            SignedFromLe(bytes[12..16]), SignedFromLe(bytes[16..20]), SignedFromLe(bytes[20..21]))
  }

  ghost predicate RxFitsFields(rx: RxData) {
    && FitsUnsigned(rx.controlWord, 2) && FitsSigned(rx.position, 4) && FitsSigned(rx.velocity, 4)
    && FitsSigned(rx.torque, 2) && FitsSigned(rx.mode, 1)
    && match rx
       case StandardRx(_, _, _, _, maxTorque, _) => FitsUnsigned(maxTorque, 2)
       case PvtRx(_, _, _, _, kp, kd, _) => FitsSigned(kp, 4) && FitsSigned(kd, 4)
  }

  function ProfileOf(rx: RxData): RxProfile {
    if rx.StandardRx? then RxStandard else RxPvt
  }

  lemma StandardFields(word: seq<Byte>, position: seq<Byte>, velocity: seq<Byte>, torque: seq<Byte>, maxTorque: seq<Byte>,
                       mode: seq<Byte>, last: seq<Byte>)
    requires |word| == 2 && |position| == 4 && |velocity| == 4 && |torque| == 2 && |maxTorque| == 2 && |mode| == 1
    ensures var bytes := word + position + velocity + torque + maxTorque + mode + last;
            && bytes[0..2] == word && bytes[2..6] == position && bytes[6..10] == velocity
            && bytes[10..12] == torque && bytes[12..14] == maxTorque && bytes[14..15] == mode
  {
  }

  lemma PvtFields(word: seq<Byte>, position: seq<Byte>, velocity: seq<Byte>, torque: seq<Byte>, kp: seq<Byte>, kd: seq<Byte>,
                  mode: seq<Byte>, last: seq<Byte>)
    requires |word| == 2 && |position| == 4 && |velocity| == 4 && |torque| == 2 && |kp| == 4 && |kd| == 4 && |mode| == 1
    ensures var bytes := word + position + velocity + torque + kp + kd + mode + last;
            && bytes[0..2] == word && bytes[2..6] == position && bytes[6..10] == velocity
            && bytes[10..12] == torque && bytes[12..16] == kp && bytes[16..20] == kd && bytes[20..21] == mode
  {
  }

  /** A command whose fields fit is found unchanged. */
  lemma RxRoundTrip(rx: RxData)
    requires RxFitsFields(rx)
    ensures ReadRx(RxBytes(rx), ProfileOf(rx)) == rx
  {
    hide Le, FromLe, SignedFromLe, FitsSigned, FitsUnsigned;
    UnsignedBack(rx.controlWord, 2);
    SignedBack(rx.position, 4);
    SignedBack(rx.velocity, 4);
    SignedBack(rx.torque, 2);
    SignedBack(rx.mode, 1);
    match rx {
      case StandardRx(word, position, velocity, torque, maxTorque, mode) =>
        UnsignedBack(maxTorque, 2);
        StandardFields(Le(word, 2), Le(position, 4), Le(velocity, 4), Le(torque, 2), Le(maxTorque, 2), Le(mode, 1), Le(0, 1));
      case PvtRx(word, position, velocity, torque, kp, kd, mode) =>
        SignedBack(kp, 4);
        SignedBack(kd, 4);
        PvtFields(Le(word, 2), Le(position, 4), Le(velocity, 4), Le(torque, 2), Le(kp, 4), Le(kd, 4), Le(mode, 1), Le(0, 1));
    }
  }

  // ----- what the SDK finds in feedback

  /** An angle that is so many counts, in the motor's direction; without a resolution it is taken as zero. */
  ghost predicate InRadians(rad: real, counts: real, p: MotorParameters) {
    if p.encoderResolution == 0.0 then rad == 0.0
    else rad * p.encoderResolution == p.polarity * counts * 2.0 * 3.14159265358979323846
  }

  /** A torque that is so many thousandths of the rated current. */
  ghost predicate InNewtonMeters(torque: real, raw: int, p: MotorParameters) {
    1000.0 * torque == p.polarity * raw as real * p.ratedCurrent * p.torqueConstant
  }

  lemma ScaledQuotient(x: real, r: real)
    requires r != 0.0
    ensures x / r * 2.0 * PI * r == x * 2.0 * PI
  {
    assert x / r * r == x;
  }

  lemma CountsInRadians(counts: real, p: MotorParameters)
    ensures p.encoderResolution != 0.0 ==> InRadians(p.polarity * counts / p.encoderResolution * 2.0 * PI, counts, p)
  {
    if p.encoderResolution != 0.0 {
      ScaledQuotient(p.polarity * counts, p.encoderResolution);
    }
  }

  lemma RawInNewtonMeters(raw: int, p: MotorParameters)
    ensures InNewtonMeters(RawToTorque(raw, p), raw, p)
  {
    Thousandths(p.polarity * raw as real, p.ratedCurrent, p.torqueConstant);
  }

  lemma Thousandths(x: real, y: real, z: real)
    ensures 1000.0 * (x / 1000.0 * y * z) == x * y * z
  {
  }

  datatype TxData = TxData(statusWord: nat, position: int, velocity: int, torque: int, errorCode: nat,
                           motorTemperature: int, driveTemperature: int, voltage: nat, mode: int)

  /** The drive's side: the packed struct in memory. */
  function TxBytes(tx: TxData, profile: TxProfile): (bytes: seq<Byte>)
    ensures |bytes| == TxSize(profile)
  {
    var head := Le(tx.statusWord, 2) + Le(tx.position, 4) + Le(tx.velocity, 4) + Le(tx.torque, 2) + Le(tx.errorCode, 2);
    match profile
    case TxStandard => head + (Le(tx.mode, 1) + Le(0, 1))
    case TxExtended =>
      head + (Le(tx.motorTemperature, 2) + Le(tx.driveTemperature, 2) + Le(tx.voltage, 2) + Le(tx.mode, 1) + Le(0, 1))
  }

  ghost predicate TxFitsFields(tx: TxData) {
    && FitsUnsigned(tx.statusWord, 2) && FitsSigned(tx.position, 4) && FitsSigned(tx.velocity, 4) && FitsSigned(tx.torque, 2)
    && FitsUnsigned(tx.errorCode, 2) && FitsSigned(tx.motorTemperature, 2) && FitsSigned(tx.driveTemperature, 2)
    && FitsUnsigned(tx.voltage, 2)
  }

  lemma HeadFields(status: seq<Byte>, position: seq<Byte>, velocity: seq<Byte>, torque: seq<Byte>, error: seq<Byte>, tail: seq<Byte>)
    requires |status| == 2 && |position| == 4 && |velocity| == 4 && |torque| == 2 && |error| == 2
    ensures var bytes := status + position + velocity + torque + error + tail;
            && bytes[0..2] == status && bytes[2..6] == position && bytes[6..10] == velocity
            && bytes[10..12] == torque && bytes[12..14] == error && bytes[14..] == tail
  {
  }

  lemma TailFields(temperature: seq<Byte>, driveTemperature: seq<Byte>, voltage: seq<Byte>, mode: seq<Byte>, last: seq<Byte>)
    requires |temperature| == 2 && |driveTemperature| == 2 && |voltage| == 2
    ensures var tail := temperature + driveTemperature + voltage + mode + last;
            tail[0..2] == temperature && tail[2..4] == driveTemperature && tail[4..6] == voltage
  {
  }

  /** Feedback is found as the drive stored it, in physical units. */
  lemma TxRoundTrip(tx: TxData, p: MotorParameters, profile: TxProfile)
    requires TxFitsFields(tx)
    ensures var a := ParseTx(TxBytes(tx, profile), p, profile);
            && a.statusWord == tx.statusWord && a.errorCode == tx.errorCode && a.encoderCount == tx.position
            && InRadians(a.pos, tx.position as real - p.countBias, p) && InRadians(a.vel, tx.velocity as real, p)
            && InNewtonMeters(a.tor, tx.torque, p)
            && (if profile == TxExtended then
                  a.temp == tx.motorTemperature && a.driveTemp == tx.driveTemperature && a.voltage == tx.voltage
                else a.temp == a.driveTemp == a.voltage == 0)
  {
    CountsInRadians(tx.position as real - p.countBias, p);
    CountsInRadians(tx.velocity as real, p);
    RawInNewtonMeters(tx.torque, p);
    hide Le, FromLe, SignedFromLe, FitsSigned, FitsUnsigned, RawToTorque, InNewtonMeters;
    UnsignedBack(tx.statusWord, 2);
    SignedBack(tx.position, 4);
    SignedBack(tx.velocity, 4);
    SignedBack(tx.torque, 2);
    UnsignedBack(tx.errorCode, 2);
    var tail := if profile == TxStandard then Le(tx.mode, 1) + Le(0, 1)
                else Le(tx.motorTemperature, 2) + Le(tx.driveTemperature, 2) + Le(tx.voltage, 2) + Le(tx.mode, 1) + Le(0, 1);
    HeadFields(Le(tx.statusWord, 2), Le(tx.position, 4), Le(tx.velocity, 4), Le(tx.torque, 2), Le(tx.errorCode, 2), tail);
    if profile == TxExtended {
      SignedBack(tx.motorTemperature, 2);
      SignedBack(tx.driveTemperature, 2);
      UnsignedBack(tx.voltage, 2);
      TailFields(Le(tx.motorTemperature, 2), Le(tx.driveTemperature, 2), Le(tx.voltage, 2), Le(tx.mode, 1), Le(0, 1));
      var bytes := TxBytes(tx, profile);
      assert bytes[14..16] == bytes[14..][0..2] && bytes[16..18] == bytes[14..][2..4] && bytes[18..20] == bytes[14..][4..6];
    }
  }

  // ----- units

  ghost predicate UnitPolarity(p: MotorParameters) {
    p.polarity == 1.0 || p.polarity == -1.0
  }

  /** Reading c counts where the exact place is x counts: the error in radians is (c - x) steps. */
  lemma ReadBack(value: real, places: real, c: real, s: real, r: real, bias: real)
    requires (s == 1.0 || s == -1.0) && r > 0.0
    requires places == s * (value / (2.0 * PI)) * r + bias && -0.5 <= c - places <= 0.5
    ensures Distance(s * (c - bias) / r * 2.0 * PI, value) <= PI / r
  {
    var turns := value / (2.0 * PI);
    var e := c - places;
    assert c - bias == s * turns * r + e;
    var back := s * (c - bias) / r;
    SplitQuotient(turns, e, r, s, c - bias);
    assert turns * (2.0 * PI) == value;
    var d := e / r;
    HalfQuotient(e, r);
    assert s * (c - bias) / r * 2.0 * PI == value + s * d * 2.0 * PI;
  }

  lemma SplitQuotient(turns: real, e: real, r: real, s: real, counts: real)
    requires (s == 1.0 || s == -1.0) && r > 0.0 && counts == s * turns * r + e
    ensures s * counts / r == turns + s * (e / r)
  {
    assert (turns + s * (e / r)) * r == turns * r + s * e;
    assert s * counts == turns * r + s * e;
  }

  lemma HalfQuotient(e: real, r: real)
    requires r > 0.0 && -0.5 <= e <= 0.5
    ensures -(0.5 / r) <= e / r <= 0.5 / r
    ensures 0.5 / r * 2.0 * PI == PI / r
  {
  }

  /** A commanded position, read back, is within half a count of the clamped one. */
  lemma PositionArrives(t: MotorTarget, p: MotorParameters, profile: RxProfile)
    requires UnitPolarity(p) && p.encoderResolution > 0.0
    ensures Distance(CountsToRad(PackRx(t, p, profile).position, p), Clamp(t.pos, p.minimumPosition, p.maximumPosition))
            <= PI / p.encoderResolution
  {
    hide LRound, Clamp, TargetTorque, ExactCounts;
    var value := ClampPosition(t.pos, p);
    var places := ExactCounts(value, p) + p.countBias;
    assert PackRx(t, p, profile).position == LRound(places);
    RoundNearby(places);
    CountsBack(value, p, LRound(places), p.countBias);
  }

  lemma CountsBack(value: real, p: MotorParameters, c: int, bias: real)
    requires UnitPolarity(p) && p.encoderResolution > 0.0
    requires -0.5 <= c as real - (ExactCounts(value, p) + bias) <= 0.5
    ensures Distance(p.polarity * (c as real - bias) / p.encoderResolution * 2.0 * PI, value) <= PI / p.encoderResolution
  {
    ReadBack(value, ExactCounts(value, p) + bias, c as real, p.polarity, p.encoderResolution, bias);
  }

  /** So is a commanded velocity, which has no offset. */
  lemma VelocityArrives(t: MotorTarget, p: MotorParameters, profile: RxProfile)
    requires UnitPolarity(p) && p.encoderResolution > 0.0
    ensures Distance(CountDeltaToRad(PackRx(t, p, profile).velocity, p), t.vel) <= PI / p.encoderResolution
  {
    hide LRound, ClampPosition, TargetTorque, ExactCounts;
    var c := LRound(ExactCounts(t.vel, p));
    assert PackRx(t, p, profile).velocity == c;
    RoundNearby(ExactCounts(t.vel, p));
    CountsBack(t.vel, p, c, 0.0);
    assert c as real - 0.0 == c as real;
  }

  lemma TruncateNearby(x: real)
    ensures Distance(Truncate(x) as real, x) < 1.0
    ensures (x >= 0.0 ==> 0.0 <= Truncate(x) as real <= x) && (x <= 0.0 ==> x <= Truncate(x) as real <= 0.0)
  {
  }

  /** A commanded torque, read back, is within one raw unit of the clamped one. */
  lemma TorqueArrives(t: MotorTarget, p: MotorParameters, profile: RxProfile)
    requires UnitPolarity(p) && TorqueScale(p) > 0.0 && t.mode != 8 && t.mode != 10
    ensures Distance(RawToTorque(PackRx(t, p, profile).torque, p), Clamp(t.tor, -p.maximumTorque, p.maximumTorque))
            <= TorqueScale(p) / 1000.0
  {
    hide Clamp, Truncate, RadToCounts, RadDeltaToCounts, ExactRaw, RawToTorque, Distance, TorqueScale;
    var value := ClampTorque(t.tor, p);
    assert PackRx(t, p, profile).torque == Truncate(ExactRaw(value, p));
    TruncateNearby(ExactRaw(value, p));
    RawTorqueBack(value, p, Truncate(ExactRaw(value, p)));
  }

  lemma RawTorqueBack(value: real, p: MotorParameters, c: int)
    requires UnitPolarity(p) && TorqueScale(p) > 0.0 && Distance(c as real, ExactRaw(value, p)) < 1.0
    ensures Distance(RawToTorque(c, p), value) <= TorqueScale(p) / 1000.0
  {
    DividedBack(p.polarity * 1000.0 * value, TorqueScale(p));
    RawBack(value, ExactRaw(value, p), c as real, p.polarity, TorqueScale(p));
    Regroup(p.polarity * c as real / 1000.0, p.ratedCurrent, p.torqueConstant);
  }

  lemma DividedBack(x: real, y: real)
    requires y != 0.0
    ensures (x / y) * y == x
  {
  }

  lemma Regroup(x: real, y: real, z: real)
    ensures x * y * z == x * (z * y)
  {
  }

  lemma RawBack(value: real, raw: real, c: real, s: real, scale: real)
    requires (s == 1.0 || s == -1.0) && scale > 0.0
    requires raw * scale == s * 1000.0 * value && Distance(c, raw) < 1.0
    ensures Distance(s * c / 1000.0 * scale, value) <= scale / 1000.0
  {
    var e := c - raw;
    assert s * c * scale == s * raw * scale + s * e * scale;
    assert s * raw * scale == 1000.0 * value;
    Shrink(e, scale);
    assert s * c / 1000.0 * scale == s * c * scale / 1000.0;
    assert s * c * scale / 1000.0 == value + s * e * scale / 1000.0;
  }

  lemma Shrink(e: real, scale: real)
    requires -1.0 <= e <= 1.0 && scale > 0.0
    ensures -scale <= e * scale <= scale
  {
  }

  // ----- what a target becomes

  function CurrentLimit(t: MotorTarget): int {
    if t.maxCurrent < 0 then 0 else t.maxCurrent
  }

  /** The clamped target torque in thousandths, in the motor's direction. */
  function WantedTorque(t: MotorTarget, p: MotorParameters): real {
    1000.0 * p.polarity * Clamp(t.tor, -p.maximumTorque, p.maximumTorque)
  }

  /** How far a raw torque lies from the wanted one. */
  function Miss(raw: int, scale: real, wanted: real): real {
    Distance(raw as real * scale, wanted)
  }

  /** Within the limit, and nothing else within it comes closer. */
  ghost predicate NearestWithin(raw: int, limit: int, scale: real, wanted: real) {
    -limit <= raw <= limit && forall k :: -limit <= k <= limit ==> Miss(raw, scale, wanted) <= Miss(k, scale, wanted)
  }

  /** No torque in velocity mode or without a scale; a nearest one within the current limit in torque
      mode; otherwise within one raw unit. */
  ghost predicate TorqueUnderstood(raw: int, t: MotorTarget, p: MotorParameters) {
    var scale := TorqueScale(p);
    if t.mode == 8 || scale == 0.0 then raw == 0
    else if t.mode == 10 then
      NearestWithin(raw, CurrentLimit(t), scale, WantedTorque(t, p))
    else
      UnitPolarity(p) && scale > 0.0 ==>
        Distance(RawToTorque(raw, p), Clamp(t.tor, -p.maximumTorque, p.maximumTorque)) <= scale / 1000.0
  }

  /** A command that says what the target says, as far as the layout has room for it. */
  ghost predicate Understood(rx: RxData, t: MotorTarget, p: MotorParameters) {
    && rx.mode == t.mode
    && (UnitPolarity(p) && p.encoderResolution > 0.0 ==>
          && Distance(CountsToRad(rx.position, p), Clamp(t.pos, p.minimumPosition, p.maximumPosition)) <= PI / p.encoderResolution
          && Distance(CountDeltaToRad(rx.velocity, p), t.vel) <= PI / p.encoderResolution)
    && TorqueUnderstood(rx.torque, t, p)
    && match rx
       case StandardRx(_, _, _, _, maxTorque, _) => maxTorque == if t.maxCurrent < 0 then 0 else t.maxCurrent
       case PvtRx(_, _, _, _, kp, kd, _) => GainUnderstood(kp, t.kp, t.mode) && GainUnderstood(kd, t.kd, t.mode)
  }

  /** A gain is sent in thousandths, in mode 5 only. */
  ghost predicate GainUnderstood(sent: int, gain: real, mode: int) {
    if mode == 5 then Distance(sent as real / 1000.0, gain) <= 0.0005 else sent == 0
  }

  lemma RoundedIsNearest(x: real, k: int)
    ensures Distance(LRound(x) as real, x) <= Distance(k as real, x)
  {
    RoundNearby(x);
    var r := LRound(x);
    assert k <= r - 1 || k == r || k >= r + 1;
  }

  function Size(x: real): real {
    if x < 0.0 then -x else x
  }

  lemma ScaledMiss(k: real, x: real, y: real, scale: real)
    requires x * scale == y
    ensures Distance(k * scale, y) == Distance(k, x) * Size(scale)
  {
    assert k * scale - y == (k - x) * scale;
    if scale < 0.0 {
      Signs(k - x, -scale);
    } else {
      Signs(k - x, scale);
    }
  }

  lemma Signs(d: real, s: real)
    requires s >= 0.0
    ensures (d >= 0.0 ==> d * s >= 0.0) && (d <= 0.0 ==> d * s <= 0.0)
    ensures d * -s == -(d * s) && -d * s == -(d * s)
  {
  }

  lemma AtMostScaled(d: real, e: real, s: real)
    requires d <= e && s >= 0.0
    ensures d * s <= e * s
  {
  }

  lemma MissIs(k: int, x: real, scale: real, wanted: real)
    requires x * scale == wanted
    ensures Miss(k, scale, wanted) == Distance(k as real, x) * Size(scale)
  {
    ScaledMiss(k as real, x, wanted, scale);
  }

  lemma ExactRawTimes(torque: real, p: MotorParameters)
    requires TorqueScale(p) != 0.0
    ensures ExactRaw(torque, p) * TorqueScale(p) == 1000.0 * p.polarity * torque
  {
    DividedBack(p.polarity * 1000.0 * torque, TorqueScale(p));
  }

  /** In torque mode the stored torque keeps the current limit, and among the values that do it is a
      nearest one to the clamped torque. */
  lemma LimitedTorqueIsNearest(t: MotorTarget, p: MotorParameters, profile: RxProfile, k: int)
    requires t.mode == 10 && TorqueScale(p) != 0.0
    requires -CurrentLimit(t) <= k <= CurrentLimit(t)
    ensures var raw, scale := PackRx(t, p, profile).torque, TorqueScale(p);
            && -CurrentLimit(t) <= raw <= CurrentLimit(t)
            && Miss(raw, scale, WantedTorque(t, p)) <= Miss(k, scale, WantedTorque(t, p))
  {
    hide LRound, Clamp, ExactRaw, RadToCounts, RadDeltaToCounts, Miss, TorqueToRawLimited, Distance, Size, TorqueScale;
    var scale := TorqueScale(p);
    var torque, raw := Clamp(t.tor, -p.maximumTorque, p.maximumTorque), PackRx(t, p, profile).torque;
    assert raw == TorqueToRawLimited(torque, p, t.maxCurrent);
    LimitedIsNearest(torque, p, t.maxCurrent, k);
    ExactRawTimes(torque, p);
    var x := ExactRaw(torque, p);
    MissIs(k, x, scale, WantedTorque(t, p));
    MissIs(raw, x, scale, WantedTorque(t, p));
    SizeNotNegative(scale);
    AtMostScaled(Distance(raw as real, x), Distance(k as real, x), Size(scale));
  }

  lemma SizeNotNegative(x: real)
    ensures Size(x) >= 0.0
  {
  }

  lemma LimitedIsNearest(wanted: real, p: MotorParameters, maxCurrent: int, k: int)
    requires TorqueScale(p) != 0.0
    requires var limit := if maxCurrent < 0 then 0 else maxCurrent; -limit <= k <= limit
    ensures var limit, raw := if maxCurrent < 0 then 0 else maxCurrent, TorqueToRawLimited(wanted, p, maxCurrent);
            -limit <= raw <= limit && Distance(raw as real, ExactRaw(wanted, p)) <= Distance(k as real, ExactRaw(wanted, p))
  {
    hide LRound, ExactRaw, TorqueScale;
    RoundedIsNearest(ExactRaw(wanted, p), k);
    RoundNearby(ExactRaw(wanted, p));
  }

  lemma GainArrives(gain: real)
    ensures Distance(LRound(gain * 1000.0) as real / 1000.0, gain) <= 0.0005
  {
    RoundNearby(gain * 1000.0);
  }

  lemma TorqueIsUnderstood(t: MotorTarget, p: MotorParameters, profile: RxProfile)
    ensures TorqueUnderstood(PackRx(t, p, profile).torque, t, p)
  {
    hide RadToCounts, RadDeltaToCounts, LRound, Clamp, Distance, RawToTorque, Miss, WantedTorque, TorqueScale;
    var raw, scale, wanted := PackRx(t, p, profile).torque, TorqueScale(p), WantedTorque(t, p);
    if t.mode != 8 && t.mode != 10 && UnitPolarity(p) && scale > 0.0 {
      TorqueArrives(t, p, profile);
    }
    if t.mode == 10 && scale != 0.0 {
      LimitedTorqueIsNearest(t, p, profile, 0);
      forall k | -CurrentLimit(t) <= k <= CurrentLimit(t) ensures Miss(raw, scale, wanted) <= Miss(k, scale, wanted) {
        LimitedTorqueIsNearest(t, p, profile, k);
      }
      assert NearestWithin(raw, CurrentLimit(t), scale, wanted);
    }
  }

  /** Packing a target makes a command that says what the target says. */
  lemma PackedIsUnderstood(t: MotorTarget, p: MotorParameters, profile: RxProfile)
    ensures Understood(PackRx(t, p, profile), t, p)
    ensures PackRx(t, p, profile).controlWord == if t.enabled == 1 then 0x000f else 0x0006
  {
    hide RadToCounts, RadDeltaToCounts, LRound, Clamp, Distance, CountsToRad, CountDeltaToRad, TorqueUnderstood;
    if UnitPolarity(p) && p.encoderResolution > 0.0 {
      PositionArrives(t, p, profile);
      VelocityArrives(t, p, profile);
    }
    TorqueIsUnderstood(t, p, profile);
    GainArrives(t.kp);
    GainArrives(t.kd);
  }

  // ----- targets that fit their fields

  ghost predicate Int32(x: real) {
    -2147483648.0 <= x <= 2147483647.0
  }

  ghost predicate Int16(x: real) {
    -32768.0 <= x <= 32767.0
  }

  /** The exact values, before rounding, lie in the range of their fields. */
  ghost predicate Encodable(t: MotorTarget, p: MotorParameters) {
    && Int32(ExactCounts(Clamp(t.pos, p.minimumPosition, p.maximumPosition), p) + p.countBias)
    && Int32(ExactCounts(t.vel, p))
    && (TorqueScale(p) != 0.0 ==> Int16(ExactRaw(Clamp(t.tor, -p.maximumTorque, p.maximumTorque), p)))
    && -128 <= t.mode < 128 && t.maxCurrent < 0x1_0000
    && (t.mode == 5 ==> Int32(t.kp * 1000.0) && Int32(t.kd * 1000.0))
  }

  lemma RoundedFits(x: real)
    ensures Int32(x) ==> FitsSigned(LRound(x), 4)
    ensures Int16(x) ==> FitsSigned(LRound(x), 2) && FitsSigned(Truncate(x), 2)
  {
    Ranges();
    hide Range;
  }

  lemma Ranges()
    ensures Range(1) == 0x100 && Range(2) == 0x1_0000 && Range(4) == 0x1_0000_0000
  {
    assert Range(3) == 0x100_0000;
  }

  lemma LimitedFits(raw: int, limit: int)
    requires FitsSigned(raw, 2) && limit >= 0
    ensures FitsSigned(if raw > limit then limit else if raw < -limit then -limit else raw, 2)
  {
    Ranges();
    hide Range;
  }

  lemma TorqueFits(t: MotorTarget, p: MotorParameters)
    requires Encodable(t, p)
    ensures FitsSigned(TargetTorque(t, p), 2)
  {
    hide Clamp, FitsSigned, LRound, Truncate, ExactRaw, TorqueScale, ExactCounts;
    assert FitsSigned(0, 2) by {
      RoundedFits(0.0);
      LimitedFits(LRound(0.0), 0);
      ZeroFits();
    }
    if TorqueScale(p) != 0.0 {
      var wanted := Clamp(t.tor, -p.maximumTorque, p.maximumTorque);
      var exact := ExactRaw(wanted, p);
      assert ClampTorque(t.tor, p) == wanted;
      RoundedFits(exact);
      LimitedFits(LRound(exact), if t.maxCurrent < 0 then 0 else t.maxCurrent);
    }
  }

  lemma ZeroFits()
    ensures FitsSigned(0, 2) && FitsSigned(0, 4)
  {
    Ranges();
  }

  lemma EncodableFits(t: MotorTarget, p: MotorParameters, profile: RxProfile)
    requires Encodable(t, p)
    ensures RxFitsFields(PackRx(t, p, profile))
  {
    hide Clamp, FitsSigned, LRound, TargetTorque, ExactCounts, ExactRaw, TorqueScale;
    TorqueFits(t, p);
    ZeroFits();
    RoundedFits(ExactCounts(ClampPosition(t.pos, p), p) + p.countBias);
    RoundedFits(ExactCounts(t.vel, p));
    RoundedFits(t.kp * 1000.0);
    RoundedFits(t.kd * 1000.0);
    Ranges();
    ModeFits(t.mode);
    hide Range;
  }

  lemma ModeFits(mode: int)
    requires -128 <= mode < 128
    ensures FitsSigned(mode, 1)
  {
    Ranges();
  }

  /** What the drive reads out of the bytes of a packed target, whatever control word is put in their
      place: that control word, and a command that says what the target says. */
  lemma TargetArrives(t: MotorTarget, p: MotorParameters, profile: RxProfile, word: nat)
    requires Encodable(t, p) && word < 0x1_0000
    ensures var rx := ReadRx(RxBytes(PackRx(t, p, profile).(controlWord := word)), profile);
            rx.controlWord == word && Understood(rx, t, p)
  {
    hide Encodable, Understood, PackRx, RxBytes, ReadRx;
    EncodableFits(t, p, profile);
    PackedIsUnderstood(t, p, profile);
    var rx := PackRx(t, p, profile).(controlWord := word);
    WordReplaced(PackRx(t, p, profile), t, p, word);
    RxRoundTrip(rx);
  }

  lemma WordReplaced(rx: RxData, t: MotorTarget, p: MotorParameters, word: nat)
    requires RxFitsFields(rx) && Understood(rx, t, p) && word < 0x1_0000
    ensures RxFitsFields(rx.(controlWord := word)) && Understood(rx.(controlWord := word), t, p)
    ensures ProfileOf(rx.(controlWord := word)) == ProfileOf(rx)
  {
    Ranges();
    hide Range, TorqueUnderstood, Distance;
  }
}
