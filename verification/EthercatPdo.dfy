/** Process data objects of the MT_Device drives: little-endian layouts, the control word, the
    packers and parsers, and the command watchdog. */
module EthercatPdo {
  import opened RmdTypes
  import BitArithmetic

  datatype RxProfile = RxStandard | RxPvt
  datatype TxProfile = TxStandard | TxExtended

  const STANDARD_SIZE: nat := 16
  const EXTENDED_SIZE: nat := 22

  function RxSize(p: RxProfile): nat {
    match p
    case RxStandard => STANDARD_SIZE
    case RxPvt => EXTENDED_SIZE
  }

  function TxSize(p: TxProfile): nat {
    match p
    case TxStandard => STANDARD_SIZE
    case TxExtended => EXTENDED_SIZE
  }

  // ----- little-endian fields

  function Le(value: int, size: nat): (bytes: seq<Byte>)
    ensures |bytes| == size
    decreases size
  {
    if size == 0 then [] else [value % 0x100] + Le(value / 0x100, size - 1)
  }

  function FromLe(bytes: seq<Byte>): nat {
    if bytes == [] then 0 else bytes[0] + 0x100 * FromLe(bytes[1..])
  }

  function SignedFromLe(bytes: seq<Byte>): int {
    var v, range := FromLe(bytes), Range(|bytes|);
    if 2 * v < range then v else v - range
  }

  function Range(size: nat): (r: nat)
    ensures r > 0
  {
    if size == 0 then 1 else 0x100 * Range(size - 1)
  }

  /** Storing a value and reading it back keeps it modulo the width of the field. */
  lemma {:induction false} LeRoundTrip(value: int, size: nat)
    ensures FromLe(Le(value, size)) == value % Range(size)
    decreases size
  {
    if size > 0 {
      var r := Range(size - 1);
      LeRoundTrip(value / 0x100, size - 1);
      assert Le(value, size)[1..] == Le(value / 0x100, size - 1);
      NestedMod(value, r);
    }
  }

  lemma NestedMod(v: int, r: nat)
    requires r > 0
    ensures v % (0x100 * r) == v % 0x100 + 0x100 * ((v / 0x100) % r)
  {
    var q, m := (v / 0x100) / r, (v / 0x100) % r;
    var low := v % 0x100 + 0x100 * m;
    assert v / 0x100 == r * q + m;
    assert 0x100 * (r * q) == (0x100 * r) * q;
    assert v == (0x100 * r) * q + low;
    BitArithmetic.DivModUnique(v, 0x100 * r, q, low);
  }

  lemma SignedRoundTrip(value: int, size: nat)
    requires 0 <= Range(size) + 2 * value && 2 * value < Range(size)
    ensures SignedFromLe(Le(value, size)) == value
  {
    LeRoundTrip(value, size);
    if value >= 0 {
      BitArithmetic.DivModUnique(value, Range(size), 0, value);
    } else {
      BitArithmetic.DivModUnique(value, Range(size), -1, value + Range(size));
    }
  }

  // ----- the control word

  const DISABLE: nat := 0x0006
  const SWITCH_ON: nat := 0x0007
  const ENABLE_OPERATION: nat := 0x000f
  const FAULT_RESET: nat := 0x0086

  /** The word for a motor's request and its status: the fault is reset on request -1, power is switched on
      and the operation enabled on request 1 in the states that call for it, in all other cases the motor
      is told to disable. */
  function ControlWord(enabled: int, statusWord: nat): (word: nat)
    ensures word in {0x0006, 0x0007, 0x000f, 0x0086} && (word == 0x0086 <==> enabled == -1)
    ensures word == 0x0007 <==> enabled == 1 && statusWord % 0x80 == 0x31
    ensures word == 0x000f <==> enabled == 1 && statusWord % 0x80 in {0x33, 0x37}
  {
    if enabled == -1 then FAULT_RESET
    else if enabled != 1 then DISABLE
    else
      var s := statusWord % 0x80;
      if s == 0x31 then SWITCH_ON
      else if s == 0x33 || s == 0x37 then ENABLE_OPERATION
      else DISABLE
  }

  // ----- units

  /** A turn of so many radians in counts, before rounding. */
  function ExactCounts(rad: real, p: MotorParameters): real {
    p.polarity * (rad / (2.0 * PI)) * p.encoderResolution
  }

  function RadToCounts(rad: real, p: MotorParameters): int {
    LRound(ExactCounts(rad, p) + p.countBias)
  }

  function RadDeltaToCounts(rad: real, p: MotorParameters): int {
    LRound(ExactCounts(rad, p))
  }

  function CountsToRad(counts: int, p: MotorParameters): real {
    if p.encoderResolution == 0.0 then 0.0
    else p.polarity * (counts as real - p.countBias) / p.encoderResolution * 2.0 * PI
  }

  function CountDeltaToRad(counts: int, p: MotorParameters): real {
    if p.encoderResolution == 0.0 then 0.0
    else p.polarity * counts as real / p.encoderResolution * 2.0 * PI
  }

  function TorqueScale(p: MotorParameters): real {
    p.torqueConstant * p.ratedCurrent
  }

  function ExactRaw(torque: real, p: MotorParameters): real
    requires TorqueScale(p) != 0.0
  {
    p.polarity * 1000.0 * torque / TorqueScale(p)
  }

  function TorqueToRaw(torque: real, p: MotorParameters): int {
    if TorqueScale(p) == 0.0 then 0 else Truncate(ExactRaw(torque, p))
  }

  function TorqueToRawLimited(torque: real, p: MotorParameters, maxCurrent: int): int {
    if TorqueScale(p) == 0.0 then 0
    else
      var raw := LRound(ExactRaw(torque, p));
      var limit := if maxCurrent < 0 then 0 else maxCurrent;
      if raw > limit then limit else if raw < -limit then -limit else raw
  }

  function RawToTorque(raw: int, p: MotorParameters): real {
    p.polarity * raw as real / 1000.0 * p.ratedCurrent * p.torqueConstant
  }

  function ClampPosition(value: real, p: MotorParameters): real {
    Clamp(value, p.minimumPosition, p.maximumPosition)
  }

  function ClampTorque(value: real, p: MotorParameters): real {
    Clamp(value, -p.maximumTorque, p.maximumTorque)
  }

  // ----- packers

  datatype RxData =
    | StandardRx(controlWord: int, position: int, velocity: int, torque: int, maxTorque: int, mode: int)
    | PvtRx(controlWord: int, position: int, velocity: int, torque: int, kp: int, kd: int, mode: int)

  /** The packed struct in memory; fields are cut to their widths, the last byte is zero. */
  function RxBytes(rx: RxData): (bytes: seq<Byte>)
    ensures |bytes| == match rx case StandardRx(_, _, _, _, _, _) => STANDARD_SIZE case PvtRx(_, _, _, _, _, _, _) => EXTENDED_SIZE
  {
    match rx
    case StandardRx(word, position, velocity, torque, maxTorque, mode) =>
      Le(word, 2) + Le(position, 4) + Le(velocity, 4) + Le(torque, 2) + Le(maxTorque, 2) + Le(mode, 1) + Le(0, 1)
    case PvtRx(word, position, velocity, torque, kp, kd, mode) =>
      Le(word, 2) + Le(position, 4) + Le(velocity, 4) + Le(torque, 2) + Le(kp, 4) + Le(kd, 4) + Le(mode, 1) + Le(0, 1)
  }

  function TargetTorque(t: MotorTarget, p: MotorParameters): int {
    if t.mode == 8 then 0
    else if t.mode == 10 then TorqueToRawLimited(ClampTorque(t.tor, p), p, t.maxCurrent)
    else TorqueToRaw(ClampTorque(t.tor, p), p)
  }

  function PackRx(t: MotorTarget, p: MotorParameters, profile: RxProfile): (rx: RxData)
    ensures match profile case RxStandard => rx.StandardRx? case RxPvt => rx.PvtRx?
  {
    var word := if t.enabled == 1 then ENABLE_OPERATION else DISABLE;
    var position := RadToCounts(ClampPosition(t.pos, p), p);
    var velocity := RadDeltaToCounts(t.vel, p);
    match profile
    case RxStandard =>
      StandardRx(word, position, velocity, TargetTorque(t, p), if t.maxCurrent < 0 then 0 else t.maxCurrent, t.mode)
    case RxPvt =>
      PvtRx(word, position, velocity, TargetTorque(t, p),
            if t.mode == 5 then LRound(t.kp * 1000.0) else 0,
            if t.mode == 5 then LRound(t.kd * 1000.0) else 0,
            t.mode)
  }

  type PackedBytes = s: seq<Byte> | |s| == EXTENDED_SIZE witness seq(EXTENDED_SIZE, _ => 0)

  datatype PackedTarget = PackedTarget(enabled: int, rxProfile: RxProfile, rxBytes: PackedBytes)

  function ZeroBytes(n: nat): (s: seq<Byte>)
    ensures |s| == n
  {
    seq(n, _ => 0)
  }

  const DEFAULT_PACKED := PackedTarget(0, RxStandard, ZeroBytes(EXTENDED_SIZE))

  type PackedTargets = s: seq<PackedTarget> | |s| == MAX_REALTIME_MOTORS
    witness seq(MAX_REALTIME_MOTORS, _ => DEFAULT_PACKED)

  datatype PackedTargetFrame = PackedTargetFrame(
    sequence: nat, timestamp: int, targets: PackedTargets, valid: set<nat>)

  /** Packed once by the user thread; the realtime thread copies the bytes. */
  function PackTargetForRealtime(t: MotorTarget, p: MotorParameters, profile: RxProfile): PackedTarget {
    var bytes := RxBytes(PackRx(t, p, profile));
    PackedTarget(t.enabled, profile, bytes + ZeroBytes(EXTENDED_SIZE - |bytes|))
  }

  // ----- the command watchdog

  /** The command is at least `timeout` old; a zero timestamp marks a frame nobody sent. */
  predicate Expired(frame: PackedTargetFrame, now: int, timeout: int) {
    timeout > 0 && frame.timestamp != 0 && now - frame.timestamp >= timeout
  }

  function Disabled(t: PackedTarget): PackedTarget {
    t.(enabled := 0)
  }

  /** The frame the watchdog leaves behind. */
  ghost predicate Watched(frame: PackedTargetFrame, now: int, timeout: int, after: PackedTargetFrame) {
    if !Expired(frame, now, timeout) then after == frame
    else
      && after.sequence == frame.sequence && after.timestamp == frame.timestamp && after.valid == frame.valid
      && forall i :: 0 <= i < MAX_REALTIME_MOTORS ==>
           after.targets[i] == if i in frame.valid then Disabled(frame.targets[i]) else frame.targets[i]
  }

  function CountEnabled(frame: PackedTargetFrame, n: nat): nat
    requires n <= MAX_REALTIME_MOTORS
  {
    if n == 0 then 0
    else CountEnabled(frame, n - 1) + (if n - 1 in frame.valid && frame.targets[n - 1].enabled != 0 then 1 else 0)
  }

  /** applyEthercatCommandWatchdog: disables every commanded motor once the command is too old,
      and counts the motors it had to disable. */
  method ApplyCommandWatchdog(frame: PackedTargetFrame, now: int, timeout: int)
    returns (after: PackedTargetFrame, cleared: nat)
    ensures Watched(frame, now, timeout, after)
    ensures cleared == if Expired(frame, now, timeout) then CountEnabled(frame, MAX_REALTIME_MOTORS) else 0
  {
    after, cleared := frame, 0;
    if timeout <= 0 || frame.timestamp == 0 {
      return;
    }
    if now - frame.timestamp < timeout {
      return;
    }
    for i := 0 to MAX_REALTIME_MOTORS
      invariant after.sequence == frame.sequence && after.timestamp == frame.timestamp && after.valid == frame.valid
      invariant forall j :: 0 <= j < i ==>
                  after.targets[j] == if j in frame.valid then Disabled(frame.targets[j]) else frame.targets[j]
      invariant forall j :: i <= j < MAX_REALTIME_MOTORS ==> after.targets[j] == frame.targets[j]
      invariant cleared == CountEnabled(frame, i)
    {
      if i !in frame.valid {
        continue;
      }
      if after.targets[i].enabled != 0 {
        after := after.(targets := after.targets[i := after.targets[i].(enabled := 0)]);
        cleared := cleared + 1;
      }
    }
  }

  // ----- parsers

  /** Status, position, velocity, torque and error sit at the same place in both Tx layouts. */
  function ParseTx(bytes: seq<Byte>, p: MotorParameters, profile: TxProfile): MotorActual
    requires |bytes| == TxSize(profile)
  {
    var count := SignedFromLe(bytes[2..6]);
    var actual := DEFAULT_ACTUAL.(
      encoderCount := count,
      pos := CountsToRad(count, p),
      vel := CountDeltaToRad(SignedFromLe(bytes[6..10]), p),
      tor := RawToTorque(SignedFromLe(bytes[10..12]), p),
      statusWord := FromLe(bytes[0..2]),
      errorCode := FromLe(bytes[12..14]));
    match profile
    case TxStandard => actual
    case TxExtended =>
      actual.(temp := SignedFromLe(bytes[14..16]), driveTemp := SignedFromLe(bytes[16..18]), voltage := FromLe(bytes[18..20]))
  }
}
