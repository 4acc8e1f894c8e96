/** The CAN transmit loop: a command frame for every motor in every tick, and a status request to every
    motor in every twentieth. */
module CanTransmit {
  import opened RmdTypes
  import opened MitCodec
  import opened RealArithmetic
  import CanReceive
  import DriverSdk

  datatype CanMessage = CanMessage(id: int, data: seq<Byte>)

  const STATUS_PERIOD: nat := 20
  const STATUS2_REQUEST: seq<Byte> := [STATUS2_COMMAND, 0, 0, 0, 0, 0, 0, 0]

  function StandardTxId(motorId: int): int {
    0x140 + motorId
  }

  function MitTxId(motorId: int): int {
    0x400 + motorId
  }

  // ----- what a motor is told

  function TorqueRange(p: MotorParameters): (limit: real)
    ensures limit > 0.0
  {
    if p.maximumTorque > 0.0 then p.maximumTorque else 24.0
  }

  /** A command frame tells an enabled motor its limited target, every value within half a step, and any
      other motor to stay limp. */
  ghost predicate Tells(data: seq<Byte>, t: MotorTarget, p: MotorParameters)
    requires |data| == 8
  {
    var c, limit := UnpackCommand(data), TorqueRange(p);
    if t.enabled == 1 then
      && Within(c.p, Clamp(t.pos, p.minimumPosition, p.maximumPosition), -12.566, 12.566, 16)
      && Within(c.v, t.vel, -45.0, 45.0, 12)
      && Within(c.kp, t.kp, 0.0, 500.0, 12) && Within(c.kd, t.kd, 0.0, 50.0, 12)
      && Within(c.torque, Clamp(t.tor, -p.maximumTorque, p.maximumTorque), -limit, limit, 12)
    else
      && c.kp == 0 && c.kd == 0 && Within(c.v, 0.0, -45.0, 45.0, 12)
      && (p.maximumTorque >= 0.0 ==> Within(c.torque, 0.0, -limit, limit, 12))
  }

  lemma ClampedFirst(code: nat, value: real, min: real, max: real, bits: nat)
    requires bits > 0 && min <= max && Within(code, Clamp(value, min, max), min, max, bits)
    ensures Within(code, value, min, max, bits)
  {
    hide Clamp;
    ClampTwice(value, min, max);
  }

  lemma ZeroCode(max: real)
    requires max > 0.0
    ensures FloatToUint(0.0, 0.0, max, 12) == 0
  {
    hide Place, MaxCode;
    EndPlaces(0.0, max, MaxCode(12) as real);
  }

  /** Halving a scale of 4095 steps falls between two codes: the motor that is told no torque is told half
      a step. */
  lemma ZeroTorqueIsHalfAStep(limit: real)
    requires limit > 0.0
    ensures FloatToUint(0.0, -limit, limit, 12) == 2048 && UintToFloat(2048, -limit, limit, 12) == limit / 4095.0
  {
    Widths();
    hide MaxCode;
    HalfPlace(limit);
    HalfValue(limit);
  }

  lemma HalfPlace(limit: real)
    requires limit > 0.0
    ensures Place(0.0, -limit, limit, 4095.0) == 2047.5
  {
    QuotientUnique(limit * 4095.0, limit + limit, 2047.5);
    assert (0.0 - -limit) * 4095.0 == limit * 4095.0 && limit - -limit == limit + limit;
  }

  lemma HalfValue(limit: real)
    requires limit > 0.0
    ensures Value(2048.0, -limit, limit, 4095.0) == limit / 4095.0
  {
  }

  /** The frame packed for a limited target. */
  function CommandData(t: MotorTarget, p: MotorParameters): (data: seq<Byte>)
    ensures |data| == 8
  {
    PackMit(t.pos, t.vel, t.kp, t.kd, t.tor, p.maximumTorque)
  }

  lemma EnabledIsTold(t: MotorTarget, p: MotorParameters)
    requires t.enabled == 1
    ensures Tells(CommandData(DriverSdk.LimitTarget(t, p), p), t, p)
  {
    hide PackMit, UnpackCommand, Within, Clamp;
    var limited := DriverSdk.LimitTarget(t, p);
    CommandArrives(limited.pos, limited.vel, limited.kp, limited.kd, limited.tor, p.maximumTorque);
    var c := UnpackCommand(CommandData(limited, p));
    ClampedFirst(c.kp, t.kp, 0.0, 500.0, 12);
    ClampedFirst(c.kd, t.kd, 0.0, 50.0, 12);
  }

  lemma ZeroIsLimited(p: MotorParameters)
    ensures var t := DriverSdk.LimitTarget(DEFAULT_TARGET, p);
            t.vel == 0.0 && t.kp == 0.0 && t.kd == 0.0 && (p.maximumTorque >= 0.0 ==> t.tor == 0.0)
  {
  }

  lemma OtherIsLimp(t: MotorTarget, p: MotorParameters)
    requires t.enabled != 1
    ensures Tells(CommandData(DriverSdk.LimitTarget(DEFAULT_TARGET, p), p), t, p)
  {
    var zero := DriverSdk.LimitTarget(DEFAULT_TARGET, p);
    ZeroIsLimited(p);
    CommandArrives(zero.pos, zero.vel, zero.kp, zero.kd, zero.tor, p.maximumTorque);
    hide PackCommand, UnpackCommand, Within, Clamp, FloatToUint;
    CommandRoundTrip(CommandFor(zero.pos, 0.0, 0.0, 0.0, zero.tor, PositiveTorqueLimit(p.maximumTorque)));
    ZeroCode(KP_MAX);
    ZeroCode(KD_MAX);
  }

  // ----- the loop

  /** What is sent in one tick. */
  ghost predicate SentInTick(sent: seq<CanMessage>, motors: seq<RuntimeMotor>, targets: MotorTargetFrame, tick: nat)
    requires CanReceive.IndexesOk(motors)
  {
    var n := |motors|;
    && |sent| == (if tick % 20 == 0 then n + n else n)
    && (forall k :: 0 <= k < n ==> IsCommand(sent[k], motors[k], targets))
    && (tick % 20 == 0 ==> forall k :: 0 <= k < n ==> sent[n + k] == StatusRequest(motors[k]))
  }

  ghost predicate IsCommand(message: CanMessage, m: RuntimeMotor, targets: MotorTargetFrame)
    requires m.globalIndex < MAX_REALTIME_MOTORS
  {
    && message.id == 0x400 + m.motorId && |message.data| == 8
    && Tells(message.data, targets.targets[m.globalIndex], m.parameters)
  }

  function StatusRequest(m: RuntimeMotor): CanMessage {
    CanMessage(0x140 + m.motorId, [0x9c, 0, 0, 0, 0, 0, 0, 0])
  }

  method SendTick(motors: seq<RuntimeMotor>, targets: MotorTargetFrame, tick: nat) returns (sent: seq<CanMessage>)
    requires CanReceive.IndexesOk(motors)
    ensures SentInTick(sent, motors, targets, tick)
  {
    hide Tells, CommandData, DriverSdk.LimitTarget;
    sent := [];
    for k := 0 to |motors|
      invariant |sent| == k && forall j :: 0 <= j < k ==> IsCommand(sent[j], motors[j], targets)
    {
      var motor := motors[k];
      var target := targets.targets[motor.globalIndex];
      if target.enabled != 1 {
        OtherIsLimp(target, motor.parameters);
        target := DEFAULT_TARGET;
      } else {
        EnabledIsTold(target, motor.parameters);
      }
      var limited := DriverSdk.LimitTarget(target, motor.parameters);
      sent := sent + [CanMessage(MitTxId(motor.motorId), CommandData(limited, motor.parameters))];
    }
    if tick % STATUS_PERIOD == 0 {
      for k := 0 to |motors|
        invariant |sent| == |motors| + k
        invariant forall j :: 0 <= j < |motors| ==> IsCommand(sent[j], motors[j], targets)
        invariant forall j :: 0 <= j < k ==> sent[|motors| + j] == StatusRequest(motors[j])
      {
        sent := sent + [CanMessage(StandardTxId(motors[k].motorId), STATUS2_REQUEST)];
      }
    }
  }

  /** The loop until it is stopped; `frames` are the target frames read meanwhile. */
  method TxLoop(motors: seq<RuntimeMotor>, frames: seq<MotorTargetFrame>) returns (sent: seq<seq<CanMessage>>)
    requires CanReceive.IndexesOk(motors)
    ensures |sent| == |frames| && forall i :: 0 <= i < |sent| ==> SentInTick(sent[i], motors, frames[i], i)
  {
    hide SentInTick;
    sent := [];
    for tick := 0 to |frames|
      invariant |sent| == tick && forall i :: 0 <= i < tick ==> SentInTick(sent[i], motors, frames[i], i)
    {
      var messages := SendTick(motors, frames[tick], tick);
      sent := sent + [messages];
    }
  }

  lemma InTick(sent: seq<CanMessage>, motors: seq<RuntimeMotor>, targets: MotorTargetFrame, tick: nat)
    requires CanReceive.IndexesOk(motors) && SentInTick(sent, motors, targets, tick)
    ensures if tick % 20 == 0 then forall m :: m in motors ==> StatusRequest(m) in sent else |sent| == |motors|
  {
    hide IsCommand, StatusRequest;
    if tick % 20 == 0 {
      forall m | m in motors ensures StatusRequest(m) in sent {
        var k :| 0 <= k < |motors| && motors[k] == m;
        assert sent[|motors| + k] == StatusRequest(m);
      }
    }
  }

  lemma OneOfTwenty(i: nat) returns (j: nat)
    ensures i <= j < i + 20 && j % 20 == 0 && forall t :: i <= t < i + 20 && t != j ==> t % 20 != 0
  {
    j := if i % 20 == 0 then i else i + 20 - i % 20;
  }

  /** In any twenty ticks in a row every motor is asked for its status, in one and the same tick. */
  lemma StatusIsRequested(motors: seq<RuntimeMotor>, frames: seq<MotorTargetFrame>, sent: seq<seq<CanMessage>>, i: nat)
    returns (j: nat)
    requires CanReceive.IndexesOk(motors) && i + 20 <= |sent| == |frames|
    requires forall t :: 0 <= t < |sent| ==> SentInTick(sent[t], motors, frames[t], t)
    ensures i <= j < i + 20 && forall m :: m in motors ==> StatusRequest(m) in sent[j]
    ensures forall t :: i <= t < i + 20 && t != j ==> |sent[t]| == |motors|
  {
    hide SentInTick, StatusRequest;
    j := OneOfTwenty(i);
    InTick(sent[j], motors, frames[j], j);
    forall t | i <= t < i + 20 && t != j ensures |sent[t]| == |motors| {
      InTick(sent[t], motors, frames[t], t);
    }
  }
}
