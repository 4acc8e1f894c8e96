/** From the caller to the motor and back: what the parts of the SDK say together. */
module EndToEnd {
  import opened RmdTypes
  import opened RealArithmetic
  import opened EthercatPdo
  import opened EthercatLayouts
  import opened EthercatSnapshot
  import opened EthercatCycle
  import opened EthercatSafety
  import EthercatBindings
  import opened DriverSdk
  import opened MotorRegistry
  import MitCodec
  import CanReceive
  import CanTransmit

  ghost predicate LimitsOrdered(p: MotorParameters) {
    p.minimumPosition <= p.maximumPosition && p.maximumTorque >= 0.0
  }

  // ----- EtherCAT: from setTargets to the drive

  /** The caller's target, taken at its word. */
  function Wanted(t: PublicTarget, mode: int, current: nat): MotorTarget {
    MotorTarget(t.pos, t.vel, t.tor, t.kp, t.kd, mode, t.enabled, current)
  }

  /** And within the limits of the motor. */
  function Allowed(t: PublicTarget, p: MotorParameters, mode: int, current: nat): MotorTarget {
    Wanted(t, mode, current).(pos := Clamp(t.pos, p.minimumPosition, p.maximumPosition),
                              tor := Clamp(t.tor, -p.maximumTorque, p.maximumTorque))
  }

  /** Clamping twice on the way makes no difference. */
  lemma AllowedIsWanted(rx: RxData, t: PublicTarget, p: MotorParameters, mode: int, current: nat)
    requires LimitsOrdered(p) && Understood(rx, Allowed(t, p, mode, current), p)
    ensures Understood(rx, Wanted(t, mode, current), p)
  {
    hide Clamp, Distance, NearestWithin, CountsToRad, CountDeltaToRad, RawToTorque, TorqueScale;
    ClampTwice(t.pos, p.minimumPosition, p.maximumPosition);
    ClampTwice(t.tor, -p.maximumTorque, p.maximumTorque);
    assert WantedTorque(Allowed(t, p, mode, current), p) == WantedTorque(Wanted(t, mode, current), p);
  }

  /** What setTargets has put into the frame for motor m. */
  lemma PackedByCaller(m: RuntimeMotor, data: seq<PublicTarget>, modes: seq<int>, currents: seq<nat>,
                       can: MotorTargetFrame, packed: PackedTargetFrame)
    requires Handed(m, data, modes, currents, can, packed) && m.bus == Ethercat
    ensures var i := m.globalIndex;
            var profile := if modes[i] == 5 then RxPvt else RxStandard;
            var bytes := RxBytes(PackRx(Allowed(data[i], m.parameters, modes[i], currents[i]), m.parameters, profile));
            && i in packed.valid && packed.targets[i].enabled == data[i].enabled
            && packed.targets[i].rxBytes[..|bytes|] == bytes
  {
    hide PackRx, RxBytes;
  }

  /** The stored bytes with the control word of this cycle. */
  lemma SlotAsWanted(b: Binding, targets: PackedTargetFrame, actuals: MotorActualFrame, rx: RxData)
    requires b.globalIndex < MAX_REALTIME_MOTORS && b.globalIndex in targets.valid
    requires |RxBytes(rx)| == RxSize(b.rxProfile) && targets.targets[b.globalIndex].rxBytes[..|RxBytes(rx)|] == RxBytes(rx)
    ensures PackedSlot(b, targets, actuals).bytes
            == RxBytes(rx.(controlWord := ControlWord(targets.targets[b.globalIndex].enabled, StatusFor(b, actuals))))
  {
    hide RxBytes, ControlWord;
    var word := ControlWord(targets.targets[b.globalIndex].enabled, StatusFor(b, actuals));
    ControlWordComesFirst(rx, word);
    var bytes := targets.targets[b.globalIndex].rxBytes;
    assert bytes[2..RxSize(b.rxProfile)] == bytes[..RxSize(b.rxProfile)][2..];
  }

  /** The watchdog leaves the bytes of a target alone. */
  lemma WatchedBytes(frame: PackedTargetFrame, now: int, timeout: int, after: PackedTargetFrame, i: nat)
    requires Watched(frame, now, timeout, after) && i < MAX_REALTIME_MOTORS && i in frame.valid
    ensures i in after.valid && after.targets[i].rxBytes == frame.targets[i].rxBytes
    ensures after.targets[i].enabled == if Expired(frame, now, timeout) then 0 else frame.targets[i].enabled
  {
  }

  /** What the drive of binding b reads out of an image. */
  function CommandIn(image: seq<Byte>, b: Binding): RxData
    requires 0 <= b.rxOffset && b.rxOffset + RxSize(b.rxProfile) <= |image|
  {
    ReadRx(image[b.rxOffset..b.rxOffset + RxSize(b.rxProfile)], b.rxProfile)
  }

  /** The status word of this cycle, if the motor's feedback arrived. */
  ghost function FreshStatus(b: Binding, incoming: Incoming): nat {
    if Fed(b, incoming) then StatusIn(b, incoming) else 0xffff
  }

  ghost predicate Bound(b: Binding, m: RuntimeMotor, modes: seq<int>, isMtDevice: EthercatBindings.TypeTest) {
    EthercatBindings.LaidOut(b, m, modes, isMtDevice) && isMtDevice(m.kind) && m.bus == Ethercat
  }

  /** The caller's target in the drive: when a cycle finds the frame setTargets published, the drive of an
      EtherCAT motor reads a command that says what the caller's target says, gains and limits included,
      under the control word that its fresh status and an unexpired command call for. */
  lemma EthercatTargetReachesDrive(
      layout: Layout, timeout: int, before: CycleState, input: CycleInput, after: CycleState, d: nat, k: nat,
      m: RuntimeMotor, data: seq<PublicTarget>, modes: seq<int>, currents: seq<nat>, can: MotorTargetFrame,
      isMtDevice: EthercatBindings.TypeTest)
    requires IsCycle(layout, timeout, before, input, after) && Placed(layout, input, d, k)
    requires Bound(layout[d][k], m, modes, isMtDevice)
    requires Handed(m, data, modes, currents, can, input.command)
    requires Encodable(Allowed(data[m.globalIndex], m.parameters, modes[m.globalIndex], currents[m.globalIndex]), m.parameters)
    ensures var b, t := layout[d][k], data[m.globalIndex];
            var rx := CommandIn(after.images[d], b);
            && b.rxProfile == (if modes[m.globalIndex] == 5 then RxPvt else RxStandard)
            && rx.controlWord == ControlWord(if Expired(input.command, input.now, timeout) then 0 else t.enabled,
                                             FreshStatus(b, input.received[d]))
            && Understood(rx, Allowed(t, m.parameters, modes[m.globalIndex], currents[m.globalIndex]), m.parameters)
            && (LimitsOrdered(m.parameters) ==>
                  Understood(rx, Wanted(t, modes[m.globalIndex], currents[m.globalIndex]), m.parameters))
  {
    hide PackRx, RxBytes, ReadRx, WriteAll, PackedSlots, PackedSlot, Understood, Encodable, Watched, DisjointRx, ReadDomains,
         LayoutOk, ControlWord;
    var b, i := layout[d][k], m.globalIndex;
    var t := Allowed(data[i], m.parameters, modes[i], currents[i]);
    var rx := PackRx(t, m.parameters, b.rxProfile);
    PackedByCaller(m, data, modes, currents, can, input.command);
    WatchedBytes(input.command, input.now, timeout, after.targets, i);
    StoredBytes(input.received[d].image, layout[d], after.targets, after.actuals, k);
    SlotAsWanted(b, after.targets, after.actuals, rx);
    var start := before.actuals.(sequence := before.actuals.sequence + 1, timestamp := input.stamp);
    DomainDecides(layout, input.received, start, d, k);
    var enabled, status := after.targets.targets[i].enabled, StatusFor(b, after.actuals);
    ControlWordFits(enabled, status);
    TargetArrives(t, m.parameters, b.rxProfile, ControlWord(enabled, status));
    if LimitsOrdered(m.parameters) {
      AllowedIsWanted(CommandIn(after.images[d], b), data[i], m.parameters, modes[i], currents[i]);
    }
  }

  // ----- EtherCAT: from the drive to getActuals

  /** What a drive stores in a cycle is what the caller of getActuals sees of it. */
  lemma EthercatFeedbackReachesCaller(
      layout: Layout, timeout: int, before: CycleState, input: CycleInput, after: CycleState, d: nat, k: nat, tx: TxData,
      reg: Registry, frames: seq<MotorActualFrame>, data: seq<PublicActual>, i: nat)
    requires IsCycle(layout, timeout, before, input, after)
    requires d < |layout| == |input.received| && k < |layout[d]| && layout[d][k].globalIndex < MAX_REALTIME_MOTORS
    requires Fed(layout[d][k], input.received[d]) && TxFitsFields(tx)
    requires var b := layout[d][k];
             input.received[d].image[b.txOffset..b.txOffset + TxSize(b.txProfile)] == TxBytes(tx, b.txProfile)
    requires Routed(reg, frames, |data|) && Filled(data, reg, frames, SeenUpTo(reg, |reg.backends|, 0))
    requires i < |reg.motors| && Reachable(reg, frames, |data|, i) && reg.motors[i].bus == Ethercat
    requires frames[reg.motors[i].backendIndex] == after.actuals
    requires reg.motors[i].globalIndex == layout[d][k].globalIndex && reg.motors[i].parameters == layout[d][k].parameters
    ensures var b, p, seen := layout[d][k], layout[d][k].parameters, data[layout[d][k].globalIndex];
            && !Lost(reg, frames, i)
            && seen.statusWord == tx.statusWord && seen.errorCode == tx.errorCode
            && InRadians(seen.pos, tx.position as real - p.countBias, p) && InRadians(seen.vel, tx.velocity as real, p)
            && InNewtonMeters(seen.tor, tx.torque, p)
            && (b.txProfile == TxExtended ==>
                  seen.temp == tx.motorTemperature && seen.driveTemp == tx.driveTemperature && seen.voltage == tx.voltage)
  {
    hide ReadDomains, LayoutOk, WriteAll, PackedSlots, ParseTx, TxBytes, InRadians, InNewtonMeters, SeenUpTo, Partition,
         DistinctIndexes, TxFitsFields, Watched;
    var b := layout[d][k];
    var start := before.actuals.(sequence := before.actuals.sequence + 1, timestamp := input.stamp);
    DomainDecides(layout, input.received, start, d, k);
    TxRoundTrip(tx, b.parameters, b.txProfile);
    SeenAll(reg);
    assert Seen(data[b.globalIndex], reg.motors[i], RecordOf(reg, frames, i));
  }

  // ----- CAN: from setTargets to the motor

  /** The caller's position, velocity and torque as a CAN motor is to take them. */
  function MotorPosition(t: PublicTarget, p: MotorParameters): real {
    Clamp(p.polarity * Clamp(t.pos, p.minimumPosition, p.maximumPosition) + p.countBias, p.minimumPosition, p.maximumPosition)
  }

  function MotorVelocity(t: PublicTarget, p: MotorParameters): real {
    p.polarity * t.vel
  }

  function MotorTorque(t: PublicTarget, p: MotorParameters): real {
    p.polarity * Clamp(t.tor, -p.maximumTorque, p.maximumTorque)
  }

  lemma CanFields(t: PublicTarget, p: MotorParameters)
    ensures var l := LimitTarget(ToCanTarget(t, p), p);
            && l.enabled == t.enabled && l.mode == 8 && l.maxCurrent == 1000 && l.vel == MotorVelocity(t, p)
            && l.kp == Clamp(t.kp, 0.0, 500.0) && l.kd == Clamp(t.kd, 0.0, 50.0)
  {
  }

  lemma CanPosition(t: PublicTarget, p: MotorParameters)
    requires LimitsOrdered(p)
    ensures Clamp(LimitTarget(ToCanTarget(t, p), p).pos, p.minimumPosition, p.maximumPosition)
            == MotorPosition(t, p)
  {
  }

  lemma CanTorque(t: PublicTarget, p: MotorParameters)
    requires LimitsOrdered(p) && UnitPolarity(p)
    ensures Clamp(LimitTarget(ToCanTarget(t, p), p).tor, -p.maximumTorque, p.maximumTorque)
            == MotorTorque(t, p)
  {
  }

  /** The caller's target in the command frame of a CAN motor: gains clamped to their ranges, the target in
      the motor's direction and with its offset, the position limited there once more; an unenabled motor
      gets no gains. */
  lemma CanTargetReachesMotor(
      motors: seq<RuntimeMotor>, k: nat, data: seq<PublicTarget>, modes: seq<int>, currents: seq<nat>,
      frame: MotorTargetFrame, packed: PackedTargetFrame, sent: seq<CanTransmit.CanMessage>, tick: nat)
    requires CanReceive.IndexesOk(motors) && k < |motors| && motors[k].bus == Can
    requires Handed(motors[k], data, modes, currents, frame, packed) && CanTransmit.SentInTick(sent, motors, frame, tick)
    ensures var m := motors[k];
            var p, t, c := m.parameters, data[m.globalIndex], MitCodec.UnpackCommand(sent[k].data);
            var limit := if p.maximumTorque > 0.0 then p.maximumTorque else 24.0;
            && sent[k].id == 0x400 + m.motorId
            && (t.enabled != 1 ==> c.kp == 0 && c.kd == 0)
            && (t.enabled == 1 ==>
                  && MitCodec.Within(c.kp, t.kp, 0.0, 500.0, 12) && MitCodec.Within(c.kd, t.kd, 0.0, 50.0, 12)
                  && MitCodec.Within(c.v, MotorVelocity(t, p), -45.0, 45.0, 12)
                  && (LimitsOrdered(p) ==> MitCodec.Within(c.p, MotorPosition(t, p), -12.566, 12.566, 16))
                  && (LimitsOrdered(p) && UnitPolarity(p) ==> MitCodec.Within(c.torque, MotorTorque(t, p), -limit, limit, 12)))
  {
    hide MitCodec.Within, MitCodec.UnpackCommand, Clamp, LimitTarget, ToCanTarget, MotorPosition, MotorVelocity, MotorTorque;
    var m := motors[k];
    var p, t, c := m.parameters, data[m.globalIndex], MitCodec.UnpackCommand(sent[k].data);
    assert CanTransmit.IsCommand(sent[k], m, frame);
    ClampedGain(c.kp, t.kp, 500.0);
    ClampedGain(c.kd, t.kd, 50.0);
    CanFields(t, p);
    if LimitsOrdered(p) {
      CanPosition(t, p);
      if UnitPolarity(p) {
        CanTorque(t, p);
      }
    }
  }

  lemma ClampedGain(code: nat, gain: real, max: real)
    requires max > 0.0
    ensures MitCodec.Within(code, Clamp(gain, 0.0, max), 0.0, max, 12) ==> MitCodec.Within(code, gain, 0.0, max, 12)
  {
    if MitCodec.Within(code, Clamp(gain, 0.0, max), 0.0, max, 12) {
      CanTransmit.ClampedFirst(code, gain, 0.0, max, 12);
    }
  }

  // ----- CAN: from the motor to getActuals

  /** What the motor last replied, up to the published frame that getActuals reads, is what the caller
      sees, in the caller's direction and without the offset; and it is counted as lost exactly when it was
      silent since the frame before. */
  lemma CanFeedbackReachesCaller(
      motors: seq<RuntimeMotor>, events: seq<CanReceive.Event>, n: nat,
      reg: Registry, frames: seq<MotorActualFrame>, data: seq<PublicActual>, i: nat)
    requires CanReceive.MotorsOk(motors) && forall n :: n in motors ==> n.motorId > 0
    requires n < |CanReceive.Run(motors, events).published|
    requires Routed(reg, frames, |data|) && Filled(data, reg, frames, SeenUpTo(reg, |reg.backends|, 0))
    requires i < |reg.motors| && Reachable(reg, frames, |data|, i) && reg.motors[i] in motors && reg.motors[i].bus == Can
    requires frames[reg.motors[i].backendIndex] == CanReceive.Run(motors, events).published[n].frame
    ensures var m, published := reg.motors[i], CanReceive.Run(motors, events).published;
            var p, seen, r := m.parameters, data[m.globalIndex], CanReceive.RecordAfter(m, CanReceive.Windows(published[..n + 1]));
            && seen.pos == p.polarity * (r.pos - p.countBias) && seen.vel == p.polarity * r.vel && seen.tor == p.polarity * r.tor
            && seen.temp == r.temp
            && (Lost(reg, frames, i) <==> !CanReceive.Replied(m, published[n].window))
            && seen.statusWord == (if Lost(reg, frames, i) then 0xffff else 0x0237)
  {
    hide CanReceive.Run, CanReceive.RecordAfter, CanReceive.Windows, CanReceive.Replied, SeenUpTo, Partition, DistinctIndexes,
         CanReceive.LastReply;
    var m := reg.motors[i];
    CanReceive.NothingIsMissing(motors, events, n, m);
    CanReceive.StaleMeansSilent(motors, events, n, m);
    SeenAll(reg);
    assert Seen(data[m.globalIndex], m, RecordOf(reg, frames, i));
  }
}
