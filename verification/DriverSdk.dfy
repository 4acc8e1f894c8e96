/** The public calls: targets are handed to the backends, actuals collected from them. */
module DriverSdk {
  import opened RmdTypes
  import opened MotorConfiguration
  import opened MotorRegistry
  import EthercatPdo
  import MitCodec

  const INT_MIN: int := -0x8000_0000

  datatype PublicActual = PublicActual(
    pos: real, vel: real, tor: real, temp: int, driveTemp: int, voltage: nat, statusWord: nat, errorCode: nat)

  const NO_ACTUAL := PublicActual(0.0, 0.0, 0.0, 0, 0, 0, STALE_STATUS, 0)

  datatype PublicTarget = PublicTarget(pos: real, vel: real, tor: real, kp: real, kd: real, enabled: int)

  function CopyPublicActual(a: MotorActual): PublicActual {
    PublicActual(a.pos, a.vel, a.tor, a.temp, a.driveTemp, a.voltage, a.statusWord, a.errorCode)
  }

  function ToPublicActual(a: MotorActual, p: MotorParameters): PublicActual {
    CopyPublicActual(a).(pos := p.polarity * (a.pos - p.countBias), vel := p.polarity * a.vel, tor := p.polarity * a.tor)
  }

  function ToCanTarget(t: PublicTarget, p: MotorParameters): MotorTarget {
    DEFAULT_TARGET.(
      pos := p.polarity * Clamp(t.pos, p.minimumPosition, p.maximumPosition) + p.countBias,
      vel := p.polarity * t.vel,
      tor := p.polarity * Clamp(t.tor, -p.maximumTorque, p.maximumTorque),
      kp := t.kp, kd := t.kd, enabled := t.enabled)
  }

  function LimitTarget(t: MotorTarget, p: MotorParameters): MotorTarget {
    t.(pos := Clamp(t.pos, p.minimumPosition, p.maximumPosition),
       tor := Clamp(t.tor, -p.maximumTorque, p.maximumTorque),
       kp := Clamp(t.kp, MitCodec.KP_MIN, MitCodec.KP_MAX),
       kd := Clamp(t.kd, MitCodec.KD_MIN, MitCodec.KD_MAX))
  }

  function ToEthercatTarget(t: PublicTarget, p: MotorParameters, mode: int, maxCurrent: nat): MotorTarget {
    MotorTarget(Clamp(t.pos, p.minimumPosition, p.maximumPosition), t.vel,
                Clamp(t.tor, -p.maximumTorque, p.maximumTorque), t.kp, t.kd, mode, t.enabled, maxCurrent)
  }

  function RxProfileForMode(mode: int): EthercatPdo.RxProfile {
    if mode == 5 then EthercatPdo.RxPvt else EthercatPdo.RxStandard
  }

  /** What a CAN motor that follows its target exactly reports. */
  function Following(t: MotorTarget): MotorActual {
    DEFAULT_ACTUAL.(pos := t.pos, vel := t.vel, tor := t.tor)
  }

  lemma SignTwice(s: real, x: real)
    requires s == 1.0 || s == -1.0
    ensures s * (s * x) == x
  {
  }

  /** The conversions of targets and actuals are inverse to each other: a motor that follows the
      converted target is seen by the caller where the caller's clamped target put it. */
  lemma ConversionsAreInverse(t: PublicTarget, p: MotorParameters)
    requires p.polarity == 1.0 || p.polarity == -1.0
    ensures var seen := ToPublicActual(Following(ToCanTarget(t, p)), p);
            && seen.pos == Clamp(t.pos, p.minimumPosition, p.maximumPosition) && seen.vel == t.vel
            && seen.tor == Clamp(t.tor, -p.maximumTorque, p.maximumTorque)
  {
    SignTwice(p.polarity, Clamp(t.pos, p.minimumPosition, p.maximumPosition));
    SignTwice(p.polarity, t.vel);
    SignTwice(p.polarity, Clamp(t.tor, -p.maximumTorque, p.maximumTorque));
  }

  /** The target is limited once more in the motor's own frame, so a position comes back exactly when
      it lies within the limits there, too; velocity and torque always do. */
  lemma LimitedTargetComesBackIff(t: PublicTarget, p: MotorParameters)
    requires p.polarity == 1.0 || p.polarity == -1.0
    requires p.minimumPosition <= p.maximumPosition && p.maximumTorque >= 0.0
    ensures var seen, wanted := ToPublicActual(Following(LimitTarget(ToCanTarget(t, p), p)), p),
                                Clamp(t.pos, p.minimumPosition, p.maximumPosition);
            && (seen.pos == wanted <==> p.minimumPosition <= p.polarity * wanted + p.countBias <= p.maximumPosition)
            && seen.vel == t.vel && seen.tor == Clamp(t.tor, -p.maximumTorque, p.maximumTorque)
  {
    ConversionsAreInverse(t, p);
  }

  // ----- collecting actuals

  /** The caller sees a motor's record: an EtherCAT motor's as it is, a CAN motor's position, velocity and
      torque in the caller's direction and without the offset. */
  ghost predicate Seen(seen: PublicActual, m: RuntimeMotor, a: MotorActual) {
    && seen.temp == a.temp && seen.driveTemp == a.driveTemp && seen.voltage == a.voltage
    && seen.statusWord == a.statusWord && seen.errorCode == a.errorCode
    && if m.bus == Ethercat then seen.pos == a.pos && seen.vel == a.vel && seen.tor == a.tor
       else
         && seen.pos == m.parameters.polarity * (a.pos - m.parameters.countBias)
         && seen.vel == m.parameters.polarity * a.vel && seen.tor == m.parameters.polarity * a.tor
  }

  /** Motor i's record in the frame of its own backend. */
  ghost function RecordOf(reg: Registry, frames: seq<MotorActualFrame>, i: nat): MotorActual
    requires i < |reg.motors| && reg.motors[i].backendIndex < |frames| && reg.motors[i].globalIndex < MAX_REALTIME_MOTORS
  {
    frames[reg.motors[i].backendIndex].actuals[reg.motors[i].globalIndex]
  }

  /** Motor i is invalid or stale in the frame of its own backend. */
  predicate Lost(reg: Registry, frames: seq<MotorActualFrame>, i: nat)
    requires i < |reg.motors| && reg.motors[i].backendIndex < |frames|
  {
    var m := reg.motors[i];
    m.globalIndex !in frames[m.backendIndex].valid || m.globalIndex in frames[m.backendIndex].stale
  }

  ghost predicate Routed(reg: Registry, frames: seq<MotorActualFrame>, size: nat) {
    && Partition(reg) && DistinctIndexes(reg.motors) && |frames| == |reg.backends|
    && forall i :: 0 <= i < |reg.motors| ==> Reachable(reg, frames, size, i)
  }

  ghost predicate Reachable(reg: Registry, frames: seq<MotorActualFrame>, size: nat, i: nat)
    requires i < |reg.motors|
  {
    reg.motors[i].backendIndex < |frames| && reg.motors[i].globalIndex < size && reg.motors[i].globalIndex < MAX_REALTIME_MOTORS
  }

  ghost function LostAmong(reg: Registry, frames: seq<MotorActualFrame>, seen: set<nat>, size: nat): set<nat>
    requires Routed(reg, frames, size) && forall i :: i in seen ==> i < |reg.motors|
  {
    set i | i in seen && Reachable(reg, frames, size, i) && Lost(reg, frames, i)
  }

  /** The slots of the motors seen so far hold their records, every other slot is empty. */
  ghost predicate Filled(data: seq<PublicActual>, reg: Registry, frames: seq<MotorActualFrame>, seen: set<nat>)
    requires Routed(reg, frames, |data|) && forall i :: i in seen ==> i < |reg.motors|
  {
    && (forall i :: i in seen ==>
          Reachable(reg, frames, |data|, i) && Seen(data[reg.motors[i].globalIndex], reg.motors[i], RecordOf(reg, frames, i)))
    && (forall x :: 0 <= x < |data| && (forall i :: i in seen ==> reg.motors[i].globalIndex != x) ==>
          data[x] == PublicActual(0.0, 0.0, 0.0, 0, 0, 0, 0xffff, 0))
  }

  /** The motors of the groups before g, and the first l of group g. */
  ghost function SeenUpTo(reg: Registry, g: nat, l: nat): set<nat> {
    set i | 0 <= i < |reg.motors| &&
            (reg.motors[i].backendIndex < g || (reg.motors[i].backendIndex == g && reg.motors[i].backendLocalIndex < l))
  }

  lemma SeenStep(reg: Registry, g: nat, l: nat)
    requires Partition(reg) && g < |reg.backends| && l < |reg.backends[g].motorIndexes|
    ensures var i := reg.backends[g].motorIndexes[l];
            i < |reg.motors| && i !in SeenUpTo(reg, g, l) && SeenUpTo(reg, g, l + 1) == SeenUpTo(reg, g, l) + {i}
  {
    assert PointsForward(reg, g, l);
    var i := reg.backends[g].motorIndexes[l];
    forall j | 0 <= j < |reg.motors| && reg.motors[j].backendIndex == g && reg.motors[j].backendLocalIndex == l
      ensures j == i
    {
      assert PointsBack(reg, j);
    }
  }

  lemma SeenGroup(reg: Registry, g: nat)
    requires Partition(reg) && g < |reg.backends|
    ensures SeenUpTo(reg, g, |reg.backends[g].motorIndexes|) == SeenUpTo(reg, g + 1, 0)
  {
    forall i | 0 <= i < |reg.motors| && reg.motors[i].backendIndex == g
      ensures reg.motors[i].backendLocalIndex < |reg.backends[g].motorIndexes|
    {
      assert PointsBack(reg, i);
    }
  }

  lemma SeenAll(reg: Registry)
    requires Partition(reg)
    ensures forall i :: 0 <= i < |reg.motors| ==> i in SeenUpTo(reg, |reg.backends|, 0)
  {
    forall i | 0 <= i < |reg.motors| ensures i in SeenUpTo(reg, |reg.backends|, 0) {
      assert PointsBack(reg, i);
    }
  }

  lemma LostStep(reg: Registry, frames: seq<MotorActualFrame>, seen: set<nat>, i: nat, size: nat)
    requires Routed(reg, frames, size) && (forall j :: j in seen ==> j < |reg.motors|) && i < |reg.motors| && i !in seen
    requires Reachable(reg, frames, size, i)
    ensures |LostAmong(reg, frames, seen + {i}, size)|
            == |LostAmong(reg, frames, seen, size)| + if Lost(reg, frames, i) then 1 else 0
  {
    var before := LostAmong(reg, frames, seen, size);
    assert LostAmong(reg, frames, seen + {i}, size) == if Lost(reg, frames, i) then before + {i} else before;
  }

  lemma FilledStep(data: seq<PublicActual>, reg: Registry, frames: seq<MotorActualFrame>, seen: set<nat>, i: nat, p: PublicActual)
    requires Routed(reg, frames, |data|) && (forall j :: j in seen ==> j < |reg.motors|) && i < |reg.motors| && i !in seen
    requires Filled(data, reg, frames, seen) && Reachable(reg, frames, |data|, i)
    requires Seen(p, reg.motors[i], RecordOf(reg, frames, i))
    ensures Filled(data[reg.motors[i].globalIndex := p], reg, frames, seen + {i})
  {
    hide Seen;
    forall j | j in seen ensures reg.motors[j].globalIndex != reg.motors[i].globalIndex {
      assert i < j || j < i;
    }
  }

  /** How many of the first n registered motors are invalid or stale. */
  ghost function CountLost(reg: Registry, frames: seq<MotorActualFrame>, n: nat, size: nat): int
    requires Routed(reg, frames, size) && n <= |reg.motors|
  {
    if n == 0 then 0
    else
      assert Reachable(reg, frames, size, n - 1);
      CountLost(reg, frames, n - 1, size) + if Lost(reg, frames, n - 1) then 1 else 0
  }

  ghost function LostBelow(reg: Registry, frames: seq<MotorActualFrame>, n: nat, size: nat): set<nat>
    requires Routed(reg, frames, size) && n <= |reg.motors|
  {
    set i | 0 <= i < n && Reachable(reg, frames, size, i) && Lost(reg, frames, i)
  }

  lemma {:induction false} LostBelowCounts(reg: Registry, frames: seq<MotorActualFrame>, n: nat, size: nat)
    requires Routed(reg, frames, size) && n <= |reg.motors|
    requires forall i :: 0 <= i < n ==> Reachable(reg, frames, size, i)
    ensures |LostBelow(reg, frames, n, size)| == CountLost(reg, frames, n, size)
  {
    hide Lost, Partition, DistinctIndexes;
    if n > 0 {
      LostBelowCounts(reg, frames, n - 1, size);
      var before := LostBelow(reg, frames, n - 1, size);
      assert Reachable(reg, frames, size, n - 1);
      assert LostBelow(reg, frames, n, size) == if Lost(reg, frames, n - 1) then before + {n - 1} else before;
    }
  }

  /** Before the first group nothing is seen and nothing is lost. */
  lemma NothingSeen(data: seq<PublicActual>, reg: Registry, frames: seq<MotorActualFrame>)
    requires Routed(reg, frames, |data|) && forall x :: 0 <= x < |data| ==> data[x] == NO_ACTUAL
    ensures Filled(data, reg, frames, SeenUpTo(reg, 0, 0)) && LostAmong(reg, frames, SeenUpTo(reg, 0, 0), |data|) == {}
  {
    assert SeenUpTo(reg, 0, 0) == {};
  }

  lemma AllCounted(reg: Registry, frames: seq<MotorActualFrame>, size: nat)
    requires Routed(reg, frames, size)
    ensures |LostAmong(reg, frames, SeenUpTo(reg, |reg.backends|, 0), size)| == CountLost(reg, frames, |reg.motors|, size)
  {
    hide Partition, DistinctIndexes;
    assert forall i :: 0 <= i < |reg.motors| ==> Reachable(reg, frames, size, i);
    SeenAll(reg);
    LostBelowCounts(reg, frames, |reg.motors|, size);
    assert LostAmong(reg, frames, SeenUpTo(reg, |reg.backends|, 0), size) == LostBelow(reg, frames, |reg.motors|, size);
  }

  // ----- handing out targets

  function Packed(m: RuntimeMotor, data: seq<PublicTarget>, modes: seq<int>, currents: seq<nat>): EthercatPdo.PackedTarget
    requires m.globalIndex < |data| && m.globalIndex < |modes| && m.globalIndex < |currents|
  {
    var i := m.globalIndex;
    EthercatPdo.PackTargetForRealtime(ToEthercatTarget(data[i], m.parameters, modes[i], currents[i]), m.parameters,
                                      RxProfileForMode(modes[i]))
  }

  /** The motor's target stands in the frame of its own bus, and not in the other one. */
  ghost predicate Handed(m: RuntimeMotor, data: seq<PublicTarget>, modes: seq<int>, currents: seq<nat>,
                         frame: MotorTargetFrame, ethercat: EthercatPdo.PackedTargetFrame) {
    var i := m.globalIndex;
    && i < |data| && i < |modes| && i < |currents| && i < MAX_REALTIME_MOTORS
    && (m.bus == Ethercat ==> i in ethercat.valid && i !in frame.valid && ethercat.targets[i] == Packed(m, data, modes, currents))
    && (m.bus == Can ==> i in frame.valid && i !in ethercat.valid &&
                         frame.targets[i] == LimitTarget(ToCanTarget(data[i], m.parameters), m.parameters))
  }

  /** So it is for all these motors, and nobody else has a target. */
  ghost predicate AllHanded(motors: seq<RuntimeMotor>, data: seq<PublicTarget>, modes: seq<int>, currents: seq<nat>,
                            frame: MotorTargetFrame, ethercat: EthercatPdo.PackedTargetFrame) {
    && (forall m :: m in motors ==> Handed(m, data, modes, currents, frame, ethercat))
    && (forall x :: x in frame.valid || x in ethercat.valid ==> exists m :: m in motors && m.globalIndex == x)
  }

  lemma IndexesDiffer(motors: seq<RuntimeMotor>, k: nat)
    requires DistinctIndexes(motors) && k < |motors|
    ensures forall n :: n in motors[..k] ==> n.globalIndex != motors[k].globalIndex
  {
    forall n | n in motors[..k] ensures n.globalIndex != motors[k].globalIndex {
      var j :| 0 <= j < k && motors[..k][j] == n;
      assert motors[j] == n;
    }
  }

  /** Adding the next motor's target to either frame. */
  lemma HandedStep(motors: seq<RuntimeMotor>, k: nat, data: seq<PublicTarget>, modes: seq<int>, currents: seq<nat>,
                   frame: MotorTargetFrame, ethercat: EthercatPdo.PackedTargetFrame)
    requires DistinctIndexes(motors) && k < |motors| && AllHanded(motors[..k], data, modes, currents, frame, ethercat)
    requires motors[k].globalIndex < |data| == |modes| == |currents| && motors[k].globalIndex < MAX_REALTIME_MOTORS
    ensures var m, i := motors[k], motors[k].globalIndex;
            if m.bus == Ethercat then
              AllHanded(motors[..k + 1], data, modes, currents, frame,
                        ethercat.(targets := ethercat.targets[i := Packed(m, data, modes, currents)], valid := ethercat.valid + {i}))
            else
              AllHanded(motors[..k + 1], data, modes, currents,
                        frame.(targets := frame.targets[i := LimitTarget(ToCanTarget(data[i], m.parameters), m.parameters)],
                               valid := frame.valid + {i}), ethercat)
  {
    hide Packed, LimitTarget, ToCanTarget, DistinctIndexes;
    IndexesDiffer(motors, k);
    var m, more := motors[k], motors[..k + 1];
    assert more[k] == m && m in more;
    forall n | n in more ensures n == m || (n in motors[..k] && n.globalIndex != m.globalIndex) {
      var j :| 0 <= j <= k && more[j] == n;
      if j < k {
        assert motors[..k][j] == n;
      }
    }
    forall n | n in motors[..k] ensures n in more {
      var j :| 0 <= j < k && motors[..k][j] == n;
      assert more[j] == n;
    }
  }

  /** One backend's buffers before and after: the frame of its bus has been added. */
  ghost predicate SentTo(bus: MotorBus, can: seq<MotorTargetFrame>, canAfter: seq<MotorTargetFrame>,
                         ethercat: seq<EthercatPdo.PackedTargetFrame>, ethercatAfter: seq<EthercatPdo.PackedTargetFrame>,
                         frame: MotorTargetFrame, ethercatFrame: EthercatPdo.PackedTargetFrame) {
    if bus == Can then canAfter == can + [frame] && ethercatAfter == ethercat
    else canAfter == can && ethercatAfter == ethercat + [ethercatFrame]
  }

  ghost predicate Published(backends: seq<BackendGroup>, can: seq<seq<MotorTargetFrame>>, canAfter: seq<seq<MotorTargetFrame>>,
                            ethercat: seq<seq<EthercatPdo.PackedTargetFrame>>, ethercatAfter: seq<seq<EthercatPdo.PackedTargetFrame>>,
                            frame: MotorTargetFrame, ethercatFrame: EthercatPdo.PackedTargetFrame) {
    && |can| == |canAfter| == |ethercat| == |ethercatAfter| == |backends|
    && forall g :: 0 <= g < |backends| ==>
         SentTo(backends[g].bus, can[g], canAfter[g], ethercat[g], ethercatAfter[g], frame, ethercatFrame)
  }

  /** The modes or limits the caller has set, or a default for every motor if none were set. */
  function OrDefault<T>(values: seq<T>, count: nat, default: T): (r: seq<T>) {
    if values == [] then seq(count, _ => default) else values
  }

  /** One value per motor: those that were set, or the default for each. */
  ghost predicate SetOrDefault<T>(after: seq<T>, values: seq<T>, count: nat, default: T) {
    if values == [] then |after| == count && forall i :: 0 <= i < count ==> after[i] == default
    else after == values
  }

  predicate HaveRoom(motors: seq<RuntimeMotor>) {
    forall i :: 0 <= i < |motors| ==> motors[i].globalIndex < MAX_REALTIME_MOTORS
  }

  class Impl {
    var initialized: bool
    var totalMotorCount: nat
    var registry: Registry
    var operatingModes: seq<int>
    var maxCurrents: seq<nat>
    var targetSequence: nat
    // what has been published to the target buffer of each backend
    var canSent: seq<seq<MotorTargetFrame>>
    var ethercatSent: seq<seq<EthercatPdo.PackedTargetFrame>>

    /** What a successful init leaves behind: the registry of a loaded configuration, one mode and one
        current limit per motor, indexes the frames have room for. */
    ghost predicate Valid()
      reads this
    {
      initialized ==>
        && Partition(registry) && DistinctIndexes(registry.motors) && HaveRoom(registry.motors)
        && |operatingModes| == |maxCurrents| == totalMotorCount
        && (forall i :: 0 <= i < |registry.motors| ==> registry.motors[i].globalIndex < totalMotorCount)
        && |canSent| == |ethercatSent| == |registry.backends|
    }

    constructor ()
      ensures Valid() && !initialized && operatingModes == [] && maxCurrents == [] && targetSequence == 0
    {
      initialized, totalMotorCount, registry := false, 0, Registry(0, [], []);
      operatingModes, maxCurrents, targetSequence := [], [], 0;
      canSent, ethercatSent := [], [];
    }

    method SetMode(modes: seq<int>) returns (status: int)
      requires Valid()
      modifies this`operatingModes
      ensures Valid()
      ensures if initialized then status == -1 && operatingModes == old(operatingModes) else status == 0 && operatingModes == modes
    {
      if initialized {
        return -1;
      }
      operatingModes := modes;
      return 0;
    }

    method SetMaxCurrents(currents: seq<nat>) returns (status: int)
      requires Valid()
      modifies this`maxCurrents
      ensures Valid()
      ensures if initialized then status == -1 && maxCurrents == old(maxCurrents) else status == 0 && maxCurrents == currents
    {
      if initialized {
        return -1;
      }
      maxCurrents := currents;
      return 0;
    }

    /** init, with the configuration as loaded and the registry made of it; `started` is whether every
        backend starts.  It fails when the modes or limits set before do not count one per motor, or a
        motor has no room in the frames. */
    method Init(total: nat, configs: seq<MotorConfig>, reg: Registry, started: bool) returns (ok: bool)
      requires ConfigOk(total, configs) && IsRegistry(total, configs, reg)
      modifies this
      ensures Valid() && initialized == ok && totalMotorCount == total && registry == reg
      ensures ok <==> (old(operatingModes) == [] || |old(operatingModes)| == total)
                      && (old(maxCurrents) == [] || |old(maxCurrents)| == total)
                      && (forall m :: m in reg.motors ==> m.globalIndex < 64) && started
      ensures ok ==> SetOrDefault(operatingModes, old(operatingModes), total, 8)
      ensures ok ==> SetOrDefault(maxCurrents, old(maxCurrents), total, 1000)
      ensures ok ==> targetSequence == old(targetSequence)
      ensures ok ==> canSent == seq(|reg.backends|, _ => []) && ethercatSent == seq(|reg.backends|, _ => [])
    {
      initialized := false;
      totalMotorCount, registry := total, reg;
      operatingModes := OrDefault(operatingModes, total, 8);
      if |operatingModes| != total {
        return false;
      }
      maxCurrents := OrDefault(maxCurrents, total, 1000);
      if |maxCurrents| != total {
        return false;
      }
      for i := 0 to |reg.motors|
        invariant forall j :: 0 <= j < i ==> reg.motors[j].globalIndex < MAX_REALTIME_MOTORS
      {
        assert reg.motors[i] in reg.motors;
        if reg.motors[i].globalIndex >= MAX_REALTIME_MOTORS {
          return false;
        }
      }
      canSent, ethercatSent := seq(|reg.backends|, _ => []), seq(|reg.backends|, _ => []);
      if !started {
        return false;
      }
      IndexesDistinct(total, configs, reg);
      initialized := true;
      return true;
    }

    lemma FramesRouted(frames: seq<MotorActualFrame>)
      requires Valid() && initialized && |frames| == |registry.backends|
      ensures Routed(registry, frames, totalMotorCount)
    {
      forall i | 0 <= i < |registry.motors| ensures Reachable(registry, frames, totalMotorCount, i) {
        assert PointsBack(registry, i);
      }
    }

    /** getActuals: `frames[g]` is what reading the buffer of backend g yields.  Every registered motor
        gets the record from the frame of its own backend, every other slot stays empty, and the result
        is minus the number of motors whose record is invalid or stale. */
    method GetActuals(data: array<PublicActual>, frames: seq<MotorActualFrame>) returns (status: int)
      requires Valid() && (initialized ==> |frames| == |registry.backends|)
      modifies data
      ensures !initialized || data.Length != totalMotorCount ==> status == -0x8000_0000 && data[..] == old(data[..])
      ensures initialized && data.Length == totalMotorCount ==>
                Routed(registry, frames, totalMotorCount) &&
                Filled(data[..], registry, frames, SeenUpTo(registry, |registry.backends|, 0)) &&
                status == -CountLost(registry, frames, |registry.motors|, totalMotorCount)
    {
      if !initialized || data.Length != totalMotorCount {
        return INT_MIN;
      }
      FramesRouted(frames);
      var staleCount := 0;
      forall x | 0 <= x < data.Length {
        data[x] := NO_ACTUAL;
      }
      NothingSeen(data[..], registry, frames);
      hide Filled, LostAmong, Routed, Lost;
      for g := 0 to |registry.backends|
        invariant Filled(data[..], registry, frames, SeenUpTo(registry, g, 0))
        invariant staleCount == |LostAmong(registry, frames, SeenUpTo(registry, g, 0), totalMotorCount)|
      {
        var frame := frames[g];
        var group := registry.backends[g];
        for l := 0 to |group.motorIndexes|
          invariant Filled(data[..], registry, frames, SeenUpTo(registry, g, l))
          invariant staleCount == |LostAmong(registry, frames, SeenUpTo(registry, g, l), totalMotorCount)|
        {
          var lost := CopyOne(data, frames, g, l);
          if lost {
            staleCount := staleCount + 1;
          }
        }
        SeenGroup(registry, g);
      }
      AllCounted(registry, frames, totalMotorCount);
      status := if staleCount == 0 then 0 else -staleCount;
    }

    /** The inner loop body. */
    method CopyOne(data: array<PublicActual>, frames: seq<MotorActualFrame>, g: nat, l: nat) returns (lost: bool)
      requires Valid() && initialized && data.Length == totalMotorCount && Routed(registry, frames, totalMotorCount)
      requires g < |registry.backends| && l < |registry.backends[g].motorIndexes|
      requires Filled(data[..], registry, frames, SeenUpTo(registry, g, l))
      modifies data
      ensures Filled(data[..], registry, frames, SeenUpTo(registry, g, l + 1))
      ensures |LostAmong(registry, frames, SeenUpTo(registry, g, l + 1), totalMotorCount)|
              == |LostAmong(registry, frames, SeenUpTo(registry, g, l), totalMotorCount)| + if lost then 1 else 0
    {
      SeenStep(registry, g, l);
      var i := registry.backends[g].motorIndexes[l];
      assert PointsForward(registry, g, l) && Reachable(registry, frames, totalMotorCount, i);
      LostStep(registry, frames, SeenUpTo(registry, g, l), i, totalMotorCount);
      var motor := registry.motors[i];
      var frame, index := frames[g], motor.globalIndex;
      ghost var before := data[..];
      data[index] := if motor.bus == Ethercat then CopyPublicActual(frame.actuals[index])
                     else ToPublicActual(frame.actuals[index], motor.parameters);
      FilledStep(before, registry, frames, SeenUpTo(registry, g, l), i, data[index]);
      assert data[..] == before[index := data[index]];
      lost := index !in frame.valid || index in frame.stale;
    }

    /** Hands each backend the frame of its bus. */
    method PublishTargets(frame: MotorTargetFrame, ethercatFrame: EthercatPdo.PackedTargetFrame)
      requires |canSent| == |ethercatSent| == |registry.backends|
      modifies this`canSent, this`ethercatSent
      ensures Published(registry.backends, old(canSent), canSent, old(ethercatSent), ethercatSent, frame, ethercatFrame)
    {
      ghost var canBefore, ethercatBefore := canSent, ethercatSent;
      for g := 0 to |registry.backends|
        invariant |canSent| == |ethercatSent| == |registry.backends|
        invariant forall h :: g <= h < |registry.backends| ==> canSent[h] == canBefore[h] && ethercatSent[h] == ethercatBefore[h]
        invariant forall h :: 0 <= h < g ==>
                    SentTo(registry.backends[h].bus, canBefore[h], canSent[h], ethercatBefore[h], ethercatSent[h], frame, ethercatFrame)
      {
        if registry.backends[g].bus == Can {
          canSent := canSent[g := canSent[g] + [frame]];
        } else {
          ethercatSent := ethercatSent[g := ethercatSent[g] + [ethercatFrame]];
        }
      }
    }

    /** setTargets: every CAN backend is sent the one frame, every EtherCAT backend the other, and both
        hold the converted targets of their own motors under the next sequence number. */
    method SetTargets(data: seq<PublicTarget>, now: int)
      returns (status: int, frame: MotorTargetFrame, ethercatFrame: EthercatPdo.PackedTargetFrame)
      requires Valid()
      modifies this`targetSequence, this`canSent, this`ethercatSent
      ensures Valid()
      ensures !initialized || |data| != totalMotorCount ==>
                status == -0x8000_0000 && targetSequence == old(targetSequence) && canSent == old(canSent) && ethercatSent == old(ethercatSent)
      ensures initialized && |data| == totalMotorCount ==>
                && status == 0 && targetSequence == old(targetSequence) + 1
                && frame.sequence == ethercatFrame.sequence == targetSequence
                && frame.timestamp == ethercatFrame.timestamp == now
                && AllHanded(registry.motors, data, operatingModes, maxCurrents, frame, ethercatFrame)
                && Published(registry.backends, old(canSent), canSent, old(ethercatSent), ethercatSent, frame, ethercatFrame)
    {
      frame := MotorTargetFrame(0, 0, seq(MAX_REALTIME_MOTORS, _ => DEFAULT_TARGET), {});
      ethercatFrame := EthercatPdo.PackedTargetFrame(0, 0, seq(MAX_REALTIME_MOTORS, _ => EthercatPdo.DEFAULT_PACKED), {});
      if !initialized || |data| != totalMotorCount {
        return INT_MIN, frame, ethercatFrame;
      }
      targetSequence := targetSequence + 1;
      frame := frame.(sequence := targetSequence, timestamp := now);
      ethercatFrame := ethercatFrame.(sequence := targetSequence, timestamp := now);
      for k := 0 to |registry.motors|
        invariant frame.sequence == ethercatFrame.sequence == targetSequence == old(targetSequence) + 1
        invariant frame.timestamp == ethercatFrame.timestamp == now
        invariant canSent == old(canSent) && ethercatSent == old(ethercatSent)
        invariant AllHanded(registry.motors[..k], data, operatingModes, maxCurrents, frame, ethercatFrame)
      {
        var motor := registry.motors[k];
        var index := motor.globalIndex;
        HandedStep(registry.motors, k, data, operatingModes, maxCurrents, frame, ethercatFrame);
        if motor.bus == Ethercat {
          var target := ToEthercatTarget(data[index], motor.parameters, operatingModes[index], maxCurrents[index]);
          var rxProfile := RxProfileForMode(operatingModes[index]);
          var packed := EthercatPdo.PackTargetForRealtime(target, motor.parameters, rxProfile);
          ethercatFrame := ethercatFrame.(targets := ethercatFrame.targets[index := packed]);
          ethercatFrame := ethercatFrame.(valid := ethercatFrame.valid + {index});
        } else {
          var converted := ToCanTarget(data[index], motor.parameters);
          var limited := LimitTarget(converted, motor.parameters);
          frame := frame.(targets := frame.targets[index := limited]);
          frame := frame.(valid := frame.valid + {index});
        }
      }
      assert registry.motors[..|registry.motors|] == registry.motors;
      PublishTargets(frame, ethercatFrame);
      status := 0;
    }
  }
}
