/** The value types shared by the backends.  Floating-point fields are reals. */
module RmdTypes {
  type Byte = x: int | 0 <= x < 0x100

  const MAX_REALTIME_MOTORS: nat := 64
  const PI: real := 3.14159265358979323846
  const STALE_STATUS: nat := 0xffff
  const ERROR_FEEDBACK_TIMEOUT: nat := 1

  datatype MotorParameters = MotorParameters(
    polarity: real,
    countBias: real,
    encoderResolution: real,
    ratedCurrent: real,
    torqueConstant: real,
    maximumTorque: real,
    minimumPosition: real,
    maximumPosition: real)

  datatype MotorTarget = MotorTarget(
    pos: real, vel: real, tor: real, kp: real, kd: real, mode: int, enabled: int, maxCurrent: int)

  const DEFAULT_TARGET := MotorTarget(0.0, 0.0, 0.0, 0.0, 0.0, 8, 0, 1000)

  datatype MotorActual = MotorActual(
    pos: real, vel: real, tor: real, encoderCount: int,
    temp: int, driveTemp: int, voltage: nat, statusWord: nat, errorCode: nat)

  const DEFAULT_ACTUAL := MotorActual(0.0, 0.0, 0.0, 0, 0, 0, 0, STALE_STATUS, 0)

  type MotorTargets = s: seq<MotorTarget> | |s| == MAX_REALTIME_MOTORS
    witness seq(MAX_REALTIME_MOTORS, _ => DEFAULT_TARGET)
  type MotorActuals = s: seq<MotorActual> | |s| == MAX_REALTIME_MOTORS
    witness seq(MAX_REALTIME_MOTORS, _ => DEFAULT_ACTUAL)

  datatype MotorBus = Can | Ethercat

  datatype MotorConfig = MotorConfig(
    alias: int, master: int, motorId: int, slaveId: int, ethercatSlave: int, domain: int,
    bus: MotorBus, kind: string, parameters: MotorParameters)

  datatype RuntimeMotor = RuntimeMotor(
    alias: int, globalIndex: nat, backendIndex: nat, backendLocalIndex: nat,
    bus: MotorBus, master: int, motorId: int, slaveId: int, ethercatSlave: int, domain: int,
    kind: string, parameters: MotorParameters)

  /** A bitset of motors is the set of their indexes. */
  datatype MotorTargetFrame = MotorTargetFrame(
    sequence: nat, timestamp: int, targets: MotorTargets, valid: set<nat>)

  datatype MotorActualFrame = MotorActualFrame(
    sequence: nat, timestamp: int, actuals: MotorActuals, valid: set<nat>, stale: set<nat>)

  function Clamp(value: real, min: real, max: real): real {
    if value < min then min else if value > max then max else value
  }

  /** Clamping gives the point of the interval nearest to the value. */
  lemma ClampIsNearest(value: real, min: real, max: real, other: real)
    requires min <= other <= max
    ensures var r := Clamp(value, min, max);
            && min <= r <= max
            && (value <= r ==> r <= other || r - value <= 0.0)
            && (value >= r ==> other <= r || value - r <= 0.0)
  {
  }

  lemma ClampTwice(value: real, min: real, max: real)
    requires min <= max
    ensures Clamp(Clamp(value, min, max), min, max) == Clamp(value, min, max)
  {
  }

  function MarkActualStale(actual: MotorActual): MotorActual {
    actual.(statusWord := STALE_STATUS, errorCode := ERROR_FEEDBACK_TIMEOUT)
  }

  /** std::lround: to the nearest integer, halves away from zero. */
  function LRound(x: real): int {
    if x >= 0.0 then (x + 0.5).Floor else -((0.5 - x).Floor)
  }

  lemma RoundNearby(x: real)
    ensures -0.5 <= LRound(x) as real - x <= 0.5
  {
  }

  /** The one choice rounding leaves: halves go away from zero. */
  lemma RoundTies(k: int)
    requires k >= 0
    ensures LRound(k as real + 0.5) == k + 1 && LRound(-(k as real) - 0.5) == -k - 1
  {
  }

  /** Conversion of a real to an integer type: the fraction is dropped. */
  function Truncate(x: real): int {
    if x >= 0.0 then x.Floor else -((-x).Floor)
  }
}
