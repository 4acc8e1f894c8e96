/** The quintic blend between two waypoints. */
module MinimumJerk {
  import opened RealArithmetic

  function Lerp(start: real, end: real, t: real): real {
    start + (end - start) * t
  }

  function MinimumJerkProgress(t: real): real {
    t * t * t * (10.0 + t * (-15.0 + 6.0 * t))
  }

  /** The blend leaves as slowly as the cube of the time, so with no speed and no acceleration, and
      arrives as it left. */
  lemma LeavesSlowly(t: real)
    requires 0.0 <= t <= 1.0
    ensures 0.0 <= MinimumJerkProgress(t) <= 10.0 * (t * t * t)
    ensures MinimumJerkProgress(t) + MinimumJerkProgress(1.0 - t) == 1.0
  {
    var cube, rest := t * t * t, 10.0 + t * (-15.0 + 6.0 * t);
    NotNegative(t, t);
    NotNegative(t * t, t);
    NotNegative(t, 15.0 - 6.0 * t);
    SquareNotNegative(t - 1.25);
    assert 0.0 <= rest <= 10.0;
    NotNegative(cube, rest);
    NotNegative(cube, 10.0 - rest);
    Symmetric(t - 0.5);
  }

  lemma Symmetric(a: real)
    ensures MinimumJerkProgress(0.5 + a) + MinimumJerkProgress(0.5 - a) == 1.0
  {
    CenteredProgress(a);
    CenteredProgress(-a);
  }

  /** The largest slope of the blend. */
  const PEAK_SPEED: real := 15.0 / 8.0

  // ----- products of reals

  lemma NotNegative(x: real, y: real)
    requires x >= 0.0 && y >= 0.0
    ensures x * y >= 0.0
  {
  }

  lemma SquareNotNegative(x: real)
    ensures x * x >= 0.0
  {
    if x >= 0.0 {
      NotNegative(x, x);
    } else {
      NotNegative(-x, -x);
    }
  }

  // ----- the difference quotient of the blend, with the two times counted from the middle

  /** With p the sum of the squares and q the product of the two times. */
  function Slope(p: real, q: real): real {
    15.0 / 8.0 - 5.0 * (p + q) + 6.0 * (p * p + p * q - q * q)
  }

  lemma CenteredProgress(a: real)
    ensures MinimumJerkProgress(a + 0.5) == 0.5 + 15.0 / 8.0 * a - 5.0 * (a * a * a) + 6.0 * (a * a * a * a * a)
  {
  }

  lemma PowersDifference(a: real, b: real, p: real, q: real)
    requires p == a * a + b * b && q == a * b
    ensures b * b * b - a * a * a == (b - a) * (p + q)
    ensures b * b * b * b * b - a * a * a * a * a == (b - a) * (p * p + p * q - q * q)
  {
  }

  lemma ProgressDifference(u: real, v: real, p: real, q: real)
    requires p == (u - 0.5) * (u - 0.5) + (v - 0.5) * (v - 0.5) && q == (u - 0.5) * (v - 0.5)
    ensures MinimumJerkProgress(v) - MinimumJerkProgress(u) == (v - u) * Slope(p, q)
  {
    var a, b := u - 0.5, v - 0.5;
    CenteredProgress(a);
    CenteredProgress(b);
    PowersDifference(a, b, p, q);
  }

  /** The difference quotient lies between 0 and 15/8. */
  lemma SlopeBounds(p: real, q: real)
    requires 0.0 <= p <= 0.5 && -p <= 2.0 * q <= p
    ensures 0.0 <= Slope(p, q) <= PEAK_SPEED
  {
    var near, far := p / 2.0 - q, p / 2.0 + q;
    SquareNotNegative(p - 0.5);
    NotNegative(5.0 - 6.0 * p, near);
    NotNegative(near, far);
    assert Slope(p, q) == 7.5 * ((p - 0.5) * (p - 0.5)) + (5.0 - 6.0 * p) * near + 6.0 * (near * far);
    SquareNotNegative(q);
    ProductAtMost(p, 0.5, p + q);
    assert PEAK_SPEED - Slope(p, q) == 5.0 * (p + q) - 6.0 * (p * (p + q)) + 6.0 * (q * q);
  }

  lemma HalfSums(u: real, v: real, p: real, q: real)
    requires 0.0 <= u <= 1.0 && 0.0 <= v <= 1.0
    requires p == (u - 0.5) * (u - 0.5) + (v - 0.5) * (v - 0.5) && q == (u - 0.5) * (v - 0.5)
    ensures 0.0 <= p <= 0.5 && -p <= 2.0 * q <= p
  {
    SquareNotNegative(u - v);
    SquareNotNegative(u + v - 1.0);
    NotNegative(u, 1.0 - u);
    NotNegative(v, 1.0 - v);
  }

  /** The blend never runs backwards and never faster than 15/8 times the straight line. */
  lemma ProgressSpeed(u: real, v: real)
    requires 0.0 <= u <= v <= 1.0
    ensures 0.0 <= MinimumJerkProgress(v) - MinimumJerkProgress(u) <= PEAK_SPEED * (v - u)
  {
    var p := (u - 0.5) * (u - 0.5) + (v - 0.5) * (v - 0.5);
    var q := (u - 0.5) * (v - 0.5);
    HalfSums(u, v, p, q);
    SlopeBounds(p, q);
    ProgressDifference(u, v, p, q);
    hide MinimumJerkProgress, Slope;
    NotNegative(v - u, Slope(p, q));
    ProductAtMost(Slope(p, q), PEAK_SPEED, v - u);
  }

  /** The blend starts at 0, ends at 1 and stays between. */
  lemma ProgressRange(t: real)
    requires 0.0 <= t <= 1.0
    ensures 0.0 <= MinimumJerkProgress(t) <= 1.0
    ensures MinimumJerkProgress(0.0) == 0.0 && MinimumJerkProgress(1.0) == 1.0
  {
    ProgressSpeed(0.0, t);
    ProgressSpeed(t, 1.0);
  }

  predicate Between(x: real, a: real, b: real) {
    a <= x <= b || b <= x <= a
  }

  /** What the blend makes of one coordinate. */
  function Blend(start: real, end: real, t: real): real {
    Lerp(start, end, MinimumJerkProgress(t))
  }

  /** Between two times of a segment a coordinate moves towards its end, and at most 15/8 as fast as
      it would on a straight line. */
  lemma BlendMoves(start: real, end: real, u: real, v: real)
    requires 0.0 <= u <= v <= 1.0
    ensures start <= end ==> Blend(start, end, u) <= Blend(start, end, v)
    ensures start >= end ==> Blend(start, end, u) >= Blend(start, end, v)
    ensures Distance(Blend(start, end, u), Blend(start, end, v)) <= PEAK_SPEED * (Distance(start, end) * (v - u))
  {
    hide MinimumJerkProgress, Lerp, Distance;
    ProgressSpeed(u, v);
    Travel(start, end, MinimumJerkProgress(u), MinimumJerkProgress(v), v - u);
  }

  lemma Travel(start: real, end: real, p: real, q: real, d: real)
    requires 0.0 <= q - p <= PEAK_SPEED * d
    ensures start <= end ==> Lerp(start, end, p) <= Lerp(start, end, q)
    ensures start >= end ==> Lerp(start, end, p) >= Lerp(start, end, q)
    ensures Distance(Lerp(start, end, p), Lerp(start, end, q)) <= PEAK_SPEED * (Distance(start, end) * d)
  {
    var step := q - p;
    assert Lerp(start, end, q) - Lerp(start, end, p) == (end - start) * step;
    if start <= end {
      NotNegative(end - start, step);
      ProductAtMost(step, PEAK_SPEED * d, end - start);
    } else {
      NotNegative(start - end, step);
      ProductAtMost(step, PEAK_SPEED * d, start - end);
      assert (start - end) * step == -((end - start) * step);
    }
  }

  lemma BlendEnds(start: real, end: real)
    ensures Blend(start, end, 0.0) == start && Blend(start, end, 1.0) == end
  {
  }

  lemma BlendBetween(start: real, end: real, t: real)
    requires 0.0 <= t <= 1.0
    ensures Between(Blend(start, end, t), start, end)
  {
    BlendEnds(start, end);
    BlendMoves(start, end, 0.0, t);
    BlendMoves(start, end, t, 1.0);
  }
}

/** Sampling a path of joint waypoints. */
module JointPath {
  import opened RealArithmetic
  import opened MinimumJerk

  datatype LegJointTargets = LegJointTargets(hipPitch: real, kneePitch: real, anklePitch: real, ankleRoll: real)

  datatype LegJointWaypoint = LegJointWaypoint(timeMs: int, joints: LegJointTargets)

  datatype PathError = EmptyPath | NegativeFirstTime | TimesNotIncreasing

  datatype Result<T> = Ok(value: T) | Err(error: PathError)

  datatype JointName = HipPitch | KneePitch | AnklePitch | AnkleRoll

  function Joint(j: LegJointTargets, name: JointName): real {
    match name
    case HipPitch => j.hipPitch
    case KneePitch => j.kneePitch
    case AnklePitch => j.anklePitch
    case AnkleRoll => j.ankleRoll
  }

  function Interpolate(start: LegJointTargets, end: LegJointTargets, t: real): LegJointTargets {
    LegJointTargets(Lerp(start.hipPitch, end.hipPitch, t), Lerp(start.kneePitch, end.kneePitch, t),
                    Lerp(start.anklePitch, end.anklePitch, t), Lerp(start.ankleRoll, end.ankleRoll, t))
  }

  predicate Increasing(path: seq<LegJointWaypoint>) {
    forall i :: 0 < i < |path| ==> path[i - 1].timeMs < path[i].timeMs
  }

  predicate ValidPath(path: seq<LegJointWaypoint>) {
    path != [] && path[0].timeMs >= 0 && Increasing(path)
  }

  /** validateLegJointPath: what is wrong with the path, the first complaint first. */
  method ValidateLegJointPath(path: seq<LegJointWaypoint>) returns (r: Result<()>)
    ensures r.Ok? <==> ValidPath(path)
    ensures r.Err? ==> r.error == (if path == [] then EmptyPath else if path[0].timeMs < 0 then NegativeFirstTime
                                   else TimesNotIncreasing)
  {
    if path == [] {
      return Err(EmptyPath);
    }
    if path[0].timeMs < 0 {
      return Err(NegativeFirstTime);
    }
    for i := 1 to |path|
      invariant forall j :: 0 < j < i ==> path[j - 1].timeMs < path[j].timeMs
    {
      if path[i].timeMs <= path[i - 1].timeMs {
        return Err(TimesNotIncreasing);
      }
    }
    return Ok(());
  }

  /** How far into segment i the time lies. */
  function Fraction(path: seq<LegJointWaypoint>, i: nat, elapsedMs: int): real
    requires 0 < i < |path| && path[i - 1].timeMs < path[i].timeMs
  {
    (elapsedMs - path[i - 1].timeMs) as real / (path[i].timeMs - path[i - 1].timeMs) as real
  }

  /** The point of segment i at that time. */
  function OnSegment(path: seq<LegJointWaypoint>, i: nat, elapsedMs: int): LegJointTargets
    requires 0 < i < |path| && path[i - 1].timeMs < path[i].timeMs
  {
    Interpolate(path[i - 1].joints, path[i].joints, MinimumJerkProgress(Fraction(path, i, elapsedMs)))
  }

  predicate InSegment(path: seq<LegJointWaypoint>, i: nat, elapsedMs: int) {
    0 < i < |path| && path[i - 1].timeMs <= elapsedMs <= path[i].timeMs
  }

  /** The joints that a path prescribes at a time: held before the first and after the last waypoint,
      on a segment that contains the time in between. */
  ghost predicate IsSample(path: seq<LegJointWaypoint>, elapsedMs: int, joints: LegJointTargets)
    requires ValidPath(path)
  {
    && (elapsedMs <= path[0].timeMs ==> joints == path[0].joints)
    && (elapsedMs >= path[|path| - 1].timeMs ==> joints == path[|path| - 1].joints)
    && forall i :: InSegment(path, i, elapsedMs) ==> joints == OnSegment(path, i, elapsedMs)
  }

  lemma {:induction false} TimesOrdered(path: seq<LegJointWaypoint>, i: nat, j: nat)
    requires Increasing(path) && i < j < |path|
    ensures path[i].timeMs < path[j].timeMs
    decreases j
  {
    if i < j - 1 {
      TimesOrdered(path, i, j - 1);
    }
  }

  lemma OnSegmentEnds(path: seq<LegJointWaypoint>, i: nat)
    requires ValidPath(path) && 0 < i < |path|
    ensures OnSegment(path, i, path[i - 1].timeMs) == path[i - 1].joints
    ensures OnSegment(path, i, path[i].timeMs) == path[i].joints
  {
    var d := (path[i].timeMs - path[i - 1].timeMs) as real;
    assert 0.0 / d == 0.0 && d / d == 1.0;
    assert MinimumJerkProgress(0.0) == 0.0 && MinimumJerkProgress(1.0) == 1.0;
  }

  /** Segments meet at the waypoints, so it does not matter which one is taken there. */
  lemma SegmentsAgree(path: seq<LegJointWaypoint>, i: nat, j: nat, elapsedMs: int)
    requires ValidPath(path) && InSegment(path, i, elapsedMs) && InSegment(path, j, elapsedMs)
    ensures OnSegment(path, i, elapsedMs) == OnSegment(path, j, elapsedMs)
  {
    if i < j {
      SegmentsMeet(path, i, j, elapsedMs);
    } else if j < i {
      SegmentsMeet(path, j, i, elapsedMs);
    }
  }

  lemma SegmentsMeet(path: seq<LegJointWaypoint>, i: nat, j: nat, elapsedMs: int)
    requires ValidPath(path) && i < j && InSegment(path, i, elapsedMs) && InSegment(path, j, elapsedMs)
    ensures j == i + 1 && elapsedMs == path[i].timeMs
    ensures OnSegment(path, i, elapsedMs) == OnSegment(path, j, elapsedMs)
  {
    hide OnSegment;
    if i < j - 1 {
      TimesOrdered(path, i, j - 1);
    }
    OnSegmentEnds(path, i);
    OnSegmentEnds(path, j);
  }

  lemma SegmentIsSample(path: seq<LegJointWaypoint>, i: nat, elapsedMs: int)
    requires ValidPath(path) && InSegment(path, i, elapsedMs)
    ensures IsSample(path, elapsedMs, OnSegment(path, i, elapsedMs))
  {
    hide OnSegment;
    var n := |path| - 1;
    if 1 < i {
      TimesOrdered(path, 0, i - 1);
    }
    if i < n {
      TimesOrdered(path, i, n);
    }
    OnSegmentEnds(path, i);
    forall j | InSegment(path, j, elapsedMs) ensures OnSegment(path, i, elapsedMs) == OnSegment(path, j, elapsedMs) {
      SegmentsAgree(path, i, j, elapsedMs);
    }
  }

  lemma EndIsSample(path: seq<LegJointWaypoint>, elapsedMs: int)
    requires ValidPath(path)
    ensures elapsedMs <= path[0].timeMs ==> IsSample(path, elapsedMs, path[0].joints)
    ensures elapsedMs >= path[|path| - 1].timeMs ==> IsSample(path, elapsedMs, path[|path| - 1].joints)
  {
    hide OnSegment;
    var n := |path| - 1;
    if n > 0 {
      TimesOrdered(path, 0, n);
    }
    forall i: nat | InSegment(path, i, elapsedMs) && elapsedMs <= path[0].timeMs
      ensures OnSegment(path, i, elapsedMs) == path[0].joints
    {
      if i > 1 {
        TimesOrdered(path, 0, i - 1);
      }
      OnSegmentEnds(path, i);
    }
    forall i: nat | InSegment(path, i, elapsedMs) && elapsedMs >= path[n].timeMs
      ensures OnSegment(path, i, elapsedMs) == path[n].joints
    {
      if i < n {
        TimesOrdered(path, i, n);
      }
      OnSegmentEnds(path, i);
    }
  }

  /** sampleLegJointPath: refuses an invalid path; on a valid one it always finds a segment. */
  method SampleLegJointPath(path: seq<LegJointWaypoint>, elapsedMs: int) returns (r: Result<LegJointTargets>)
    ensures r.Ok? <==> ValidPath(path)
    ensures r.Ok? ==> IsSample(path, elapsedMs, r.value)
  {
    var valid := ValidateLegJointPath(path);
    if valid.Err? {
      return Err(valid.error);
    }
    EndIsSample(path, elapsedMs);
    if elapsedMs <= path[0].timeMs {
      return Ok(path[0].joints);
    }
    if elapsedMs >= path[|path| - 1].timeMs {
      return Ok(path[|path| - 1].joints);
    }
    for i := 1 to |path|
      invariant path[i - 1].timeMs < elapsedMs
    {
      if elapsedMs <= path[i].timeMs {
        var startTime, endTime := path[i - 1].timeMs, path[i].timeMs;
        var t := (elapsedMs - startTime) as real / (endTime - startTime) as real;
        SegmentIsSample(path, i, elapsedMs);
        return Ok(Interpolate(path[i - 1].joints, path[i].joints, MinimumJerkProgress(t)));
      }
    }
    assert false;
  }

  // ----- what every sample satisfies

  /** Every time has exactly one sample. */
  lemma SampleExists(path: seq<LegJointWaypoint>, elapsedMs: int) returns (joints: LegJointTargets)
    requires ValidPath(path)
    ensures IsSample(path, elapsedMs, joints)
  {
    EndIsSample(path, elapsedMs);
    if elapsedMs <= path[0].timeMs {
      joints := path[0].joints;
    } else if elapsedMs >= path[|path| - 1].timeMs {
      joints := path[|path| - 1].joints;
    } else {
      var i := FindSegment(path, elapsedMs);
      joints := OnSegment(path, i, elapsedMs);
      SegmentIsSample(path, i, elapsedMs);
    }
  }

  lemma FindSegment(path: seq<LegJointWaypoint>, elapsedMs: int) returns (i: nat)
    requires ValidPath(path) && path[0].timeMs <= elapsedMs < path[|path| - 1].timeMs
    ensures InSegment(path, i, elapsedMs) && elapsedMs < path[i].timeMs
  {
    i := 1;
    while path[i].timeMs <= elapsedMs
      invariant 0 < i < |path| && path[i - 1].timeMs <= elapsedMs
      decreases |path| - i
    {
      i := i + 1;
    }
  }

  lemma SampleIsUnique(path: seq<LegJointWaypoint>, elapsedMs: int, x: LegJointTargets, y: LegJointTargets)
    requires ValidPath(path) && IsSample(path, elapsedMs, x) && IsSample(path, elapsedMs, y)
    ensures x == y
  {
    if path[0].timeMs <= elapsedMs < path[|path| - 1].timeMs {
      var i := FindSegment(path, elapsedMs);
    }
  }

  /** Each waypoint is reached at its time. */
  lemma WaypointsAreReached(path: seq<LegJointWaypoint>, k: nat, joints: LegJointTargets)
    requires ValidPath(path) && k < |path| && IsSample(path, path[k].timeMs, joints)
    ensures joints == path[k].joints
  {
    if k > 0 {
      assert InSegment(path, k, path[k].timeMs);
      OnSegmentEnds(path, k);
    }
  }

  lemma FractionRange(path: seq<LegJointWaypoint>, i: nat, e1: int, e2: int)
    requires ValidPath(path) && InSegment(path, i, e1) && InSegment(path, i, e2) && e1 <= e2
    ensures 0.0 <= Fraction(path, i, e1) <= Fraction(path, i, e2) <= 1.0
    ensures (Fraction(path, i, e2) - Fraction(path, i, e1)) * (path[i].timeMs - path[i - 1].timeMs) as real == (e2 - e1) as real
  {
    var d := (path[i].timeMs - path[i - 1].timeMs) as real;
    var n1, n2 := (e1 - path[i - 1].timeMs) as real, (e2 - path[i - 1].timeMs) as real;
    QuotientOrder(0.0, n1, d);
    QuotientOrder(n1, n2, d);
    QuotientOrder(n2, d, d);
  }

  lemma QuotientOrder(x: real, y: real, d: real)
    requires d > 0.0 && x <= y
    ensures x / d <= y / d && (y / d) * d == y && 0.0 / d == 0.0 && d / d == 1.0
  {
  }

  lemma JointOnSegment(path: seq<LegJointWaypoint>, i: nat, elapsedMs: int, name: JointName)
    requires ValidPath(path) && 0 < i < |path|
    ensures Joint(OnSegment(path, i, elapsedMs), name)
            == Blend(Joint(path[i - 1].joints, name), Joint(path[i].joints, name), Fraction(path, i, elapsedMs))
  {
  }

  /** Within a segment every joint stays between the two waypoints. */
  lemma StaysBetweenWaypoints(path: seq<LegJointWaypoint>, i: nat, elapsedMs: int, joints: LegJointTargets, name: JointName)
    requires ValidPath(path) && InSegment(path, i, elapsedMs) && IsSample(path, elapsedMs, joints)
    ensures Between(Joint(joints, name), Joint(path[i - 1].joints, name), Joint(path[i].joints, name))
  {
    hide OnSegment, Blend, Joint, Fraction;
    JointOnSegment(path, i, elapsedMs, name);
    FractionRange(path, i, elapsedMs, elapsedMs);
    BlendBetween(Joint(path[i - 1].joints, name), Joint(path[i].joints, name), Fraction(path, i, elapsedMs));
  }

  /** Limits that all waypoints meet hold at all times. */
  lemma LimitsHold(path: seq<LegJointWaypoint>, elapsedMs: int, joints: LegJointTargets, name: JointName, low: real, high: real)
    requires ValidPath(path) && IsSample(path, elapsedMs, joints)
    requires forall k :: 0 <= k < |path| ==> low <= Joint(path[k].joints, name) <= high
    ensures low <= Joint(joints, name) <= high
  {
    if path[0].timeMs <= elapsedMs < path[|path| - 1].timeMs {
      var i := FindSegment(path, elapsedMs);
      StaysBetweenWaypoints(path, i, elapsedMs, joints, name);
    }
  }

  /** Within a segment every joint moves one way, and no faster than 15/8 times the straight line. */
  lemma MovesMonotonically(path: seq<LegJointWaypoint>, i: nat, e1: int, e2: int, j1: LegJointTargets, j2: LegJointTargets, name: JointName)
    requires ValidPath(path) && InSegment(path, i, e1) && InSegment(path, i, e2) && e1 <= e2
    requires IsSample(path, e1, j1) && IsSample(path, e2, j2)
    ensures var start, end := Joint(path[i - 1].joints, name), Joint(path[i].joints, name);
            && (start <= end ==> Joint(j1, name) <= Joint(j2, name))
            && (start >= end ==> Joint(j1, name) >= Joint(j2, name))
            && Distance(Joint(j1, name), Joint(j2, name)) * (path[i].timeMs - path[i - 1].timeMs) as real
               <= PEAK_SPEED * (Distance(start, end) * (e2 - e1) as real)
  {
    hide OnSegment, Blend, Joint, Fraction, Distance;
    JointOnSegment(path, i, e1, name);
    JointOnSegment(path, i, e2, name);
    FractionRange(path, i, e1, e2);
    var start, end := Joint(path[i - 1].joints, name), Joint(path[i].joints, name);
    var u, v := Fraction(path, i, e1), Fraction(path, i, e2);
    BlendMoves(start, end, u, v);
    Rescale(Distance(Joint(j1, name), Joint(j2, name)), Distance(start, end), v - u,
            (path[i].timeMs - path[i - 1].timeMs) as real, (e2 - e1) as real);
  }

  lemma Rescale(moved: real, span: real, part: real, d: real, elapsed: real)
    requires moved <= PEAK_SPEED * (span * part) && part * d == elapsed && d >= 0.0
    ensures moved * d <= PEAK_SPEED * (span * elapsed)
  {
    ProductAtMost(moved, PEAK_SPEED * (span * part), d);
    assert (span * part) * d == span * elapsed;
  }

  // ----- a speed limit for whole paths

  /** On a straight line no segment would exceed this speed (per millisecond). */
  ghost predicate SegmentsWithin(path: seq<LegJointWaypoint>, name: JointName, speed: real) {
    forall i :: 0 < i < |path| ==>
      Distance(Joint(path[i - 1].joints, name), Joint(path[i].joints, name))
      <= speed * (path[i].timeMs - path[i - 1].timeMs) as real
  }

  lemma OneMillisecond(path: seq<LegJointWaypoint>, e: int, j1: LegJointTargets, j2: LegJointTargets, name: JointName, speed: real)
    requires ValidPath(path) && SegmentsWithin(path, name, speed) && speed >= 0.0
    requires IsSample(path, e, j1) && IsSample(path, e + 1, j2)
    ensures Distance(Joint(j1, name), Joint(j2, name)) <= PEAK_SPEED * speed
  {
    hide OnSegment, Joint;
    if path[0].timeMs <= e < path[|path| - 1].timeMs {
      var i := FindSegment(path, e);
      MovesMonotonically(path, i, e, e + 1, j1, j2, name);
      var d := (path[i].timeMs - path[i - 1].timeMs) as real;
      Cancel(Distance(Joint(j1, name), Joint(j2, name)), Distance(Joint(path[i - 1].joints, name), Joint(path[i].joints, name)),
             speed, d);
    }
  }

  lemma Cancel(moved: real, span: real, speed: real, d: real)
    requires moved * d <= PEAK_SPEED * (span * 1.0) && span <= speed * d && d > 0.0
    ensures moved <= PEAK_SPEED * speed
  {
    if moved > PEAK_SPEED * speed {
      ProductLess(PEAK_SPEED * speed, moved, d);
    }
  }

  /** Over any stretch of time, across any number of waypoints, a joint moves at most 15/8 times the
      speed limit of the straight segments. */
  lemma {:induction false} SpeedLimitHolds(path: seq<LegJointWaypoint>, e1: int, e2: int, j1: LegJointTargets, j2: LegJointTargets,
                                           name: JointName, speed: real)
    requires ValidPath(path) && SegmentsWithin(path, name, speed) && speed >= 0.0 && e1 <= e2
    requires IsSample(path, e1, j1) && IsSample(path, e2, j2)
    ensures Distance(Joint(j1, name), Joint(j2, name)) <= (PEAK_SPEED * speed) * (e2 - e1) as real
    decreases e2 - e1
  {
    hide Distance, Joint, IsSample, SegmentsWithin;
    var limit := PEAK_SPEED * speed;
    if e1 == e2 {
      SampleIsUnique(path, e1, j1, j2);
      NoTime(Joint(j1, name), limit);
    } else {
      var before := SampleExists(path, e2 - 1);
      SpeedLimitHolds(path, e1, e2 - 1, j1, before, name, speed);
      OneMillisecond(path, e2 - 1, before, j2, name, speed);
      OneMore(Joint(j1, name), Joint(before, name), Joint(j2, name), limit, e2 - 1 - e1);
      assert (PEAK_SPEED * speed) * (e2 - e1) as real == limit * (e2 - 1 - e1 + 1) as real;
    }
  }

  lemma NoTime(x: real, limit: real)
    ensures Distance(x, x) <= limit * 0 as real
  {
  }

  lemma OneMore(x: real, y: real, z: real, limit: real, n: int)
    requires Distance(x, y) <= limit * n as real && Distance(y, z) <= limit
    ensures Distance(x, z) <= limit * (n + 1) as real
  {
    assert (n + 1) as real == n as real + 1.0;
    assert limit * (n as real + 1.0) == limit * n as real + limit;
  }
}
