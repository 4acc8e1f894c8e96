/** Which motors have replied: one bit of a 64-bit mask per slave id. */
module FeedbackTracking {

  // ----- masks

  datatype Mask = Mask(expected: bv64, current: bv64)

  function And(a: bv64, b: bv64): bv64 {
    a & b
  }

  function Or(a: bv64, b: bv64): bv64 {
    a | b
  }

  /** The bits of a that are not in b. */
  function Without(a: bv64, b: bv64): bv64 {
    a & !b
  }

  function BitForSlaveId(slaveId: int): bv64 {
    if slaveId < 0 || slaveId >= 64 then 0 else 1 << slaveId
  }

  function ExpectedMask(slaveIds: seq<int>): bv64 {
    if slaveIds == [] then 0 else Or(ExpectedMask(slaveIds[..|slaveIds| - 1]), BitForSlaveId(slaveIds[|slaveIds| - 1]))
  }

  predicate Has(mask: bv64, slaveId: int) {
    And(mask, BitForSlaveId(slaveId)) != 0
  }

  /** The mask after a reply, and whether the reply completed it. */
  function Marked(m: Mask, slaveId: int): (Mask, bool) {
    if !Has(m.expected, slaveId) then (m, false)
    else
      var current := Or(m.current, BitForSlaveId(slaveId));
      if m.expected != 0 && current == m.expected then (m.(current := 0), true) else (m.(current := current), false)
  }

  /** No bit is received that is not expected. */
  ghost predicate OnlyExpected(m: Mask) {
    Without(m.current, m.expected) == 0
  }

  // ----- facts about bits

  lemma BitsAreSingle(i: int, mask: bv64)
    requires 0 <= i < 64
    ensures BitForSlaveId(i) != 0
    ensures Has(mask, i) ==> And(mask, BitForSlaveId(i)) == BitForSlaveId(i)
  {
  }

  /** A shift count as eight bits. */
  function Count(i: int): bv8
    requires 0 <= i < 64
  {
    i as bv8
  }

  lemma CountRoundTrip(i: int)
    requires 0 <= i < 64
    ensures Count(i) as int == i
  {
  }

  lemma CountIsSmall(i: int)
    requires 0 <= i < 64
    ensures Count(i) < 64
  {
  }

  lemma BitIsShift(i: int)
    requires 0 <= i < 64
    ensures BitForSlaveId(i) == (1 as bv64) << Count(i)
  {
  }

  lemma DifferentShifts(a: bv8, b: bv8)
    requires a < 64 && b < 64 && a != b
    ensures And((1 as bv64) << a, (1 as bv64) << b) == 0
  {
  }

  lemma DifferentBits(i: int, j: int)
    requires 0 <= i < 64 && 0 <= j < 64 && i != j
    ensures And(BitForSlaveId(i), BitForSlaveId(j)) == 0
  {
    hide And, BitForSlaveId, Count;
    CountRoundTrip(i);
    CountRoundTrip(j);
    CountIsSmall(i);
    CountIsSmall(j);
    BitIsShift(i);
    BitIsShift(j);
    DifferentShifts(Count(i), Count(j));
  }

  lemma OrKeeps(m: bv64, b: bv64, c: bv64)
    requires And(m, c) != 0
    ensures And(Or(m, b), c) != 0
  {
  }

  lemma OrBringsOnly(m: bv64, b: bv64, c: bv64)
    requires And(m, c) == 0 && And(b, c) == 0
    ensures And(Or(m, b), c) == 0
  {
  }

  lemma OrBrings(m: bv64, b: bv64)
    ensures And(Or(m, b), b) == b
  {
  }

  lemma OrWithin(m: bv64, b: bv64, e: bv64)
    requires Without(m, e) == 0 && And(e, b) == b
    ensures Without(Or(m, b), e) == 0
  {
  }

  lemma Covered(e: bv64, b: bv64, c: bv64)
    requires Without(e, c) == 0 && And(c, b) == b
    ensures Without(Or(e, b), c) == 0
  {
  }

  lemma MutuallyWithin(c: bv64, e: bv64)
    requires Without(c, e) == 0 && Without(e, c) == 0
    ensures c == e
  {
  }

  lemma EmptyMask(b: bv64)
    ensures And(0, b) == 0 && Without(0, b) == 0 && And(b, 0) == 0 && And(b, b) == b
  {
  }

  /** Adding one slave's bit adds that slave and no other. */
  lemma AddBit(m: bv64, i: int, j: int)
    requires 0 <= i < 64 && 0 <= j < 64
    ensures Has(Or(m, BitForSlaveId(i)), j) <==> Has(m, j) || i == j
  {
    hide And, Or, BitForSlaveId;
    var b, c := BitForSlaveId(i), BitForSlaveId(j);
    if i == j {
      BitsAreSingle(i, b);
      OrBrings(m, b);
    } else if Has(m, j) {
      OrKeeps(m, b, c);
    } else {
      DifferentBits(i, j);
      OrBringsOnly(m, b, c);
    }
  }

  lemma NothingHas(i: int)
    ensures !Has(0, i)
  {
    hide And, Or, Without, BitForSlaveId;
    EmptyMask(BitForSlaveId(i));
  }

  ghost predicate InRange(ids: seq<int>) {
    forall k :: 0 <= k < |ids| ==> 0 <= ids[k] < 64
  }

  lemma {:induction false} ExpectedHas(ids: seq<int>, k: nat)
    requires InRange(ids) && k < |ids|
    ensures Has(ExpectedMask(ids), ids[k])
  {
    hide And, Or, Without, BitForSlaveId;
    var n := |ids| - 1;
    AddBit(ExpectedMask(ids[..n]), ids[n], ids[k]);
    if k < n {
      ExpectedHas(ids[..n], k);
    }
  }

  /** A mask that has every expected slave covers the expected mask. */
  lemma {:induction false} CoversExpected(ids: seq<int>, c: bv64)
    requires InRange(ids) && forall k :: 0 <= k < |ids| ==> Has(c, ids[k])
    ensures Without(ExpectedMask(ids), c) == 0
  {
    hide And, Or, Without, BitForSlaveId;
    if ids == [] {
      EmptyMask(c);
    } else {
      var n := |ids| - 1;
      CoversExpected(ids[..n], c);
      BitsAreSingle(ids[n], c);
      Covered(ExpectedMask(ids[..n]), BitForSlaveId(ids[n]), c);
    }
  }

  /** The mask is complete exactly when every expected slave is in it. */
  lemma CompleteIff(ids: seq<int>, c: bv64)
    requires InRange(ids) && Without(c, ExpectedMask(ids)) == 0
    ensures c == ExpectedMask(ids) <==> forall k :: 0 <= k < |ids| ==> Has(c, ids[k])
  {
    hide And, Or, Without, BitForSlaveId;
    if c == ExpectedMask(ids) {
      forall k | 0 <= k < |ids| ensures Has(c, ids[k]) {
        ExpectedHas(ids, k);
      }
    } else if forall k :: 0 <= k < |ids| ==> Has(c, ids[k]) {
      CoversExpected(ids, c);
      MutuallyWithin(c, ExpectedMask(ids));
    }
  }

  lemma NonzeroIfHas(m: bv64, i: int)
    requires Has(m, i)
    ensures m != 0
  {
    hide And, Or, Without, BitForSlaveId;
    NothingHas(i);
  }

  /** What one reply does to the mask: it completes it exactly when every other expected slave had
      replied before, and then the mask starts over. */
  lemma MarkedMeaning(ids: seq<int>, m: Mask, j: nat)
    requires InRange(ids) && m.expected == ExpectedMask(ids) && OnlyExpected(m) && j < |ids|
    ensures var (after, complete) := Marked(m, ids[j]);
            && after.expected == m.expected && OnlyExpected(after)
            && (complete <==> forall k :: 0 <= k < |ids| ==> Has(m.current, ids[k]) || ids[k] == ids[j])
            && (complete ==> after.current == 0)
            && (!complete ==> after.current != 0)
            && (!complete ==> forall k :: 0 <= k < |ids| ==> (Has(after.current, ids[k]) <==> Has(m.current, ids[k]) || ids[k] == ids[j]))
  {
    hide And, Or, Without, BitForSlaveId, ExpectedMask;
    var bit := BitForSlaveId(ids[j]);
    var current := Or(m.current, bit);
    ExpectedHas(ids, j);
    BitsAreSingle(ids[j], m.expected);
    NonzeroIfHas(m.expected, ids[j]);
    OrWithin(m.current, bit, m.expected);
    CompleteIff(ids, current);
    forall k | 0 <= k < |ids| ensures Has(current, ids[k]) <==> Has(m.current, ids[k]) || ids[k] == ids[j] {
      AddBit(m.current, ids[j], ids[k]);
    }
    AddBit(m.current, ids[j], ids[j]);
    NonzeroIfHas(current, ids[j]);
    EmptyMask(m.expected);
  }

  // ----- the two classes

  class MaskTracker {
    var expectedMask: bv64
    var currentMask: bv64

    function View(): Mask
      reads this
    {
      Mask(expectedMask, currentMask)
    }

    constructor ()
      ensures View() == Mask(0, 0)
    {
      expectedMask, currentMask := 0, 0;
    }

    method SetExpectedFromSlaveIds(slaveIds: seq<int>)
      modifies this
      ensures View() == Mask(ExpectedMask(slaveIds), 0)
    {
      hide And, Or, Without, BitForSlaveId;
      expectedMask, currentMask := 0, 0;
      for i := 0 to |slaveIds|
        invariant View() == Mask(ExpectedMask(slaveIds[..i]), 0)
      {
        expectedMask := Or(expectedMask, BitForSlaveId(slaveIds[i]));
        assert slaveIds[..i + 1][..i] == slaveIds[..i];
      }
      assert slaveIds[..|slaveIds|] == slaveIds;
    }

    method MarkReceived(slaveId: int) returns (complete: bool)
      modifies this
      ensures (View(), complete) == Marked(old(View()), slaveId)
    {
      hide And, Or, Without, BitForSlaveId;
      var bit := BitForSlaveId(slaveId);
      if And(expectedMask, bit) == 0 {
        return false;
      }
      currentMask := Or(currentMask, bit);
      if expectedMask != 0 && currentMask == expectedMask {
        currentMask := 0;
        return true;
      }
      return false;
    }

    method Expects(slaveId: int) returns (b: bool)
      ensures b == Has(expectedMask, slaveId)
    {
      hide And, Or, Without, BitForSlaveId;
      var bit := BitForSlaveId(slaveId);
      EmptyMask(expectedMask);
      b := bit != 0 && And(expectedMask, bit) != 0;
    }

    method IsReceived(slaveId: int) returns (b: bool)
      ensures b == Has(currentMask, slaveId)
    {
      hide And, Or, Without, BitForSlaveId;
      var bit := BitForSlaveId(slaveId);
      EmptyMask(currentMask);
      b := bit != 0 && And(currentMask, bit) != 0;
    }

    method ResetCurrent()
      modifies this
      ensures View() == old(View()).(current := 0)
    {
      currentMask := 0;
    }
  }

  /** The mask, and whether a frame of replies is being collected. */
  datatype Tracker = Tracker(mask: Mask, active: bool, started: int)

  function TrackerAfterReply(t: Tracker, slaveId: int, now: int): (Tracker, bool) {
    if !Has(t.mask.expected, slaveId) then (t, false)
    else
      var (mask, complete) := Marked(t.mask, slaveId);
      (Tracker(mask, !complete, if t.active then t.started else now), complete)
  }

  class FeedbackFrameTracker {
    const mask: MaskTracker
    var active: bool
    var started: int

    function View(): Tracker
      reads this, mask
    {
      Tracker(mask.View(), active, started)
    }

    constructor ()
      ensures fresh(mask) && View() == Tracker(Mask(0, 0), false, 0)
    {
      mask := new MaskTracker();
      active, started := false, 0;
    }

    method SetExpectedFromSlaveIds(slaveIds: seq<int>)
      modifies this, mask
      ensures View() == Tracker(Mask(ExpectedMask(slaveIds), 0), false, old(started))
    {
      mask.SetExpectedFromSlaveIds(slaveIds);
      active := false;
    }

    method MarkReceived(slaveId: int, now: int) returns (complete: bool)
      modifies this, mask
      ensures (View(), complete) == TrackerAfterReply(old(View()), slaveId, now)
    {
      var expected := mask.Expects(slaveId);
      if !expected {
        return false;
      }
      if !active {
        started := now;
        active := true;
      }
      complete := mask.MarkReceived(slaveId);
      if complete {
        active := false;
      }
    }

    method IsReceived(slaveId: int) returns (b: bool)
      ensures b == Has(View().mask.current, slaveId)
    {
      b := mask.IsReceived(slaveId);
    }

    method Reset()
      modifies this, mask
      ensures View() == Tracker(old(View()).mask.(current := 0), false, old(started))
    {
      mask.ResetCurrent();
      active := false;
    }
  }
}

/** The CAN receive loop: replies are collected into frames, a frame is published when every motor
    has replied or when nothing arrives in time. */
module CanReceive {
  import opened RmdTypes
  import opened MitCodec
  import opened FeedbackTracking

  type Payload = s: seq<Byte> | |s| == 8 witness seq(8, _ => 0)

  datatype CanFrame = CanFrame(id: int, data: Payload, length: int)

  /** What one call of receive yields, and the clock then. */
  datatype Event =
    | Timeout(now: int)
    | Received(now: int, frame: CanFrame)

  function StandardRxId(motorId: int): int {
    0x240 + motorId
  }

  function MitRxId(motorId: int): int {
    0x500 + motorId
  }

  // ----- the loop body on values

  /** A published frame, what caused it, and the events since the frame before it. */
  datatype Publication = Publication(frame: MotorActualFrame, byTimeout: bool, window: seq<Event>)

  /** `published` and `pending` record the history: together they are the events so far. */
  datatype RxState = RxState(
    actuals: MotorActualFrame, tracker: Tracker, published: seq<Publication>, pending: seq<Event>)

  predicate IndexesOk(motors: seq<RuntimeMotor>) {
    forall k :: 0 <= k < |motors| ==> motors[k].globalIndex < MAX_REALTIME_MOTORS
  }

  function SlaveIds(motors: seq<RuntimeMotor>): (ids: seq<int>)
    ensures |ids| == |motors| && forall k :: 0 <= k < |motors| ==> ids[k] == motors[k].slaveId
  {
    seq(|motors|, k requires 0 <= k < |motors| => motors[k].slaveId)
  }

  function Indexes(motors: seq<RuntimeMotor>): set<nat> {
    set m | m in motors :: m.globalIndex
  }

  function Start(motors: seq<RuntimeMotor>): RxState {
    RxState(MotorActualFrame(0, 0, seq(MAX_REALTIME_MOTORS, _ => MotorActual(0.0, 0.0, 0.0, 0, 0, 0, 0, 0xffff, 0)), Indexes(motors), {}),
            Tracker(Mask(ExpectedMask(SlaveIds(motors)), 0), false, 0), [], [])
  }

  function Publish(s: RxState, now: int, byTimeout: bool): RxState {
    var frame := s.actuals.(sequence := s.actuals.sequence + 1, timestamp := now);
    s.(actuals := frame, published := s.published + [Publication(frame, byTimeout, s.pending)], pending := [])
  }

  function Update(frame: MotorActualFrame, i: nat, actual: MotorActual): MotorActualFrame
    requires i < MAX_REALTIME_MOTORS
  {
    frame.(actuals := frame.actuals[i := actual])
  }

  function ReplyOf(m: RuntimeMotor, frame: CanFrame): MitFeedback {
    ParseMitReply(frame.data, frame.length, m.motorId, m.parameters.maximumTorque)
  }

  /** The records after a valid reply of m. */
  function Refreshed(actuals: MotorActualFrame, m: RuntimeMotor, feedback: MitFeedback): MotorActualFrame
    requires m.globalIndex < MAX_REALTIME_MOTORS
  {
    var i := m.globalIndex;
    Update(actuals, i, ApplyMitFeedback(actuals.actuals[i], feedback))
      .(valid := actuals.valid + {i}, stale := actuals.stale - {i})
  }

  /** The records and the tracker after a valid reply, published when it was the last one missing. */
  function Accept(s: RxState, m: RuntimeMotor, feedback: MitFeedback, now: int): RxState
    requires m.globalIndex < MAX_REALTIME_MOTORS
  {
    var (tracker, complete) := TrackerAfterReply(s.tracker, m.slaveId, now);
    var t := s.(actuals := Refreshed(s.actuals, m, feedback), tracker := tracker);
    if complete then Publish(t, now, false) else t
  }

  function HandleMotor(s: RxState, m: RuntimeMotor, now: int, frame: CanFrame): RxState
    requires m.globalIndex < MAX_REALTIME_MOTORS
  {
    var i := m.globalIndex;
    if frame.id == MitRxId(m.motorId) then
      var feedback := ReplyOf(m, frame);
      if feedback.valid then Accept(s, m, feedback, now) else s
    else if frame.id == StandardRxId(m.motorId) then
      var feedback := ParseStatus2Reply(frame.data, frame.length, m.parameters.torqueConstant);
      s.(actuals := Update(s.actuals, i, ApplyStatus2Feedback(s.actuals.actuals[i], feedback)))
    else s
  }

  function HandleMotors(s: RxState, motors: seq<RuntimeMotor>, now: int, frame: CanFrame): RxState
    requires IndexesOk(motors)
  {
    if motors == [] then s
    else HandleMotor(HandleMotors(s, motors[..|motors| - 1], now, frame), motors[|motors| - 1], now, frame)
  }

  function MarkMissing(actuals: MotorActualFrame, motors: seq<RuntimeMotor>, current: bv64): MotorActualFrame
    requires IndexesOk(motors)
  {
    if motors == [] then actuals
    else
      var m := motors[|motors| - 1];
      var before := MarkMissing(actuals, motors[..|motors| - 1], current);
      if Has(current, m.slaveId) then before
      else
        Update(before, m.globalIndex, MarkActualStale(before.actuals[m.globalIndex]))
          .(stale := before.stale + {m.globalIndex})
  }

  function Step(s: RxState, motors: seq<RuntimeMotor>, e: Event): RxState
    requires IndexesOk(motors)
  {
    var noted := s.(pending := s.pending + [e]);
    match e
    case Timeout(now) =>
      var marked := noted.(actuals := MarkMissing(s.actuals, motors, s.tracker.mask.current));
      var t := Publish(marked, now, true);
      t.(tracker := Tracker(s.tracker.mask.(current := 0), false, s.tracker.started))
    case Received(now, frame) =>
      HandleMotors(noted, motors, now, frame)
  }

  function Run(motors: seq<RuntimeMotor>, events: seq<Event>): RxState
    requires IndexesOk(motors)
  {
    if events == [] then Start(motors) else Step(Run(motors, events[..|events| - 1]), motors, events[|events| - 1])
  }

  // ----- history

  /** The event is a valid reply of motor m. */
  predicate Replies(m: RuntimeMotor, e: Event) {
    e.Received? && e.frame.id == 0x500 + m.motorId && e.frame.length == 8 && (m.motorId <= 0 || e.frame.data[0] == m.motorId)
  }

  predicate Replied(m: RuntimeMotor, events: seq<Event>) {
    exists e :: e in events && Replies(m, e)
  }

  lemma RepliedStep(m: RuntimeMotor, events: seq<Event>, e: Event)
    ensures Replied(m, events + [e]) <==> Replied(m, events) || Replies(m, e)
  {
    if Replied(m, events) {
      var x :| x in events && Replies(m, x);
      assert x in events + [e];
    }
    if Replies(m, e) {
      assert e in events + [e];
    }
  }

  /** The last valid reply of motor m among the events, if there is one. */
  function LastReply(m: RuntimeMotor, events: seq<Event>): MitFeedback {
    if events == [] then NO_FEEDBACK
    else
      var e := events[|events| - 1];
      if Replies(m, e) then ReplyOf(m, e.frame) else LastReply(m, events[..|events| - 1])
  }

  lemma LastReplyStep(m: RuntimeMotor, events: seq<Event>, e: Event)
    ensures LastReply(m, events + [e]) == if Replies(m, e) then ReplyOf(m, e.frame) else LastReply(m, events)
  {
    assert (events + [e])[..|events|] == events;
  }

  /** Motors of one bus: ids are distinct, slave ids fit the mask. */
  ghost predicate MotorsOk(motors: seq<RuntimeMotor>) {
    && IndexesOk(motors) && InRange(SlaveIds(motors))
    && forall j, k :: 0 <= j < k < |motors| ==> Apart(motors[j], motors[k])
  }

  ghost predicate Apart(m: RuntimeMotor, n: RuntimeMotor) {
    m.globalIndex != n.globalIndex && m.motorId != n.motorId && m.slaveId != n.slaveId
  }

  // ----- the invariant

  predicate IsStale(frame: MotorActualFrame, i: nat)
    requires i < MAX_REALTIME_MOTORS
  {
    i in frame.stale && frame.actuals[i].statusWord == 0xffff && frame.actuals[i].errorCode == 1
  }

  /** The record of motor i is fresh and carries this reply. */
  predicate ShowsReply(frame: MotorActualFrame, i: nat, f: MitFeedback)
    requires i < MAX_REALTIME_MOTORS
  {
    var a := frame.actuals[i];
    i !in frame.stale && a.statusWord == 0x0237 && a.errorCode == 0 && a.pos == f.position && a.vel == f.velocity
  }

  /** The record of motor m is fresh and carries its last reply in these events. */
  predicate Shows(frame: MotorActualFrame, m: RuntimeMotor, events: seq<Event>)
    requires m.globalIndex < MAX_REALTIME_MOTORS
  {
    ShowsReply(frame, m.globalIndex, LastReply(m, events))
  }

  /** A published frame tells for every motor whether it replied in the frame's window. */
  ghost predicate PublicationOk(p: Publication, motors: seq<RuntimeMotor>)
    requires IndexesOk(motors)
  {
    forall m :: m in motors ==>
      && m.globalIndex in p.frame.valid
      && (if Replied(m, p.window) then Shows(p.frame, m, p.window) else IsStale(p.frame, m.globalIndex))
      && (!p.byTimeout ==> Replied(m, p.window))
  }

  ghost predicate MotorOk(s: RxState, m: RuntimeMotor)
    requires m.globalIndex < MAX_REALTIME_MOTORS
  {
    && m.globalIndex in s.actuals.valid
    && (Has(s.tracker.mask.current, m.slaveId) <==> Replied(m, s.pending))
    && (Replied(m, s.pending) ==> Shows(s.actuals, m, s.pending))
  }

  ghost predicate TrackerOk(t: Tracker, motors: seq<RuntimeMotor>) {
    && t.mask.expected == ExpectedMask(SlaveIds(motors))
    && OnlyExpected(t.mask)
    && (t.active <==> t.mask.current != 0)
  }

  ghost predicate PublishedOk(s: RxState, motors: seq<RuntimeMotor>)
    requires IndexesOk(motors)
  {
    && s.actuals.sequence == |s.published|
    && forall i :: 0 <= i < |s.published| ==>
         PublicationOk(s.published[i], motors) && s.published[i].frame.sequence == i + 1
  }

  ghost predicate Inv(s: RxState, motors: seq<RuntimeMotor>)
    requires IndexesOk(motors)
  {
    && TrackerOk(s.tracker, motors)
    && (forall m :: m in motors ==> MotorOk(s, m))
    && PublishedOk(s, motors)
  }

  lemma StartInv(motors: seq<RuntimeMotor>)
    requires MotorsOk(motors)
    ensures Inv(Start(motors), motors)
  {
    hide And, Or, Without, BitForSlaveId;
    EmptyMask(ExpectedMask(SlaveIds(motors)));
    forall m | m in motors ensures MotorOk(Start(motors), m) {
      NothingHas(m.slaveId);
    }
  }

  // ----- events that are no valid reply

  /** The same but for torque and temperature, which the status reply brings. */
  ghost predicate SameReply(a: MotorActual, b: MotorActual) {
    a.statusWord == b.statusWord && a.errorCode == b.errorCode && a.pos == b.pos && a.vel == b.vel
  }

  /** Nothing changed that anyone can tell a reply, or its absence, by. */
  ghost predicate Quiet(s: RxState, t: RxState) {
    && t.tracker == s.tracker && t.published == s.published && t.pending == s.pending
    && t.actuals.sequence == s.actuals.sequence && t.actuals.valid == s.actuals.valid && t.actuals.stale == s.actuals.stale
    && forall i :: 0 <= i < MAX_REALTIME_MOTORS ==> SameReply(s.actuals.actuals[i], t.actuals.actuals[i])
  }

  lemma QuietMotor(s: RxState, m: RuntimeMotor, now: int, frame: CanFrame)
    requires m.globalIndex < MAX_REALTIME_MOTORS && !Replies(m, Received(now, frame))
    ensures Quiet(s, HandleMotor(s, m, now, frame))
  {
  }

  lemma QuietKeepsInv(s: RxState, t: RxState, motors: seq<RuntimeMotor>)
    requires IndexesOk(motors) && Inv(s, motors) && Quiet(s, t)
    ensures Inv(t, motors)
  {
    forall m | m in motors ensures MotorOk(t, m) {
      assert MotorOk(s, m);
    }
  }

  // ----- a valid reply

  /** The state in which motor j's reply e is about to be handled: the event is noted already. */
  ghost predicate Awaiting(s: RxState, motors: seq<RuntimeMotor>, before: seq<Event>, e: Event)
    requires IndexesOk(motors)
  {
    s.pending == before + [e] && Inv(s.(pending := before), motors)
  }

  ghost predicate OnlyReply(motors: seq<RuntimeMotor>, j: nat, e: Event) {
    j < |motors| && forall k :: 0 <= k < |motors| ==> (Replies(motors[k], e) <==> k == j)
  }

  lemma NotedKeeps(s: RxState, motors: seq<RuntimeMotor>, before: seq<Event>, e: Event, m: RuntimeMotor)
    requires IndexesOk(motors) && Awaiting(s, motors, before, e) && m in motors
    ensures m.globalIndex in s.actuals.valid
    ensures Has(s.tracker.mask.current, m.slaveId) <==> Replied(m, before)
    ensures Replied(m, before) ==> Shows(s.actuals, m, before)
    ensures Replied(m, s.pending) <==> Replied(m, before) || Replies(m, e)
    ensures LastReply(m, s.pending) == if Replies(m, e) then ReplyOf(m, e.frame) else LastReply(m, before)
  {
    hide LastReply, ReplyOf;
    assert MotorOk(s.(pending := before), m);
    RepliedStep(m, before, e);
    LastReplyStep(m, before, e);
  }

  /** What accepting a reply does to the tracker. */
  lemma TrackerStep(t: Tracker, motors: seq<RuntimeMotor>, j: nat, now: int)
    requires MotorsOk(motors) && TrackerOk(t, motors) && j < |motors|
    ensures var (after, complete) := TrackerAfterReply(t, motors[j].slaveId, now);
            && TrackerOk(after, motors)
            && (complete <==> forall k :: 0 <= k < |motors| ==> Has(t.mask.current, motors[k].slaveId) || k == j)
            && (complete ==> after.mask.current == 0)
            && (!complete ==> forall k :: 0 <= k < |motors| ==>
                  (Has(after.mask.current, motors[k].slaveId) <==> Has(t.mask.current, motors[k].slaveId) || k == j))
  {
    hide And, Or, Without, BitForSlaveId, ExpectedMask, Has, OnlyExpected, Marked;
    var ids := SlaveIds(motors);
    ExpectedHas(ids, j);
    MarkedMeaning(ids, t.mask, j);
    forall k | 0 <= k < |motors| ensures ids[k] == ids[j] <==> k == j {
      if k < j {
        assert Apart(motors[k], motors[j]);
      } else if j < k {
        assert Apart(motors[j], motors[k]);
      }
    }
  }

  lemma RefreshedRecords(actuals: MotorActualFrame, motors: seq<RuntimeMotor>, j: nat, feedback: MitFeedback, k: nat)
    requires MotorsOk(motors) && j < |motors| && k < |motors| && feedback.valid
    ensures var r, i := Refreshed(actuals, motors[j], feedback), motors[k].globalIndex;
            if k == j then i in r.valid && ShowsReply(r, i, feedback)
            else
              && (i in r.valid <==> i in actuals.valid) && (i in r.stale <==> i in actuals.stale)
              && r.actuals[i] == actuals.actuals[i]
  {
    if k < j {
      assert Apart(motors[k], motors[j]);
    } else if j < k {
      assert Apart(motors[j], motors[k]);
    }
  }

  lemma FreshAfterReply(s: RxState, motors: seq<RuntimeMotor>, before: seq<Event>, e: Event, j: nat, feedback: MitFeedback)
    requires MotorsOk(motors) && Awaiting(s, motors, before, e) && OnlyReply(motors, j, e)
    requires feedback.valid && e.Received? && feedback == ReplyOf(motors[j], e.frame)
    ensures var r := Refreshed(s.actuals, motors[j], feedback);
            forall m :: m in motors ==>
              m.globalIndex in r.valid && (Replied(m, s.pending) ==> Shows(r, m, s.pending))
  {
    hide Inv, Replied, Replies, ReplyOf, LastReply, Refreshed;
    var r := Refreshed(s.actuals, motors[j], feedback);
    forall m | m in motors
      ensures m.globalIndex in r.valid && (Replied(m, s.pending) ==> Shows(r, m, s.pending))
    {
      var k :| 0 <= k < |motors| && motors[k] == m;
      NotedKeeps(s, motors, before, e, m);
      RefreshedRecords(s.actuals, motors, j, feedback, k);
    }
  }

  lemma MaskIsReplied(s: RxState, motors: seq<RuntimeMotor>, before: seq<Event>, e: Event, j: nat)
    requires MotorsOk(motors) && Awaiting(s, motors, before, e) && OnlyReply(motors, j, e)
    ensures forall k :: 0 <= k < |motors| ==>
              (Replied(motors[k], s.pending) <==> Has(s.tracker.mask.current, motors[k].slaveId) || k == j)
  {
    hide Inv, Replied;
    forall k | 0 <= k < |motors|
      ensures Replied(motors[k], s.pending) <==> Has(s.tracker.mask.current, motors[k].slaveId) || k == j
    {
      NotedKeeps(s, motors, before, e, motors[k]);
    }
  }

  lemma EmptyWindow(s: RxState, m: RuntimeMotor)
    requires m.globalIndex < MAX_REALTIME_MOTORS && m.globalIndex in s.actuals.valid
    requires s.pending == [] && s.tracker.mask.current == 0
    ensures MotorOk(s, m)
  {
    hide And, BitForSlaveId;
    NothingHas(m.slaveId);
  }

  /** A publication of a window whose replies the records show starts the next window. */
  lemma PublishKeepsInv(s: RxState, motors: seq<RuntimeMotor>, now: int, byTimeout: bool)
    requires IndexesOk(motors) && TrackerOk(s.tracker, motors) && s.tracker.mask.current == 0 && PublishedOk(s, motors)
    requires PublicationOk(Publication(s.actuals, byTimeout, s.pending), motors)
    ensures Inv(Publish(s, now, byTimeout), motors)
  {
    hide TrackerOk, MotorOk, Replied;
    var t := Publish(s, now, byTimeout);
    var p := Publication(s.actuals, byTimeout, s.pending);
    assert PublicationOk(t.published[|s.published|], motors) by {
      forall m | m in motors
        ensures IsStale(t.actuals, m.globalIndex) == IsStale(p.frame, m.globalIndex)
        ensures Shows(t.actuals, m, s.pending) == Shows(p.frame, m, s.pending)
      {
      }
    }
    forall m | m in motors ensures MotorOk(t, m) {
      EmptyWindow(t, m);
    }
  }

  lemma AcceptKeepsInv(s: RxState, motors: seq<RuntimeMotor>, before: seq<Event>, e: Event, j: nat, feedback: MitFeedback, now: int)
    requires MotorsOk(motors) && Awaiting(s, motors, before, e) && OnlyReply(motors, j, e)
    requires feedback.valid && e.Received? && feedback == ReplyOf(motors[j], e.frame)
    ensures Inv(Accept(s, motors[j], feedback, now), motors)
  {
    hide Replied, Shows, ReplyOf, TrackerAfterReply, TrackerOk, Has, Refreshed;
    var (tracker, complete) := TrackerAfterReply(s.tracker, motors[j].slaveId, now);
    var t := s.(actuals := Refreshed(s.actuals, motors[j], feedback), tracker := tracker);
    FreshAfterReply(s, motors, before, e, j, feedback);
    TrackerStep(s.tracker, motors, j, now);
    MaskIsReplied(s, motors, before, e, j);
    RefreshedSequence(s.actuals, motors[j], feedback);
    assert PublishedOk(t, motors);
    if complete {
      PublishKeepsInv(t, motors, now, false);
    } else {
      forall m | m in motors ensures MotorOk(t, m) {
        var k :| 0 <= k < |motors| && motors[k] == m;
      }
    }
  }

  lemma RefreshedSequence(actuals: MotorActualFrame, m: RuntimeMotor, feedback: MitFeedback)
    requires m.globalIndex < MAX_REALTIME_MOTORS
    ensures Refreshed(actuals, m, feedback).sequence == actuals.sequence
  {
  }

  // ----- one received frame

  /** A frame id belongs to one motor. */
  lemma OneSender(motors: seq<RuntimeMotor>, j: nat, e: Event)
    requires MotorsOk(motors) && j < |motors| && Replies(motors[j], e)
    ensures OnlyReply(motors, j, e)
  {
    hide ReplyOf;
    forall k | 0 <= k < |motors| ensures Replies(motors[k], e) <==> k == j {
      if k < j {
        assert Apart(motors[k], motors[j]);
      } else if j < k {
        assert Apart(motors[j], motors[k]);
      }
    }
  }

  ghost predicate SomeReply(motors: seq<RuntimeMotor>, n: nat, e: Event)
    requires n <= |motors|
  {
    exists k :: 0 <= k < n && Replies(motors[k], e)
  }

  lemma HandleStep(s: RxState, motors: seq<RuntimeMotor>, n: nat, now: int, frame: CanFrame)
    requires IndexesOk(motors) && n < |motors|
    ensures HandleMotors(s, motors[..n + 1], now, frame)
            == HandleMotor(HandleMotors(s, motors[..n], now, frame), motors[n], now, frame)
  {
    assert motors[..n + 1][..n] == motors[..n];
  }

  lemma HandleReply(s: RxState, m: RuntimeMotor, now: int, frame: CanFrame)
    requires m.globalIndex < MAX_REALTIME_MOTORS && Replies(m, Received(now, frame))
    ensures ReplyOf(m, frame).valid && HandleMotor(s, m, now, frame) == Accept(s, m, ReplyOf(m, frame), now)
  {
  }

  lemma QuietAwaits(s: RxState, t: RxState, motors: seq<RuntimeMotor>, before: seq<Event>, e: Event)
    requires IndexesOk(motors) && Awaiting(s, motors, before, e) && Quiet(s, t)
    ensures Awaiting(t, motors, before, e)
  {
    hide Inv;
    QuietKeepsInv(s.(pending := before), t.(pending := before), motors);
  }

  /** After the first n motors: still awaiting the reply, or the reply is dealt with. */
  lemma {:induction false} HandleKeepsInv(s: RxState, motors: seq<RuntimeMotor>, before: seq<Event>, n: nat, now: int, frame: CanFrame)
    requires MotorsOk(motors) && n <= |motors| && Awaiting(s, motors, before, Received(now, frame))
    ensures var t, e := HandleMotors(s, motors[..n], now, frame), Received(now, frame);
            if SomeReply(motors, n, e) then Inv(t, motors) else Awaiting(t, motors, before, e)
  {
    hide Inv, Quiet, Awaiting, Accept, HandleMotor, Replies, Apart;
    if n > 0 {
      var e := Received(now, frame);
      var u := HandleMotors(s, motors[..n - 1], now, frame);
      HandleKeepsInv(s, motors, before, n - 1, now, frame);
      HandleStep(s, motors, n - 1, now, frame);
      var m := motors[n - 1];
      if Replies(m, e) {
        OneSender(motors, n - 1, e);
        assert !SomeReply(motors, n - 1, e);
        HandleReply(u, m, now, frame);
        AcceptKeepsInv(u, motors, before, e, n - 1, ReplyOf(m, frame), now);
      } else {
        QuietMotor(u, m, now, frame);
        if SomeReply(motors, n - 1, e) {
          QuietKeepsInv(u, HandleMotor(u, m, now, frame), motors);
        } else {
          QuietAwaits(u, HandleMotor(u, m, now, frame), motors, before, e);
        }
      }
    }
  }

  lemma NoReplyKeepsInv(s: RxState, motors: seq<RuntimeMotor>, before: seq<Event>, e: Event)
    requires IndexesOk(motors) && Awaiting(s, motors, before, e)
    requires forall m :: m in motors ==> !Replies(m, e)
    ensures Inv(s, motors)
  {
    hide Replied, TrackerOk, Replies, LastReply;
    forall m | m in motors ensures MotorOk(s, m) {
      NotedKeeps(s, motors, before, e, m);
    }
  }

  lemma NoteAwaits(s: RxState, motors: seq<RuntimeMotor>, e: Event)
    requires IndexesOk(motors) && Inv(s, motors)
    ensures Awaiting(s.(pending := s.pending + [e]), motors, s.pending, e)
  {
    hide Inv;
    assert s.(pending := s.pending + [e]).(pending := s.pending) == s;
  }

  lemma ReceivedKeepsInv(s: RxState, motors: seq<RuntimeMotor>, now: int, frame: CanFrame)
    requires MotorsOk(motors) && Inv(s, motors)
    ensures Inv(Step(s, motors, Received(now, frame)), motors)
  {
    hide Inv, Awaiting, Replies, HandleMotors;
    var e := Received(now, frame);
    NoteAwaits(s, motors, e);
    HandleKeepsInv(s.(pending := s.pending + [e]), motors, s.pending, |motors|, now, frame);
    assert motors[..|motors|] == motors;
    if !SomeReply(motors, |motors|, e) {
      NoReplyKeepsInv(HandleMotors(s.(pending := s.pending + [e]), motors, now, frame), motors, s.pending, e);
    }
  }

  // ----- a timeout

  /** Marking touches the motors missing from the mask and no other. */
  lemma {:induction false} MarkMissingMeaning(actuals: MotorActualFrame, motors: seq<RuntimeMotor>, current: bv64, i: nat)
    requires IndexesOk(motors) && i < MAX_REALTIME_MOTORS
    ensures var r := MarkMissing(actuals, motors, current);
            && r.valid == actuals.valid && r.sequence == actuals.sequence
            && (if exists m :: m in motors && m.globalIndex == i && !Has(current, m.slaveId) then IsStale(r, i)
                else (i in r.stale <==> i in actuals.stale) && r.actuals[i] == actuals.actuals[i])
  {
    hide Has;
    if motors != [] {
      MarkMissingMeaning(actuals, motors[..|motors| - 1], current, i);
    }
  }

  lemma IndexesNameMotors(motors: seq<RuntimeMotor>, m: RuntimeMotor)
    requires MotorsOk(motors) && m in motors
    ensures forall n :: n in motors && n.globalIndex == m.globalIndex ==> n == m
  {
    forall n | n in motors && n != m ensures n.globalIndex != m.globalIndex {
      var j, k :| 0 <= j < |motors| && 0 <= k < |motors| && motors[j] == m && motors[k] == n;
      if k < j {
        assert Apart(motors[k], motors[j]);
      } else {
        assert Apart(motors[j], motors[k]);
      }
    }
  }

  lemma MarkedRecord(actuals: MotorActualFrame, motors: seq<RuntimeMotor>, current: bv64, j: nat)
    requires MotorsOk(motors) && j < |motors|
    ensures var m, r := motors[j], MarkMissing(actuals, motors, current);
            && (m.globalIndex in r.valid <==> m.globalIndex in actuals.valid)
            && (if !Has(current, m.slaveId) then IsStale(r, m.globalIndex)
                else (m.globalIndex in r.stale <==> m.globalIndex in actuals.stale) &&
                     r.actuals[m.globalIndex] == actuals.actuals[m.globalIndex])
  {
    hide Has, MarkMissing;
    var m := motors[j];
    MarkMissingMeaning(actuals, motors, current, m.globalIndex);
    IndexesNameMotors(motors, m);
  }

  /** Publishing and resetting the tracker can be told in either order. */
  lemma TimeoutStep(s: RxState, motors: seq<RuntimeMotor>, now: int)
    requires IndexesOk(motors)
    ensures Step(s, motors, Timeout(now)) ==
            Publish(RxState(MarkMissing(s.actuals, motors, s.tracker.mask.current),
                            Tracker(s.tracker.mask.(current := 0), false, s.tracker.started),
                            s.published, s.pending + [Timeout(now)]), now, true)
  {
  }

  lemma TimeoutPublication(s: RxState, motors: seq<RuntimeMotor>, now: int)
    requires MotorsOk(motors) && Inv(s, motors)
    ensures PublicationOk(Publication(MarkMissing(s.actuals, motors, s.tracker.mask.current), true, s.pending + [Timeout(now)]), motors)
  {
    hide Has, MarkMissing, Replied, IsStale, LastReply, TrackerOk, PublishedOk;
    forall m | m in motors
      ensures var r, window := MarkMissing(s.actuals, motors, s.tracker.mask.current), s.pending + [Timeout(now)];
              m.globalIndex in r.valid && if Replied(m, window) then Shows(r, m, window) else IsStale(r, m.globalIndex)
    {
      var j :| 0 <= j < |motors| && motors[j] == m;
      MarkedRecord(s.actuals, motors, s.tracker.mask.current, j);
      RepliedStep(m, s.pending, Timeout(now));
      LastReplyStep(m, s.pending, Timeout(now));
      assert MotorOk(s, m);
    }
  }

  lemma TimeoutKeepsInv(s: RxState, motors: seq<RuntimeMotor>, now: int)
    requires MotorsOk(motors) && Inv(s, motors)
    ensures Inv(Step(s, motors, Timeout(now)), motors)
  {
    hide And, Or, Without, BitForSlaveId, MarkMissing, Publish, PublicationOk, MotorOk, ExpectedMask;
    TimeoutStep(s, motors, now);
    TimeoutPublication(s, motors, now);
    EmptyMask(s.tracker.mask.expected);
    MarkedSequence(s.actuals, motors, s.tracker.mask.current);
    PublishKeepsInv(RxState(MarkMissing(s.actuals, motors, s.tracker.mask.current),
                            Tracker(s.tracker.mask.(current := 0), false, s.tracker.started),
                            s.published, s.pending + [Timeout(now)]), motors, now, true);
  }

  lemma MarkedSequence(actuals: MotorActualFrame, motors: seq<RuntimeMotor>, current: bv64)
    requires IndexesOk(motors)
    ensures MarkMissing(actuals, motors, current).sequence == actuals.sequence
  {
    MarkMissingMeaning(actuals, motors, current, 0);
  }

  // ----- whole runs

  lemma {:induction false} RunKeepsInv(motors: seq<RuntimeMotor>, events: seq<Event>)
    requires MotorsOk(motors)
    ensures Inv(Run(motors, events), motors)
  {
    hide Inv, Step, Start;
    if events == [] {
      StartInv(motors);
    } else {
      var n := |events| - 1;
      RunKeepsInv(motors, events[..n]);
      match events[n] {
        case Timeout(now) => TimeoutKeepsInv(Run(motors, events[..n]), motors, now);
        case Received(now, frame) => ReceivedKeepsInv(Run(motors, events[..n]), motors, now, frame);
      }
    }
  }

  /** In every frame ever published a motor is stale exactly when no valid reply of it came since the
      publication before, and otherwise shows the position and velocity of its last one; a frame not
      published by a timeout has no stale motor. */
  lemma StaleMeansSilent(motors: seq<RuntimeMotor>, events: seq<Event>, i: nat, m: RuntimeMotor)
    requires MotorsOk(motors) && m in motors && i < |Run(motors, events).published|
    ensures var p, g := Run(motors, events).published[i], m.globalIndex;
            && p.frame.sequence == i + 1 && g in p.frame.valid
            && (g in p.frame.stale <==> !Replied(m, p.window))
            && (p.frame.actuals[g].statusWord == 0xffff <==> !Replied(m, p.window))
            && (!Replied(m, p.window) ==> p.frame.actuals[g].errorCode == 1)
            && (Replied(m, p.window) ==> ShowsReply(p.frame, g, LastReply(m, p.window)))
            && (!p.byTimeout ==> g !in p.frame.stale)
  {
    hide Run, Replied, LastReply, TrackerOk, MotorOk;
    RunKeepsInv(motors, events);
  }

  /** The masks of every reachable state. */
  lemma MasksAgree(motors: seq<RuntimeMotor>, events: seq<Event>)
    requires MotorsOk(motors)
    ensures TrackerOk(Run(motors, events).tracker, motors)
  {
    hide Run, TrackerOk, MotorOk, PublishedOk;
    RunKeepsInv(motors, events);
  }

  /** The windows of the published frames, one after the other. */
  function Windows(published: seq<Publication>): seq<Event> {
    if published == [] then [] else Windows(published[..|published| - 1]) + published[|published| - 1].window
  }

  ghost predicate Complete(s: RxState, events: seq<Event>) {
    Windows(s.published) + s.pending == events
  }

  lemma WindowsStep(published: seq<Publication>, p: Publication)
    ensures Windows(published + [p]) == Windows(published) + p.window
  {
    assert (published + [p])[..|published|] == published;
  }

  lemma PublishComplete(s: RxState, now: int, byTimeout: bool, events: seq<Event>)
    requires Complete(s, events)
    ensures Complete(Publish(s, now, byTimeout), events)
  {
    var frame := s.actuals.(sequence := s.actuals.sequence + 1, timestamp := now);
    WindowsStep(s.published, Publication(frame, byTimeout, s.pending));
  }

  lemma HandleMotorComplete(s: RxState, m: RuntimeMotor, now: int, frame: CanFrame, events: seq<Event>)
    requires m.globalIndex < MAX_REALTIME_MOTORS && Complete(s, events)
    ensures Complete(HandleMotor(s, m, now, frame), events)
  {
    hide Publish, Complete, Refreshed, TrackerAfterReply, ReplyOf;
    var f := ReplyOf(m, frame);
    var (tracker, complete) := TrackerAfterReply(s.tracker, m.slaveId, now);
    var t := s.(actuals := Refreshed(s.actuals, m, f), tracker := tracker);
    SameHistory(s, t, events);
    SameHistory(s, HandleMotor(s, m, now, frame), events);
    PublishComplete(t, now, false, events);
  }

  lemma SameHistory(s: RxState, t: RxState, events: seq<Event>)
    requires Complete(s, events)
    ensures t.published == s.published && t.pending == s.pending ==> Complete(t, events)
  {
  }

  lemma {:induction false} HandleMotorsComplete(s: RxState, motors: seq<RuntimeMotor>, now: int, frame: CanFrame, events: seq<Event>)
    requires IndexesOk(motors) && Complete(s, events)
    ensures Complete(HandleMotors(s, motors, now, frame), events)
  {
    hide Complete, HandleMotor;
    if motors != [] {
      var n := |motors| - 1;
      HandleMotorsComplete(s, motors[..n], now, frame, events);
      HandleMotorComplete(HandleMotors(s, motors[..n], now, frame), motors[n], now, frame, events);
    }
  }

  lemma NoteComplete(s: RxState, events: seq<Event>, e: Event)
    requires Complete(s, events)
    ensures Complete(s.(pending := s.pending + [e]), events + [e])
  {
    assert Windows(s.published) + (s.pending + [e]) == (Windows(s.published) + s.pending) + [e];
  }

  /** No event is lost or counted twice: the windows of the published frames and the events pending
      since the last one are, in order, all events there were. */
  lemma {:induction false} WindowsPartitionEvents(motors: seq<RuntimeMotor>, events: seq<Event>)
    requires IndexesOk(motors)
    ensures Windows(Run(motors, events).published) + Run(motors, events).pending == events
  {
    hide HandleMotors, Publish, MarkMissing, Windows;
    if events == [] {
      NoWindows();
    } else {
      var n, e := |events| - 1, events[|events| - 1];
      var s := Run(motors, events[..n]);
      WindowsPartitionEvents(motors, events[..n]);
      NoteComplete(s, events[..n], e);
      assert events[..n] + [e] == events;
      var noted := s.(pending := s.pending + [e]);
      match e {
        case Timeout(now) =>
          var t := RxState(MarkMissing(s.actuals, motors, s.tracker.mask.current),
                           Tracker(s.tracker.mask.(current := 0), false, s.tracker.started),
                           s.published, s.pending + [e]);
          SameHistory(noted, t, events);
          TimeoutStep(s, motors, now);
          PublishComplete(t, now, true, events);
        case Received(now, frame) =>
          HandleMotorsComplete(noted, motors, now, frame, events);
      }
    }
  }

  lemma NoWindows()
    ensures Windows([]) == []
  {
  }

  // ----- what the records say of the motors

  /** The event is a valid status reply of motor m. */
  predicate ReportsStatus(m: RuntimeMotor, e: Event) {
    e.Received? && e.frame.id == 0x240 + m.motorId && e.frame.length == 8 && e.frame.data[0] == 0x9c
  }

  /** The physical values of a motor. */
  datatype Record = Record(pos: real, vel: real, tor: real, temp: int)

  /** The values after one more event: a reply brings position and velocity, a status reply brings torque
      (hundredths of an ampere, low byte first, times the torque constant) and temperature. */
  function NextRecord(m: RuntimeMotor, r: Record, e: Event): Record {
    if Replies(m, e) then
      var d := e.frame.data;
      r.(pos := UintToFloat(0x100 * d[1] as int + d[2] as int, -12.566, 12.566, 16),
         vel := UintToFloat(0x10 * d[3] as int + d[4] as int / 0x10, -45.0, 45.0, 12))
    else if ReportsStatus(m, e) then
      var d := e.frame.data;
      var current := d[2] as int + 0x100 * d[3] as int;
      r.(tor := (if current < 0x8000 then current else current - 0x1_0000) as real / 100.0 * m.parameters.torqueConstant,
         temp := if d[1] < 0x80 then d[1] as int else d[1] as int - 0x100)
    else r
  }

  /** What the events say of motor m: its last values, zero if there were none. */
  function RecordAfter(m: RuntimeMotor, events: seq<Event>): Record {
    if events == [] then Record(0.0, 0.0, 0.0, 0)
    else NextRecord(m, RecordAfter(m, events[..|events| - 1]), events[|events| - 1])
  }

  ghost predicate Carries(frame: MotorActualFrame, m: RuntimeMotor, r: Record)
    requires m.globalIndex < MAX_REALTIME_MOTORS
  {
    var a := frame.actuals[m.globalIndex];
    a.pos == r.pos && a.vel == r.vel && a.tor == r.tor && a.temp == r.temp && a.driveTemp == a.voltage == a.encoderCount == 0
  }

  ghost predicate DistinctPlaces(motors: seq<RuntimeMotor>) {
    IndexesOk(motors) && forall j, k :: 0 <= j < k < |motors| ==> motors[j].globalIndex != motors[k].globalIndex
  }

  /** One frame is for m, and completes the replies as that of another motor. */
  ghost predicate Mistaken(motors: seq<RuntimeMotor>, m: RuntimeMotor, e: Event) {
    (Replies(m, e) || ReportsStatus(m, e)) && exists n :: n in motors && n != m && Replies(n, e)
  }

  /** The published record of m says what the events up to the publication say; only a frame taken for
      another motor's as well may still be missing. */
  ghost predicate Recorded(p: Publication, motors: seq<RuntimeMotor>, m: RuntimeMotor, upto: seq<Event>)
    requires m.globalIndex < MAX_REALTIME_MOTORS
  {
    Carries(p.frame, m, RecordAfter(m, upto)) ||
    (|upto| > 0 && Mistaken(motors, m, upto[|upto| - 1]) && Carries(p.frame, m, RecordAfter(m, upto[..|upto| - 1])))
  }

  ghost predicate AllRecorded(published: seq<Publication>, motors: seq<RuntimeMotor>)
    requires IndexesOk(motors)
  {
    forall i, m :: 0 <= i < |published| && m in motors ==> Recorded(published[i], motors, m, Windows(published[..i + 1]))
  }

  lemma RecordStep(m: RuntimeMotor, events: seq<Event>, e: Event)
    ensures RecordAfter(m, events + [e]) == NextRecord(m, RecordAfter(m, events), e)
  {
    assert (events + [e])[..|events|] == events;
  }

  lemma PublishRecorded(published: seq<Publication>, p: Publication, motors: seq<RuntimeMotor>, upto: seq<Event>)
    requires IndexesOk(motors) && AllRecorded(published, motors) && Windows(published) + p.window == upto
    requires forall m :: m in motors ==> Recorded(p, motors, m, upto)
    ensures AllRecorded(published + [p], motors)
  {
    hide Recorded;
    var all := published + [p];
    forall i, m | 0 <= i < |all| && m in motors ensures Recorded(all[i], motors, m, Windows(all[..i + 1])) {
      if i < |published| {
        assert all[..i + 1] == published[..i + 1];
      } else {
        assert all[..i + 1] == published + [p];
        WindowsStep(published, p);
      }
    }
  }

  /** What m makes of a frame: its own record follows, the others stay, and at most one publication,
      of the records as they then are. */
  ghost predicate RecordEffect(s: RxState, t: RxState, m: RuntimeMotor, e: Event)
    requires m.globalIndex < MAX_REALTIME_MOTORS
  {
    && (forall i :: 0 <= i < MAX_REALTIME_MOTORS && i != m.globalIndex ==> t.actuals.actuals[i] == s.actuals.actuals[i])
    && (forall r :: Carries(s.actuals, m, r) ==> Carries(t.actuals, m, NextRecord(m, r, e)))
    && (t.published == s.published || (Replies(m, e) && Publishes(s, t)))
  }

  ghost predicate Publishes(s: RxState, t: RxState) {
    exists p: Publication :: t.published == s.published + [p] && p.window == s.pending && p.frame.actuals == t.actuals.actuals
  }

  lemma ReplyValues(m: RuntimeMotor, now: int, frame: CanFrame, r: Record)
    requires Replies(m, Received(now, frame))
    ensures ReplyOf(m, frame).valid
    ensures NextRecord(m, r, Received(now, frame)) == r.(pos := ReplyOf(m, frame).position, vel := ReplyOf(m, frame).velocity)
  {
    hide UintToFloat;
    assert Join16(frame.data[1], frame.data[2]) == 0x100 * frame.data[1] as int + frame.data[2] as int;
    assert HighOf(frame.data[3], frame.data[4]) == 0x10 * frame.data[3] as int + frame.data[4] as int / 0x10;
  }

  lemma AcceptRecords(s: RxState, m: RuntimeMotor, now: int, frame: CanFrame)
    requires m.globalIndex < MAX_REALTIME_MOTORS && Replies(m, Received(now, frame))
    ensures RecordEffect(s, HandleMotor(s, m, now, frame), m, Received(now, frame))
  {
    hide ReplyOf, TrackerAfterReply, NextRecord;
    var e := Received(now, frame);
    HandleReply(s, m, now, frame);
    var t := Accept(s, m, ReplyOf(m, frame), now);
    forall r | Carries(s.actuals, m, r) ensures Carries(t.actuals, m, NextRecord(m, r, e)) {
      ReplyValues(m, now, frame, r);
    }
    ReplyValues(m, now, frame, Record(0.0, 0.0, 0.0, 0));
    if t.published != s.published {
      var p := t.published[|s.published|];
      assert t.published == s.published + [p] && p.window == s.pending && p.frame.actuals == t.actuals.actuals;
    }
  }

  lemma StatusRecords(s: RxState, m: RuntimeMotor, now: int, frame: CanFrame)
    requires m.globalIndex < MAX_REALTIME_MOTORS && !Replies(m, Received(now, frame))
    ensures RecordEffect(s, HandleMotor(s, m, now, frame), m, Received(now, frame))
  {
    hide UintToFloat, Accept;
    var d := frame.data;
    assert Join16(d[3], d[2]) == d[2] as int + 0x100 * d[3] as int;
  }

  /** While the motors look at e one after the other: the first n records include it. */
  ghost predicate RecordsAt(s: RxState, motors: seq<RuntimeMotor>, before: seq<Event>, e: Event, n: nat)
    requires IndexesOk(motors)
  {
    && AllRecorded(s.published, motors) && Complete(s, before + [e])
    && forall k :: 0 <= k < |motors| ==>
         Carries(s.actuals, motors[k], RecordAfter(motors[k], if k < n then before + [e] else before))
  }

  lemma NotAddressed(m: RuntimeMotor, r: Record, e: Event)
    requires !Replies(m, e) && !ReportsStatus(m, e)
    ensures NextRecord(m, r, e) == r
  {
  }

  /** A publication in between. */
  lemma PublicationRecorded(t: RxState, p: Publication, motors: seq<RuntimeMotor>, before: seq<Event>, e: Event, n: nat, k: nat)
    requires DistinctPlaces(motors) && n <= k < |motors| && n > 0 && Replies(motors[n - 1], e)
    requires p.frame.actuals == t.actuals.actuals && Carries(t.actuals, motors[k], RecordAfter(motors[k], before))
    ensures Recorded(p, motors, motors[k], before + [e])
  {
    hide NextRecord, RecordAfter, Replies, ReportsStatus;
    var m, upto := motors[k], before + [e];
    assert upto[..|upto| - 1] == before && upto[|upto| - 1] == e;
    RecordStep(m, before, e);
    if Replies(m, e) || ReportsStatus(m, e) {
      assert motors[n - 1] in motors && motors[n - 1] != m;
      assert Mistaken(motors, m, e);
    } else {
      NotAddressed(m, RecordAfter(m, before), e);
    }
  }

  lemma MotorRecords(u: RxState, motors: seq<RuntimeMotor>, before: seq<Event>, n: nat, now: int, frame: CanFrame)
    requires DistinctPlaces(motors) && 0 < n <= |motors| && RecordsAt(u, motors, before, Received(now, frame), n - 1)
    ensures RecordsAt(HandleMotor(u, motors[n - 1], now, frame), motors, before, Received(now, frame), n)
  {
    hide RecordAfter, Replies, HandleMotor, NextRecord, AllRecorded, Complete, Recorded;
    var e, m := Received(now, frame), motors[n - 1];
    var t := HandleMotor(u, m, now, frame);
    if Replies(m, e) {
      AcceptRecords(u, m, now, frame);
    } else {
      StatusRecords(u, m, now, frame);
    }
    HandleMotorComplete(u, m, now, frame, before + [e]);
    forall k | 0 <= k < |motors|
      ensures Carries(t.actuals, motors[k], RecordAfter(motors[k], if k < n then before + [e] else before))
    {
      if k == n - 1 {
        RecordStep(m, before, e);
      } else {
        assert motors[k].globalIndex != m.globalIndex;
      }
    }
    if t.published != u.published {
      var p :| t.published == u.published + [p] && p.window == u.pending && p.frame.actuals == t.actuals.actuals;
      forall x | x in motors ensures Recorded(p, motors, x, before + [e]) {
        var k :| 0 <= k < |motors| && motors[k] == x;
        if k < n {
          SaysAll(p, motors, x, before + [e]);
        } else {
          PublicationRecorded(t, p, motors, before, e, n, k);
        }
      }
      assert Windows(u.published) + u.pending == before + [e] by {
        CompleteMeans(u, before + [e]);
      }
      PublishRecorded(u.published, p, motors, before + [e]);
    }
  }

  lemma SaysAll(p: Publication, motors: seq<RuntimeMotor>, m: RuntimeMotor, upto: seq<Event>)
    requires m.globalIndex < MAX_REALTIME_MOTORS && Carries(p.frame, m, RecordAfter(m, upto))
    ensures Recorded(p, motors, m, upto)
  {
  }

  lemma CompleteMeans(s: RxState, events: seq<Event>)
    requires Complete(s, events)
    ensures Windows(s.published) + s.pending == events
  {
  }

  lemma {:induction false} AllMotorsRecord(s: RxState, motors: seq<RuntimeMotor>, before: seq<Event>, n: nat, now: int, frame: CanFrame)
    requires DistinctPlaces(motors) && n <= |motors| && RecordsAt(s, motors, before, Received(now, frame), 0)
    ensures RecordsAt(HandleMotors(s, motors[..n], now, frame), motors, before, Received(now, frame), n)
  {
    hide RecordsAt, HandleMotor;
    if n > 0 {
      AllMotorsRecord(s, motors, before, n - 1, now, frame);
      HandleStep(s, motors, n - 1, now, frame);
      MotorRecords(HandleMotors(s, motors[..n - 1], now, frame), motors, before, n, now, frame);
    }
  }

  /** All records follow all events. */
  ghost predicate Following(s: RxState, motors: seq<RuntimeMotor>, events: seq<Event>)
    requires IndexesOk(motors)
  {
    && AllRecorded(s.published, motors) && Complete(s, events)
    && forall m :: m in motors ==> Carries(s.actuals, m, RecordAfter(m, events))
  }

  lemma ReceivedFollows(s: RxState, motors: seq<RuntimeMotor>, before: seq<Event>, now: int, frame: CanFrame)
    requires DistinctPlaces(motors) && Following(s, motors, before)
    ensures Following(Step(s, motors, Received(now, frame)), motors, before + [Received(now, frame)])
  {
    hide RecordAfter, HandleMotors, AllRecorded, Complete;
    var e := Received(now, frame);
    var noted := s.(pending := s.pending + [e]);
    NoteComplete(s, before, e);
    AllMotorsRecord(noted, motors, before, |motors|, now, frame);
    assert motors[..|motors|] == motors;
    var t := HandleMotors(noted, motors, now, frame);
    forall m | m in motors ensures Carries(t.actuals, m, RecordAfter(m, before + [e])) {
      var k :| 0 <= k < |motors| && motors[k] == m;
    }
  }

  lemma {:induction false} MarkingKeepsRecords(actuals: MotorActualFrame, motors: seq<RuntimeMotor>, current: bv64, m: RuntimeMotor, r: Record)
    requires IndexesOk(motors) && m.globalIndex < MAX_REALTIME_MOTORS && Carries(actuals, m, r)
    ensures Carries(MarkMissing(actuals, motors, current), m, r)
  {
    hide Has;
    if motors != [] {
      MarkingKeepsRecords(actuals, motors[..|motors| - 1], current, m, r);
    }
  }

  lemma TimeoutFollows(s: RxState, motors: seq<RuntimeMotor>, before: seq<Event>, now: int)
    requires DistinctPlaces(motors) && Following(s, motors, before)
    ensures Following(Step(s, motors, Timeout(now)), motors, before + [Timeout(now)])
  {
    hide RecordAfter, MarkMissing, AllRecorded, Recorded, Complete;
    var e := Timeout(now);
    TimeoutStep(s, motors, now);
    var marked := MarkMissing(s.actuals, motors, s.tracker.mask.current);
    var u := RxState(marked, Tracker(s.tracker.mask.(current := 0), false, s.tracker.started), s.published, s.pending + [e]);
    NoteComplete(s, before, e);
    SameHistory(s.(pending := s.pending + [e]), u, before + [e]);
    PublishComplete(u, now, true, before + [e]);
    CompleteMeans(u, before + [e]);
    var frame := marked.(sequence := marked.sequence + 1, timestamp := now);
    var p := Publication(frame, true, u.pending);
    forall m | m in motors
      ensures Carries(frame, m, RecordAfter(m, before + [e])) && Recorded(p, motors, m, before + [e])
    {
      RecordStep(m, before, e);
      NotAddressed(m, RecordAfter(m, before), e);
      MarkingKeepsRecords(s.actuals, motors, s.tracker.mask.current, m, RecordAfter(m, before));
      SaysAll(p, motors, m, before + [e]);
    }
    PublishRecorded(s.published, p, motors, before + [e]);
  }

  lemma StartFollows(motors: seq<RuntimeMotor>)
    requires IndexesOk(motors)
    ensures Following(Start(motors), motors, [])
  {
    NoWindows();
  }

  lemma {:induction false} RunFollows(motors: seq<RuntimeMotor>, events: seq<Event>)
    requires DistinctPlaces(motors)
    ensures Following(Run(motors, events), motors, events)
  {
    hide Following, Step, Start;
    if events == [] {
      StartFollows(motors);
    } else {
      var n := |events| - 1;
      RunFollows(motors, events[..n]);
      assert events[..n] + [events[n]] == events;
      match events[n] {
        case Timeout(now) => TimeoutFollows(Run(motors, events[..n]), motors, events[..n], now);
        case Received(now, frame) => ReceivedFollows(Run(motors, events[..n]), motors, events[..n], now, frame);
      }
    }
  }

  /** In every frame ever published each motor's position, velocity, torque and temperature are those of
      its last valid replies among all events up to the publication, whether it is stale or not; zero
      before the first one.  The one exception is a frame whose id is that of two motors' replies. */
  lemma RecordsFollowReplies(motors: seq<RuntimeMotor>, events: seq<Event>, i: nat, m: RuntimeMotor)
    requires DistinctPlaces(motors) && m in motors && i < |Run(motors, events).published|
    ensures var published := Run(motors, events).published;
            Recorded(published[i], motors, m, Windows(published[..i + 1]))
  {
    hide Run, Recorded, Windows;
    RunFollows(motors, events);
  }

  /** No frame id is a reply of one motor and a reply or status reply of another. */
  ghost predicate OwnFrameIds(motors: seq<RuntimeMotor>) {
    forall m, n :: m in motors && n in motors && m != n ==> m.motorId != n.motorId && m.motorId != n.motorId + 0x2c0
  }

  /** With frame ids of their own there is no exception. */
  lemma RecordsFollowRepliesExactly(motors: seq<RuntimeMotor>, events: seq<Event>, i: nat, m: RuntimeMotor)
    requires DistinctPlaces(motors) && OwnFrameIds(motors) && m in motors && i < |Run(motors, events).published|
    ensures var published := Run(motors, events).published;
            Carries(published[i].frame, m, RecordAfter(m, Windows(published[..i + 1])))
  {
    hide Run, Windows, RecordAfter, Carries;
    RecordsFollowReplies(motors, events, i, m);
  }

  /** Nor is there one for motors whose ids and slave ids are their own and whose ids are positive, as
      loading demands: a motor that takes another's reply for its status reply has an id beyond a byte, so it
      never replies, and no reply completes the frame. */
  lemma NothingIsMissing(motors: seq<RuntimeMotor>, events: seq<Event>, i: nat, m: RuntimeMotor)
    requires MotorsOk(motors) && (forall n :: n in motors ==> n.motorId > 0)
    requires m in motors && i < |Run(motors, events).published|
    ensures var published := Run(motors, events).published;
            Carries(published[i].frame, m, RecordAfter(m, Windows(published[..i + 1])))
  {
    hide Run, Windows, RecordAfter, Carries, Replied, LastReply, Replies, ReportsStatus;
    var published := Run(motors, events).published;
    var upto := Windows(published[..i + 1]);
    assert DistinctPlaces(motors) by {
      forall j, k | 0 <= j < k < |motors| ensures motors[j].globalIndex != motors[k].globalIndex {
        assert Apart(motors[j], motors[k]);
      }
    }
    RecordsFollowReplies(motors, events, i, m);
    if |upto| > 0 && Mistaken(motors, m, upto[|upto| - 1]) {
      var e := upto[|upto| - 1];
      var n :| n in motors && n != m && Replies(n, e);
      LastOfWindows(motors, events, i);
      StaleMeansSilent(motors, events, i, m);
      MistakenIds(motors, m, n, e, published[i].window);
    }
  }

  /** The last event before a publication caused it: a timeout, or the reply that completed the frame. */
  lemma LastOfWindows(motors: seq<RuntimeMotor>, events: seq<Event>, i: nat)
    requires IndexesOk(motors) && i < |Run(motors, events).published|
    ensures var published := Run(motors, events).published;
            var upto := Windows(published[..i + 1]);
            published[i].byTimeout ==> |upto| > 0 && upto[|upto| - 1].Timeout?
  {
    hide Run, Windows;
    var published := Run(motors, events).published;
    TimeoutsEndWindows(motors, events);
    assert published[..i + 1] == published[..i] + [published[i]];
    WindowsStep(published[..i], published[i]);
    assert published[i] in published && EndsInTimeout(published[i]);
    var before, window := Windows(published[..i]), published[i].window;
    assert |window| > 0 ==> (before + window)[|before + window| - 1] == window[|window| - 1];
  }

  ghost predicate EndsInTimeout(p: Publication) {
    p.byTimeout ==> |p.window| > 0 && p.window[|p.window| - 1].Timeout?
  }

  lemma {:induction false} TimeoutsEndWindows(motors: seq<RuntimeMotor>, events: seq<Event>)
    requires IndexesOk(motors)
    ensures forall p :: p in Run(motors, events).published ==> EndsInTimeout(p)
  {
    hide HandleMotors, MarkMissing;
    if events != [] {
      var n := |events| - 1;
      var s := Run(motors, events[..n]);
      TimeoutsEndWindows(motors, events[..n]);
      match events[n] {
        case Timeout(now) => TimeoutStep(s, motors, now);
        case Received(now, frame) => RepliesEndOthers(s.(pending := s.pending + [events[n]]), motors, now, frame);
      }
    }
  }

  lemma {:induction false} RepliesEndOthers(s: RxState, motors: seq<RuntimeMotor>, now: int, frame: CanFrame)
    requires IndexesOk(motors) && forall p :: p in s.published ==> EndsInTimeout(p)
    ensures forall p :: p in HandleMotors(s, motors, now, frame).published ==> EndsInTimeout(p)
  {
    hide EndsInTimeout, TrackerAfterReply, Refreshed, ReplyOf;
    if motors != [] {
      var n := |motors| - 1;
      RepliesEndOthers(s, motors[..n], now, frame);
      var u := HandleMotors(s, motors[..n], now, frame);
      var t := HandleMotor(u, motors[n], now, frame);
      if t.published != u.published {
        var p := t.published[|u.published|];
        assert t.published == u.published + [p] && !p.byTimeout;
        NotByTimeout(p);
      }
    }
  }

  lemma NotByTimeout(p: Publication)
    requires !p.byTimeout
    ensures EndsInTimeout(p)
  {
  }

  /** A mistaken frame ends no window. */
  lemma MistakenIds(motors: seq<RuntimeMotor>, m: RuntimeMotor, n: RuntimeMotor, e: Event, window: seq<Event>)
    requires MotorsOk(motors) && m in motors && n in motors && m != n && m.motorId > 0 && n.motorId > 0
    requires (Replies(m, e) || ReportsStatus(m, e)) && Replies(n, e)
    ensures e.Received? && !Replied(m, window)
  {
    var j, k :| 0 <= j < |motors| && 0 <= k < |motors| && motors[j] == m && motors[k] == n;
    assert Apart(m, n) by {
      if j < k {
        assert Apart(motors[j], motors[k]);
      } else {
        assert Apart(motors[k], motors[j]);
      }
    }
    assert m.motorId == n.motorId + 0x2c0;
  }

  /** Two motors that share both ids do show it: the first one's reply completes the frame while the
      record of the second still says nothing of it. */
  lemma SharedIdsShowOldRecord(a: RuntimeMotor, b: RuntimeMotor) returns (events: seq<Event>)
    requires a.globalIndex < MAX_REALTIME_MOTORS && b.globalIndex < MAX_REALTIME_MOTORS && a.globalIndex != b.globalIndex
    requires a.motorId == b.motorId && 0 < a.motorId < 0x100 && a.slaveId == b.slaveId && 0 <= a.slaveId < 64
    ensures var published := Run([a, b], events).published;
            |published| == 2 && !Carries(published[0].frame, b, RecordAfter(b, Windows(published[..1])))
  {
    hide HandleMotor, HandleMotors, Windows, RecordAfter, Marked, Has, ExpectedMask, Replies;
    var motors := [a, b];
    var frame := CanFrame(0x500 + a.motorId, [a.motorId, 0xff, 0xff, 0, 0, 0, 0, 0], 8);
    var e := Received(0, frame);
    events := [e];
    RunOne(motors, e);
    var s := Start(motors).(pending := [e]);
    HandleStep(s, motors, 0, 0, frame);
    HandleStep(s, motors, 1, 0, frame);
    assert motors[..0] == [] && motors[..2] == motors && motors[0] == a && motors[1] == b;
    var t := HandleMotor(s, a, 0, frame);
    var u := HandleMotor(t, b, 0, frame);
    assert HandleMotors(s, motors, 0, frame) == u by {
      NoMotors(s, frame);
    }
    IsReply(a, frame);
    IsReply(b, frame);
    SharedBitCompletes(motors, s.tracker.mask, 0);
    CompletingReply(s, a, b.globalIndex, frame);
    SharedBitCompletes(motors, t.tracker.mask, 1);
    CompletingReply(t, b, a.globalIndex, frame);
    FirstRecords(s, t, u, b, e);
  }

  lemma NoMotors(s: RxState, frame: CanFrame)
    ensures HandleMotors(s, [], 0, frame) == s
  {
  }

  lemma IsReply(m: RuntimeMotor, frame: CanFrame)
    requires frame.id == 0x500 + m.motorId && frame.length == 8 && frame.data[0] == m.motorId
    ensures Replies(m, Received(0, frame))
  {
  }

  /** A reply that completes the frame publishes it; the other records are as they were. */
  lemma CompletingReply(s: RxState, m: RuntimeMotor, other: nat, frame: CanFrame)
    requires m.globalIndex < MAX_REALTIME_MOTORS && other < MAX_REALTIME_MOTORS && other != m.globalIndex
    requires Replies(m, Received(0, frame)) && Has(s.tracker.mask.expected, m.slaveId)
    requires Marked(s.tracker.mask, m.slaveId) == (s.tracker.mask, true)
    ensures var t, n := HandleMotor(s, m, 0, frame), |s.published|;
            && |t.published| == n + 1 && t.published[..n] == s.published && t.tracker.mask == s.tracker.mask
            && t.published[n].window == s.pending && t.published[n].frame.actuals[other] == s.actuals.actuals[other]
  {
    hide Marked, Has, ApplyMitFeedback, ReplyOf, Replies;
    HandleReply(s, m, 0, frame);
  }

  lemma SharedBitCompletes(motors: seq<RuntimeMotor>, mask: Mask, j: nat)
    requires |motors| == 2 && j < 2 && motors[0].slaveId == motors[1].slaveId && 0 <= motors[0].slaveId < 64
    requires mask == Mask(ExpectedMask(SlaveIds(motors)), 0)
    ensures Has(mask.expected, motors[j].slaveId) && Marked(mask, motors[j].slaveId) == (mask, true)
  {
    hide And, Or, Without, BitForSlaveId, ExpectedMask, Has, Marked;
    var ids := SlaveIds(motors);
    ExpectedHas(ids, j);
    NothingExpectedYet(mask);
    MarkedMeaning(ids, mask, j);
  }

  lemma FirstRecords(s: RxState, t: RxState, u: RxState, b: RuntimeMotor, e: Event)
    requires b.globalIndex < MAX_REALTIME_MOTORS && s.published == [] && s.pending == [e] && |t.published| == 1 && |u.published| == 2
    requires t.published[0].window == [e] && u.published[0] == t.published[0]
    requires t.published[0].frame.actuals[b.globalIndex].pos == 0.0
    requires Replies(b, e) && e.frame.data[1] == 0xff && e.frame.data[2] == 0xff
    ensures !Carries(u.published[0].frame, b, RecordAfter(b, Windows(u.published[..1])))
  {
    assert u.published[..1] == [] + [t.published[0]] && [] + [e] == [e];
    WindowsStep([], t.published[0]);
    NoWindows();
    TopCode();
    hide UintToFloat, Windows, Replies;
    assert [e][..0] == [];
    assert RecordAfter(b, [e]) == NextRecord(b, Record(0.0, 0.0, 0.0, 0), e);
    assert 0x100 * 0xff + 0xff == 0xffff;
  }

  lemma TopCode()
    ensures UintToFloat(0xffff, -12.566, 12.566, 16) == 12.566
  {
    Widths();
    EndValues(-12.566, 12.566, 65535.0);
  }

  // ----- the exact condition on the slave ids

  /** Motors of one bus have their own places and their own CAN ids. */
  ghost predicate DistinctIds(motors: seq<RuntimeMotor>) {
    IndexesOk(motors) &&
    forall j, k :: 0 <= j < k < |motors| ==>
      motors[j].globalIndex != motors[k].globalIndex && motors[j].motorId != motors[k].motorId
  }

  /** A motor whose id is a positive byte can send valid replies. */
  predicate CanReply(motors: seq<RuntimeMotor>) {
    forall m :: m in motors ==> 0 < m.motorId < 0x100
  }

  ghost predicate SlaveIdsOk(motors: seq<RuntimeMotor>) {
    InRange(SlaveIds(motors)) && forall j, k :: 0 <= j < k < |motors| ==> motors[j].slaveId != motors[k].slaveId
  }

  /** Every published frame calls exactly the silent motors stale. */
  ghost predicate Truthful(motors: seq<RuntimeMotor>, events: seq<Event>)
    requires IndexesOk(motors)
  {
    forall i, m :: 0 <= i < |Run(motors, events).published| && m in motors ==> TellsTruth(Run(motors, events).published[i], m)
  }

  ghost predicate TellsTruth(p: Publication, m: RuntimeMotor) {
    m.globalIndex in p.frame.stale <==> !Replied(m, p.window)
  }

  lemma IdsOkMeansMotorsOk(motors: seq<RuntimeMotor>)
    requires DistinctIds(motors) && SlaveIdsOk(motors)
    ensures MotorsOk(motors)
  {
  }

  function ReplyFrame(m: RuntimeMotor): CanFrame
    requires 0 < m.motorId < 0x100
  {
    CanFrame(MitRxId(m.motorId), [m.motorId, 0, 0, 0, 0, 0, 0, 0], 8)
  }

  lemma ReplyFrameReplies(motors: seq<RuntimeMotor>, j: nat)
    requires DistinctIds(motors) && CanReply(motors) && j < |motors|
    ensures motors[j] in motors && OnlyReply(motors, j, Received(0, ReplyFrame(motors[j])))
  {
    var m := motors[j];
    assert m in motors && Replies(m, Received(0, ReplyFrame(m)));
    forall k | 0 <= k < |motors| && k != j ensures motors[k].motorId != m.motorId {
      assert k < j || j < k;
    }
  }

  /** What a valid reply of m does to the tracker, the stale bits and the history. */
  ghost predicate ReplyEffect(s: RxState, t: RxState, m: RuntimeMotor, now: int) {
    var (tracker, complete) := TrackerAfterReply(s.tracker, m.slaveId, now);
    && t.tracker == tracker && t.actuals.stale == s.actuals.stale - {m.globalIndex}
    && if complete then
         var n := |s.published|;
         && |t.published| == n + 1 && t.published[..n] == s.published && t.pending == []
         && t.published[n].window == s.pending && t.published[n].frame.stale == t.actuals.stale
       else
         t.published == s.published && t.pending == s.pending
  }

  lemma AcceptEffect(s: RxState, m: RuntimeMotor, feedback: MitFeedback, now: int)
    requires m.globalIndex < MAX_REALTIME_MOTORS
    ensures ReplyEffect(s, Accept(s, m, feedback, now), m, now)
  {
    hide TrackerAfterReply;
  }

  lemma EffectStays(r: RxState, s: RxState, t: RxState, u: RxState, m: RuntimeMotor, now: int)
    requires Quiet(r, s) && ReplyEffect(s, t, m, now) && Quiet(t, u)
    ensures ReplyEffect(r, u, m, now)
  {
    hide TrackerAfterReply;
  }

  lemma QuietItself(s: RxState)
    ensures Quiet(s, s)
  {
  }

  lemma QuietTrans(s: RxState, t: RxState, u: RxState)
    requires Quiet(s, t) && Quiet(t, u)
    ensures Quiet(s, u)
  {
  }

  lemma {:induction false} HandleEffect(s: RxState, motors: seq<RuntimeMotor>, j: nat, n: nat, now: int, frame: CanFrame)
    requires IndexesOk(motors) && OnlyReply(motors, j, Received(now, frame)) && n <= |motors|
    ensures var t := HandleMotors(s, motors[..n], now, frame);
            if n <= j then Quiet(s, t) else ReplyEffect(s, t, motors[j], now)
  {
    hide Quiet, ReplyEffect, Accept, HandleMotor, Replies;
    if n == 0 {
      QuietItself(s);
    } else {
      var m := motors[n - 1];
      var u := HandleMotors(s, motors[..n - 1], now, frame);
      var t := HandleMotor(u, m, now, frame);
      HandleEffect(s, motors, j, n - 1, now, frame);
      HandleStep(s, motors, n - 1, now, frame);
      if n - 1 == j {
        HandleReply(u, m, now, frame);
        AcceptEffect(u, m, ReplyOf(m, frame), now);
        QuietItself(t);
        EffectStays(s, u, t, t, m, now);
      } else {
        QuietMotor(u, m, now, frame);
        if n - 1 < j {
          QuietTrans(s, u, t);
        } else {
          QuietItself(s);
          EffectStays(s, s, u, t, motors[j], now);
        }
      }
    }
  }

  /** After the first reply there ever was. */
  lemma FirstReply(motors: seq<RuntimeMotor>, j: nat)
    requires DistinctIds(motors) && CanReply(motors) && j < |motors|
    ensures motors[j] in motors
    ensures var e := Received(0, ReplyFrame(motors[j]));
            ReplyEffect(Start(motors).(pending := [e]), Run(motors, [e]), motors[j], 0)
  {
    hide HandleMotors, Start, ReplyEffect;
    ReplyFrameReplies(motors, j);
    var frame := ReplyFrame(motors[j]);
    var e := Received(0, frame);
    RunOne(motors, e);
    HandleEffect(Start(motors).(pending := [e]), motors, j, |motors|, 0, frame);
    assert motors[..|motors|] == motors;
  }

  lemma RunOne(motors: seq<RuntimeMotor>, e: Event)
    requires IndexesOk(motors) && e.Received?
    ensures Run(motors, [e]) == HandleMotors(Start(motors).(pending := [e]), motors, e.now, e.frame)
  {
    hide HandleMotors;
    assert [e][..0] == [] && [] + [e] == [e];
    assert Run(motors, []) == Start(motors);
  }

  lemma RunTwo(motors: seq<RuntimeMotor>, e: Event, t: Event)
    requires IndexesOk(motors)
    ensures Run(motors, [e, t]) == Step(Run(motors, [e]), motors, t)
  {
    hide Step;
    assert [e, t][..1] == [e];
  }

  /** A timeout right after: one publication, with the records of the missing motors marked. */
  lemma ThenTimeout(motors: seq<RuntimeMotor>, e: Event)
    requires IndexesOk(motors) && Run(motors, [e]).published == [] && Run(motors, [e]).pending == [e]
    ensures var s, t := Run(motors, [e]), Run(motors, [e, Timeout(0)]);
            && |t.published| == 1 && t.published[0].window == [e, Timeout(0)]
            && t.published[0].frame.stale == MarkMissing(s.actuals, motors, s.tracker.mask.current).stale
  {
    var s := Run(motors, [e]);
    RunTwo(motors, e, Timeout(0));
    hide Run, MarkMissing;
    TimeoutStep(s, motors, 0);
    assert [e] + [Timeout(0)] == [e, Timeout(0)];
  }

  lemma RepliedInTwo(m: RuntimeMotor, e: Event)
    ensures Replied(m, [e]) <==> Replies(m, e)
    ensures Replied(m, [e, Timeout(0)]) <==> Replies(m, e)
  {
    hide Replies;
    assert e in [e] && e in [e, Timeout(0)];
    assert !Replies(m, Timeout(0)) by {
      TimeoutIsNoReply(m);
    }
  }

  lemma TimeoutIsNoReply(m: RuntimeMotor)
    ensures !Replies(m, Timeout(0))
  {
  }

  lemma OnlyItsIndex(motors: seq<RuntimeMotor>, m: RuntimeMotor)
    requires DistinctIds(motors) && m in motors
    ensures forall n :: n in motors && n.globalIndex == m.globalIndex ==> n == m
  {
    forall n | n in motors && n != m ensures n.globalIndex != m.globalIndex {
      var j, k :| 0 <= j < |motors| && 0 <= k < |motors| && motors[j] == m && motors[k] == n;
      assert j < k || k < j;
    }
  }

  lemma NoBit(mask: bv64, slaveId: int)
    requires !(0 <= slaveId < 64)
    ensures !Has(mask, slaveId)
  {
    EmptyMask(mask);
  }

  /** A slave id without a bit, anywhere in the list: its motor replies, and is published as stale. */
  lemma IdWithoutBitStaysStale(motors: seq<RuntimeMotor>, j: nat) returns (events: seq<Event>)
    requires DistinctIds(motors) && CanReply(motors) && j < |motors| && !(0 <= motors[j].slaveId < 64)
    ensures var published := Run(motors, events).published;
            && |published| == 1 && motors[j].globalIndex in published[0].frame.stale
            && Replied(motors[j], published[0].window)
  {
    hide Run, MarkMissing, Has, Marked, Replies, ExpectedMask;
    FirstReply(motors, j);
    ReplyFrameReplies(motors, j);
    var m, e := motors[j], Received(0, ReplyFrame(motors[j]));
    NoBit(ExpectedMask(SlaveIds(motors)), m.slaveId);
    NoBit(0, m.slaveId);
    ThenTimeout(motors, e);
    MarkMissingMeaning(Run(motors, [e]).actuals, motors, 0, m.globalIndex);
    RepliedInTwo(m, e);
    events := [e, Timeout(0)];
  }

  /** What the first reply leaves in the tracker when all slave ids have bits. */
  lemma FirstReplyTracked(motors: seq<RuntimeMotor>, j: nat, k: nat)
    requires InRange(SlaveIds(motors)) && j < |motors| && k < |motors| && motors[j].slaveId == motors[k].slaveId
    ensures var (tracker, complete) := TrackerAfterReply(Start(motors).tracker, motors[j].slaveId, 0);
            !complete ==> Has(tracker.mask.current, motors[k].slaveId)
  {
    hide And, Or, Without, BitForSlaveId, Marked, Has, ExpectedMask, OnlyExpected;
    var ids := SlaveIds(motors);
    NothingExpectedYet(Mask(ExpectedMask(ids), 0));
    ExpectedHas(ids, j);
    MarkedMeaning(ids, Mask(ExpectedMask(ids), 0), j);
  }

  lemma NothingExpectedYet(mask: Mask)
    requires mask.current == 0
    ensures OnlyExpected(mask)
  {
    EmptyMask(mask.expected);
  }

  /** Two motors with one slave id, anywhere in the list: one replies, and the silent other one is
      published as not stale. */
  lemma SharedSlaveIdHidesSilence(motors: seq<RuntimeMotor>, j: nat, k: nat) returns (events: seq<Event>)
    requires DistinctIds(motors) && CanReply(motors) && j < |motors| && k < |motors| && j != k
    requires InRange(SlaveIds(motors)) && motors[j].slaveId == motors[k].slaveId
    ensures var published := Run(motors, events).published;
            && |published| == 1 && motors[k].globalIndex !in published[0].frame.stale
            && !Replied(motors[k], published[0].window)
  {
    hide Run, MarkMissing, Has, TrackerAfterReply, Replies, ExpectedMask;
    FirstReply(motors, j);
    ReplyFrameReplies(motors, j);
    var m, e := motors[k], Received(0, ReplyFrame(motors[j]));
    FirstReplyTracked(motors, j, k);
    RepliedInTwo(m, e);
    var s := Run(motors, [e]);
    if s.published != [] {
      events := [e];
    } else {
      ThenTimeout(motors, e);
      OnlyItsIndex(motors, m);
      MarkMissingMeaning(s.actuals, motors, s.tracker.mask.current, m.globalIndex);
      events := [e, Timeout(0)];
    }
  }

  lemma UntruthfulRun(motors: seq<RuntimeMotor>) returns (events: seq<Event>)
    requires DistinctIds(motors) && CanReply(motors) && !SlaveIdsOk(motors)
    ensures !Truthful(motors, events)
  {
    hide Run, Replied;
    if InRange(SlaveIds(motors)) {
      var j, k :| 0 <= j < k < |motors| && motors[j].slaveId == motors[k].slaveId;
      events := SharedSlaveIdHidesSilence(motors, j, k);
      assert motors[k] in motors && !TellsTruth(Run(motors, events).published[0], motors[k]);
    } else {
      var j :| 0 <= j < |motors| && !(0 <= SlaveIds(motors)[j] < 64);
      events := IdWithoutBitStaysStale(motors, j);
      assert motors[j] in motors && !TellsTruth(Run(motors, events).published[0], motors[j]);
    }
  }

  /** The exact condition: the stale bits of all runs tell the truth if and only if the slave ids are
      distinct and have bits in the mask. */
  lemma TruthfulIff(motors: seq<RuntimeMotor>)
    requires DistinctIds(motors) && CanReply(motors)
    ensures (forall events :: Truthful(motors, events)) <==> SlaveIdsOk(motors)
  {
    hide Run, Replied, LastReply;
    if SlaveIdsOk(motors) {
      IdsOkMeansMotorsOk(motors);
      forall events ensures Truthful(motors, events) {
        forall i, m | 0 <= i < |Run(motors, events).published| && m in motors
          ensures TellsTruth(Run(motors, events).published[i], m)
        {
          StaleMeansSilent(motors, events, i, m);
        }
      }
    } else {
      var events := UntruthfulRun(motors);
    }
  }

  // ----- the class

  class RmdCanBackend {
    const motors: seq<RuntimeMotor>
    const mitFrame: FeedbackFrameTracker
    var workingActuals: MotorActualFrame
    // history
    ghost var published: seq<Publication>
    ghost var pending: seq<Event>

    ghost predicate Valid()
      reads this
    {
      IndexesOk(motors)
    }

    ghost function View(): RxState
      reads this, mitFrame, mitFrame.mask
    {
      RxState(workingActuals, mitFrame.View(), published, pending)
    }

    constructor (motors: seq<RuntimeMotor>)
      requires IndexesOk(motors)
      ensures Valid() && this.motors == motors && View() == Start(motors)
      ensures fresh(mitFrame) && fresh(mitFrame.mask)
    {
      this.motors := motors;
      mitFrame := new FeedbackFrameTracker();
      published, pending := [], [];
      workingActuals := MotorActualFrame(0, 0, seq(MAX_REALTIME_MOTORS, _ => DEFAULT_ACTUAL), {}, {});
      new;
      var slaveIds: seq<int> := [];
      for k := 0 to |motors|
        invariant slaveIds == SlaveIds(motors)[..k]
        invariant workingActuals == Start(motors).actuals.(valid := Indexes(motors[..k]))
        invariant mitFrame.View() == Tracker(Mask(0, 0), false, 0) && published == [] && pending == []
      {
        slaveIds := slaveIds + [motors[k].slaveId];
        IndexesStep(motors, k);
        workingActuals := workingActuals.(valid := workingActuals.valid + {motors[k].globalIndex});
      }
      assert motors[..|motors|] == motors && SlaveIds(motors)[..|motors|] == SlaveIds(motors);
      mitFrame.SetExpectedFromSlaveIds(slaveIds);
      assert workingActuals == Start(motors).actuals;
      assert mitFrame.View() == Start(motors).tracker;
    }

    method PublishActuals(now: int, ghost byTimeout: bool)
      modifies this
      ensures View() == Publish(old(View()), now, byTimeout)
    {
      workingActuals := workingActuals.(sequence := workingActuals.sequence + 1);
      workingActuals := workingActuals.(timestamp := now);
      published := published + [Publication(workingActuals, byTimeout, pending)];
      pending := [];
    }

    method MarkMissingStale()
      requires Valid()
      modifies this`workingActuals
      ensures workingActuals == MarkMissing(old(workingActuals), motors, mitFrame.mask.currentMask)
    {
      for k := 0 to |motors|
        invariant workingActuals == MarkMissing(old(workingActuals), motors[..k], mitFrame.mask.currentMask)
      {
        assert motors[..k + 1][..k] == motors[..k];
        var motor := motors[k];
        var received := mitFrame.IsReceived(motor.slaveId);
        if received {
          continue;
        }
        var i := motor.globalIndex;
        workingActuals := workingActuals.(actuals := workingActuals.actuals[i := MarkActualStale(workingActuals.actuals[i])]);
        workingActuals := workingActuals.(stale := workingActuals.stale + {i});
      }
      assert motors[..|motors|] == motors;
    }

    /** One motor's look at a received frame. */
    method HandleOne(motor: RuntimeMotor, now: int, frame: CanFrame)
      requires Valid() && motor.globalIndex < MAX_REALTIME_MOTORS
      modifies this, mitFrame, mitFrame.mask
      ensures View() == HandleMotor(old(View()), motor, now, frame)
    {
      var i := motor.globalIndex;
      if frame.id == MitRxId(motor.motorId) {
        var feedback := ParseMitReply(frame.data, frame.length, motor.motorId, motor.parameters.maximumTorque);
        if feedback.valid {
          workingActuals := workingActuals.(
            actuals := workingActuals.actuals[i := ApplyMitFeedback(workingActuals.actuals[i], feedback)]);
          workingActuals := workingActuals.(valid := workingActuals.valid + {i});
          workingActuals := workingActuals.(stale := workingActuals.stale - {i});
          var complete := mitFrame.MarkReceived(motor.slaveId, now);
          if complete {
            PublishActuals(now, false);
          }
        }
      } else if frame.id == StandardRxId(motor.motorId) {
        var feedback := ParseStatus2Reply(frame.data, frame.length, motor.parameters.torqueConstant);
        if feedback.valid {
          workingActuals := workingActuals.(
            actuals := workingActuals.actuals[i := ApplyStatus2Feedback(workingActuals.actuals[i], feedback)]);
        }
      }
    }

    /** One pass of the receive loop. */
    method RxStep(e: Event)
      requires Valid()
      modifies this, mitFrame, mitFrame.mask
      ensures View() == Step(old(View()), motors, e)
    {
      pending := pending + [e];
      match e {
        case Timeout(now) =>
          MarkMissingStale();
          PublishActuals(now, true);
          mitFrame.Reset();
        case Received(now, frame) =>
          ghost var noted := View();
          for k := 0 to |motors|
            invariant View() == HandleMotors(noted, motors[..k], now, frame)
          {
            HandleStep(noted, motors, k, now, frame);
            HandleOne(motors[k], now, frame);
          }
          assert motors[..|motors|] == motors;
      }
    }

    /** The loop until it is stopped; `events` is what receive yields meanwhile. */
    method RxLoop(events: seq<Event>)
      requires Valid() && View() == Start(motors)
      modifies this, mitFrame, mitFrame.mask
      ensures View() == Run(motors, events)
    {
      for n := 0 to |events|
        invariant View() == Run(motors, events[..n])
      {
        assert events[..n + 1][..n] == events[..n];
        RxStep(events[n]);
      }
      assert events[..|events|] == events;
    }
  }

  /** The backend for these motors; refused exactly when the frames have no room for one of them. */
  method CreateRmdCanBackend(motors: seq<RuntimeMotor>) returns (backend: RmdCanBackend?)
    ensures backend != null <==> forall m :: m in motors ==> m.globalIndex < 64
    ensures backend != null ==> fresh(backend) && backend.Valid() && backend.motors == motors && backend.View() == Start(motors)
  {
    for k := 0 to |motors|
      invariant IndexesOk(motors[..k])
    {
      if motors[k].globalIndex >= MAX_REALTIME_MOTORS {
        return null;
      }
      assert motors[..k + 1] == motors[..k] + [motors[k]];
    }
    assert motors[..|motors|] == motors;
    forall m | m in motors ensures m.globalIndex < 64 {
    }
    backend := new RmdCanBackend(motors);
  }

  lemma IndexesStep(motors: seq<RuntimeMotor>, k: nat)
    requires k < |motors|
    ensures Indexes(motors[..k + 1]) == Indexes(motors[..k]) + {motors[k].globalIndex}
  {
    var more := motors[..k + 1];
    assert more[k] == motors[k];
    forall m | m in motors[..k] ensures m in more {
      var j :| 0 <= j < k && motors[..k][j] == m;
      assert more[j] == m;
    }
    forall m | m in more ensures m in motors[..k] || m == motors[k] {
      var j :| 0 <= j <= k && more[j] == m;
      assert j < k ==> motors[..k][j] == m;
    }
  }
}
