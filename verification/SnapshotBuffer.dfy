/** The three-slot exchange between one producer and one consumer, as a state machine.
    Every access to shared memory is a step of its own: one word of a slot copy, the
    atomic load, the atomic exchange and the weak compare-exchange (which may fail for no
    reason).  Updates of thread-private fields ride along with the atomic step before them. */
module SnapshotProtocol {

  /** A frame is copied word by word. */
  type Frame = seq<int>

  const WORD_RANGE: nat := 0x1_0000_0000_0000_0000
  const VERSION_LIMIT: nat := 0x4000_0000_0000_0000
  const SLOTS: nat := 3
  const ATTEMPTS: nat := 3

  function PackState(version: nat, index: nat): nat {
    (version * 4) % WORD_RANGE + index % 4
  }

  function StateIndex(state: nat): nat {
    state % 4
  }

  function StateVersion(state: nat): nat {
    state / 4
  }

  datatype Producer =
    | ProducerIdle
    | Filling(value: Frame, copied: nat)

  datatype Consumer =
    | ConsumerIdle
    | Loading(attempt: nat)
    | Comparing(attempt: nat, observed: nat)
    | Copying(out: Frame)

  /** What was true when the current read began: the newest version and the version read before;
      `refused` counts its failed compare-exchanges. */
  datatype Call = Call(newest: nat, previous: nat, refused: nat)

  datatype Result = Result(frame: Frame, version: nat, call: Call, newestAtEnd: nat)

  /** The fields of the buffer, the two program counters, and the history of both threads:
      `published[v]` is the frame of version v, `results` are the completed reads. */
  datatype State = State(
    slots: seq<Frame>,
    latest: nat,
    writing: nat,
    writeVersion: nat,
    reading: nat,
    readVersion: nat,
    producer: Producer,
    consumer: Consumer,
    published: seq<Frame>,
    call: Call,
    results: seq<Result>)

  datatype Action =
    | StartPublish(value: Frame)
    | FillWord
    | Exchange
    | StartRead
    | Load
    | CompareExchange(spurious: bool)
    | CopyWord
    | FinishRead

  predicate IsProducer(a: Action) {
    a.StartPublish? || a.FillWord? || a.Exchange?
  }

  function Init(initial: Frame): State {
    State([initial, initial, initial], PackState(0, 0), 1, 0, 2, 0,
          ProducerIdle, ConsumerIdle, [initial], Call(0, 0, 0), [])
  }

  predicate SlotsInRange(s: State) {
    |s.slots| == SLOTS && s.writing < SLOTS && s.reading < SLOTS
  }

  predicate Enabled(s: State, a: Action) {
    SlotsInRange(s) &&
    match a
    case StartPublish(value) => s.producer.ProducerIdle? && |value| == |s.slots[s.writing]|
    case FillWord => s.producer.Filling? && s.producer.copied < |s.producer.value| == |s.slots[s.writing]|
    case Exchange => s.producer.Filling? && s.producer.copied == |s.producer.value|
    case StartRead => s.consumer.ConsumerIdle?
    case Load => s.consumer.Loading?
    case CompareExchange(_) => s.consumer.Comparing?
    case CopyWord => s.consumer.Copying? && |s.consumer.out| < |s.slots[s.reading]|
    case FinishRead => s.consumer.Copying? && |s.consumer.out| == |s.slots[s.reading]|
  }

  /** The compare-exchange takes effect. */
  predicate Takes(s: State, a: Action) {
    a.CompareExchange? && !a.spurious && s.consumer.Comparing? && s.latest == s.consumer.observed
  }

  /** The next attempt of the retry loop, or the copy once the attempts are used up. */
  function AfterRefusal(attempt: nat): Consumer {
    if attempt + 1 < ATTEMPTS then Loading(attempt + 1) else Copying([])
  }

  function Apply(s: State, a: Action): State
    requires Enabled(s, a)
  {
    match a
    case StartPublish(value) =>
      s.(producer := Filling(value, 0))
    case FillWord =>
      var k := s.producer.copied;
      s.(slots := s.slots[s.writing := s.slots[s.writing][k := s.producer.value[k]]],
         producer := Filling(s.producer.value, k + 1))
    case Exchange =>
      var next := s.writeVersion + 1;
      s.(latest := PackState(next, s.writing),
         writeVersion := next,
         writing := StateIndex(s.latest),
         producer := ProducerIdle,
         published := s.published + [s.producer.value])
    case StartRead =>
      s.(consumer := Loading(0), call := Call(s.writeVersion, s.readVersion, 0))
    case Load =>
      if StateVersion(s.latest) == s.readVersion
      then s.(consumer := Copying([]))
      else s.(consumer := Comparing(s.consumer.attempt, s.latest))
    case CompareExchange(_) =>
      var observed := s.consumer.observed;
      if Takes(s, a)
      then s.(latest := PackState(StateVersion(observed), s.reading),
              reading := StateIndex(observed),
              readVersion := StateVersion(observed),
              consumer := Copying([]))
      else s.(consumer := AfterRefusal(s.consumer.attempt),
              call := s.call.(refused := s.call.refused + 1))
    case CopyWord =>
      var out := s.consumer.out;
      s.(consumer := Copying(out + [s.slots[s.reading][|out|]]))
    case FinishRead =>
      s.(consumer := ConsumerIdle,
         results := s.results + [Result(s.consumer.out, s.readVersion, s.call, s.writeVersion)])
  }

  /** `states` is the run that `actions` drives from a fresh buffer. */
  ghost predicate IsRun(initial: Frame, states: seq<State>, actions: seq<Action>) {
    && |states| == |actions| + 1
    && states[0] == Init(initial)
    && forall i :: 0 <= i < |actions| ==> Enabled(states[i], actions[i]) && states[i + 1] == Apply(states[i], actions[i])
  }

  // ----- the invariant

  /** The writer's slot, the exchanged slot and the reader's slot are three different slots. */
  ghost predicate Permutation(s: State) {
    && SlotsInRange(s)
    && StateIndex(s.latest) < SLOTS
    && s.writing != StateIndex(s.latest)
    && s.writing != s.reading
    && s.reading != StateIndex(s.latest)
  }

  ghost predicate Shapes(s: State, size: nat) {
    && (forall i :: 0 <= i < |s.slots| ==> |s.slots[i]| == size)
    && |s.published| == s.writeVersion + 1
    && (forall v :: 0 <= v < |s.published| ==> |s.published[v]| == size)
  }

  /** The exchanged word carries the newest version; unread versions sit whole in the exchanged
      slot, and the reader's slot holds the version it was read under. */
  ghost predicate Contents(s: State)
    requires Permutation(s) && |s.published| == s.writeVersion + 1
  {
    && StateVersion(s.latest) == s.writeVersion
    && s.readVersion <= s.writeVersion
    && s.slots[s.reading] == s.published[s.readVersion]
    && (s.readVersion < s.writeVersion ==> s.slots[StateIndex(s.latest)] == s.published[s.writeVersion])
  }

  ghost predicate ProducerOk(s: State, size: nat)
    requires SlotsInRange(s)
  {
    s.producer.Filling? ==>
      && |s.producer.value| == size
      && s.producer.copied <= size == |s.slots[s.writing]|
      && s.slots[s.writing][..s.producer.copied] == s.producer.value[..s.producer.copied]
  }

  ghost predicate ConsumerOk(s: State, size: nat)
    requires SlotsInRange(s)
  {
    && s.call.newest <= s.writeVersion
    && s.call.previous <= s.readVersion
    && match s.consumer
       case ConsumerIdle => true
       case Loading(attempt) =>
         attempt < ATTEMPTS && s.call.refused == attempt && s.call.previous == s.readVersion
       case Comparing(attempt, observed) =>
         && attempt < ATTEMPTS && s.call.refused == attempt && s.call.previous == s.readVersion
         && s.call.newest <= StateVersion(observed) <= s.writeVersion
         && s.readVersion < StateVersion(observed)
         && (StateVersion(observed) == s.writeVersion ==> observed == s.latest)
       case Copying(out) =>
         && |out| <= size == |s.slots[s.reading]|
         && out == s.slots[s.reading][..|out|]
         && (s.call.newest <= s.readVersion || (s.call.refused == ATTEMPTS && s.readVersion == s.call.previous))
  }

  /** A completed read returned one whole published frame; it was the newest one at some time
      between the start and the end of the read, or the read was refused three times and returned
      what the read before it returned. */
  ghost predicate ResultOk(r: Result, published: seq<Frame>) {
    && r.call.previous <= r.version <= r.newestAtEnd < |published|
    && r.frame == published[r.version]
    && (r.call.newest <= r.version || (r.call.refused == ATTEMPTS && r.version == r.call.previous))
  }

  /** The version the last completed read returned; a fresh reader holds version 0. */
  function LastVersion(results: seq<Result>): nat {
    if results == [] then 0 else results[|results| - 1].version
  }

  ghost predicate ResultsOk(s: State) {
    && (forall i :: 0 <= i < |s.results| ==>
          ResultOk(s.results[i], s.published) && s.results[i].call.previous == LastVersion(s.results[..i]))
    && LastVersion(s.results) == (if s.consumer.ConsumerIdle? then s.readVersion else s.call.previous)
  }

  ghost predicate Inv(s: State, size: nat) {
    Permutation(s) && Shapes(s, size) && Contents(s) && ProducerOk(s, size) && ConsumerOk(s, size) && ResultsOk(s)
  }

  lemma InitInv(initial: Frame)
    ensures Inv(Init(initial), |initial|)
  {
  }

  /** Below the version limit the packed word gives both its parts back. */
  lemma PackUnpack(version: nat, index: nat)
    requires version < VERSION_LIMIT && index < 4
    ensures StateVersion(PackState(version, index)) == version
    ensures StateIndex(PackState(version, index)) == index
  {
  }

  lemma FillKeepsInv(s: State, size: nat)
    requires Inv(s, size) && Enabled(s, FillWord)
    ensures Inv(Apply(s, FillWord), size)
  {
    var t, k := Apply(s, FillWord), s.producer.copied;
    assert t.slots[t.writing][..k + 1] == s.producer.value[..k] + [s.producer.value[k]];
    assert t.producer.value[..k + 1] == s.producer.value[..k] + [s.producer.value[k]];
  }

  lemma ExchangeKeepsInv(s: State, size: nat)
    requires Inv(s, size) && Enabled(s, Exchange)
    requires s.writeVersion + 1 < VERSION_LIMIT
    ensures Inv(Apply(s, Exchange), size)
  {
    var t := Apply(s, Exchange);
    PackUnpack(t.writeVersion, s.writing);
    assert s.slots[s.writing] == s.slots[s.writing][..size];
    assert s.producer.value == s.producer.value[..size];
    forall i | 0 <= i < |t.results|
      ensures ResultOk(t.results[i], t.published)
    {
      assert ResultOk(s.results[i], s.published);
    }
  }

  lemma ProducerStepKeepsInv(s: State, a: Action, size: nat)
    requires Inv(s, size) && Enabled(s, a) && IsProducer(a)
    requires Apply(s, a).writeVersion < VERSION_LIMIT
    ensures Inv(Apply(s, a), size)
  {
    match a
    case StartPublish(value) =>
    case FillWord =>
      FillKeepsInv(s, size);
    case Exchange =>
      ExchangeKeepsInv(s, size);
  }

  lemma FinishKeepsInv(s: State, size: nat)
    requires Inv(s, size) && Enabled(s, FinishRead)
    ensures Inv(Apply(s, FinishRead), size)
  {
    var t := Apply(s, FinishRead);
    assert s.consumer.out == s.slots[s.reading];
    forall i | 0 <= i < |t.results|
      ensures ResultOk(t.results[i], t.published) && t.results[i].call.previous == LastVersion(t.results[..i])
    {
      if i < |s.results| {
        assert t.results[..i] == s.results[..i];
      } else {
        assert t.results[..i] == s.results;
      }
    }
  }

  lemma ConsumerStepKeepsInv(s: State, a: Action, size: nat)
    requires Inv(s, size) && Enabled(s, a) && !IsProducer(a)
    requires s.writeVersion < VERSION_LIMIT
    ensures Inv(Apply(s, a), size)
  {
    match a
    case StartRead =>
    case Load =>
    case CompareExchange(_) =>
      if Takes(s, a) {
        PackUnpack(s.writeVersion, s.reading);
      }
    case CopyWord =>
      var out := s.consumer.out;
      assert Apply(s, a).consumer.out == s.slots[s.reading][..|out| + 1];
    case FinishRead =>
      FinishKeepsInv(s, size);
  }

  // ----- every run

  lemma StepKeepsInv(s: State, a: Action, size: nat)
    requires Inv(s, size) && Enabled(s, a) && Apply(s, a).writeVersion < VERSION_LIMIT
    ensures Inv(Apply(s, a), size)
  {
    if IsProducer(a) {
      ProducerStepKeepsInv(s, a, size);
    } else {
      ConsumerStepKeepsInv(s, a, size);
    }
  }

  lemma {:induction false} VersionsOnlyGrow(initial: Frame, states: seq<State>, actions: seq<Action>, i: nat, j: nat)
    requires IsRun(initial, states, actions) && i <= j <= |actions|
    ensures states[i].writeVersion <= states[j].writeVersion
    ensures forall k :: i <= k < j && actions[k].Exchange? ==> states[i].writeVersion < states[j].writeVersion
  {
    if i < j {
      VersionsOnlyGrow(initial, states, actions, i, j - 1);
      assert states[j] == Apply(states[j - 1], actions[j - 1]);
    }
  }

  lemma RunStep(initial: Frame, states: seq<State>, actions: seq<Action>, i: nat)
    requires IsRun(initial, states, actions) && i < |actions|
    ensures Enabled(states[i], actions[i]) && states[i + 1] == Apply(states[i], actions[i])
  {
  }

  /** The invariant holds in every state of every run of fewer than 2^62 publishes. */
  lemma {:induction false} RunKeepsInv(initial: Frame, states: seq<State>, actions: seq<Action>, i: nat)
    requires IsRun(initial, states, actions) && i <= |actions|
    requires states[|actions|].writeVersion < VERSION_LIMIT
    ensures Inv(states[i], |initial|)
  {
    hide Inv, Apply, Enabled;
    if i == 0 {
      InitInv(initial);
    } else {
      RunKeepsInv(initial, states, actions, i - 1);
      VersionsOnlyGrow(initial, states, actions, i, |actions|);
      RunStep(initial, states, actions, i - 1);
      StepKeepsInv(states[i - 1], actions[i - 1], |initial|);
    }
  }

  /** In every state of every run the three slots are divided among writer, exchange and reader,
      and no producer step changes the slot the reader copies. */
  lemma SlotsNeverShared(initial: Frame, states: seq<State>, actions: seq<Action>, i: nat)
    requires IsRun(initial, states, actions) && i < |actions|
    requires states[|actions|].writeVersion < VERSION_LIMIT
    ensures multiset{states[i].writing, StateIndex(states[i].latest), states[i].reading} == multiset{0, 1, 2}
    ensures IsProducer(actions[i]) ==>
              states[i + 1].reading == states[i].reading < |states[i].slots| == |states[i + 1].slots| &&
              states[i + 1].slots[states[i].reading] == states[i].slots[states[i].reading]
  {
    hide Inv, Apply, Enabled;
    RunKeepsInv(initial, states, actions, i);
    RunStep(initial, states, actions, i);
    SlotsDivided(states[i], |initial|);
    if IsProducer(actions[i]) {
      ProducerSparesReader(states[i], actions[i], |initial|);
    }
  }

  lemma SlotsDivided(s: State, size: nat)
    requires Inv(s, size)
    ensures multiset{s.writing, StateIndex(s.latest), s.reading} == multiset{0, 1, 2}
  {
  }

  lemma ProducerSparesReader(s: State, a: Action, size: nat)
    requires Inv(s, size) && Enabled(s, a) && IsProducer(a)
    ensures var t := Apply(s, a);
            t.reading == s.reading < |s.slots| == |t.slots| && t.slots[s.reading] == s.slots[s.reading]
  {
  }

  /** The frames handed to publish, in order. */
  function Sent(actions: seq<Action>): seq<Frame> {
    if actions == [] then []
    else
      var last := actions[|actions| - 1];
      Sent(actions[..|actions| - 1]) + (if last.StartPublish? then [last.value] else [])
  }

  /** The history `published` is the initial frame followed by the frames handed to publish. */
  lemma {:induction false} PublishedIsSent(initial: Frame, states: seq<State>, actions: seq<Action>, i: nat)
    requires IsRun(initial, states, actions) && i <= |actions|
    ensures states[i].published + (if states[i].producer.Filling? then [states[i].producer.value] else [])
            == [initial] + Sent(actions[..i])
  {
    if i > 0 {
      PublishedIsSent(initial, states, actions, i - 1);
      assert states[i] == Apply(states[i - 1], actions[i - 1]);
      assert actions[..i][..i - 1] == actions[..i - 1];
      assert actions[..i][i - 1] == actions[i - 1];
      var sent := Sent(actions[..i - 1]);
      if actions[i - 1].StartPublish? {
        assert [initial] + (sent + [actions[i - 1].value]) == ([initial] + sent) + [actions[i - 1].value];
      }
    }
  }

  /** Every completed read returned, word for word, the frame that one earlier publish was given
      (or the initial frame): never a mixture. */
  lemma ReadsReturnWholeFrames(initial: Frame, states: seq<State>, actions: seq<Action>, n: nat)
    requires IsRun(initial, states, actions)
    requires states[|actions|].writeVersion < VERSION_LIMIT
    requires n < |states[|actions|].results|
    ensures var r := states[|actions|].results[n];
            r.version < |[initial] + Sent(actions)| && r.frame == ([initial] + Sent(actions))[r.version]
  {
    var last := |actions|;
    RunKeepsInv(initial, states, actions, last);
    PublishedIsSent(initial, states, actions, last);
    assert actions[..last] == actions;
    var r := states[last].results[n];
    assert ResultOk(r, states[last].published);
    assert states[last].published[r.version] == ([initial] + Sent(actions))[r.version];
  }

  /** A reader's version never goes back, and the other thread does not touch it. */
  lemma StepKeepsPrivate(s: State, a: Action, size: nat)
    requires Inv(s, size) && Enabled(s, a)
    ensures var t := Apply(s, a);
            && s.readVersion <= t.readVersion && |s.slots| == |t.slots| == SLOTS
            && s.reading < SLOTS && s.writing < SLOTS
            && (IsProducer(a) ==> ReaderUntouched(s, t))
            && (!IsProducer(a) ==> WriterUntouched(s, t))
  {
  }

  lemma SlotsAreFrames(s: State, size: nat)
    requires Inv(s, size)
    ensures SlotsInRange(s) && |s.slots[s.writing]| == size && |s.slots[s.reading]| == size
  {
  }

  ghost predicate ReaderUntouched(s: State, t: State) {
    && t.consumer == s.consumer && t.reading == s.reading && t.readVersion == s.readVersion
    && t.call == s.call && t.results == s.results && s.published <= t.published
    && s.reading < |s.slots| == |t.slots| && t.slots[s.reading] == s.slots[s.reading]
  }

  ghost predicate WriterUntouched(s: State, t: State) {
    && t.producer == s.producer && t.writing == s.writing && t.writeVersion == s.writeVersion
    && t.published == s.published
    && s.writing < |s.slots| == |t.slots| && t.slots[s.writing] == s.slots[s.writing]
  }

  /** Versions returned by successive reads never decrease. */
  lemma {:induction false} ReadsNeverGoBack(initial: Frame, states: seq<State>, actions: seq<Action>, m: nat, n: nat)
    requires IsRun(initial, states, actions)
    requires states[|actions|].writeVersion < VERSION_LIMIT
    requires m <= n < |states[|actions|].results|
    ensures states[|actions|].results[m].version <= states[|actions|].results[n].version
  {
    if m < n {
      ReadsNeverGoBack(initial, states, actions, m, n - 1);
      RunKeepsInv(initial, states, actions, |actions|);
      var results := states[|actions|].results;
      assert ResultOk(results[n], states[|actions|].published);
      assert LastVersion(results[..n]) == results[n - 1].version;
    }
  }

  /** While no load happens the observed word stays what the last load saw. */
  lemma {:induction false} ObservedSinceLoad(initial: Frame, states: seq<State>, actions: seq<Action>, i: nat, j: nat)
    requires IsRun(initial, states, actions) && i < j <= |actions|
    requires actions[i].Load?
    requires forall k :: i < k < j ==> !actions[k].Load?
    requires states[j].consumer.Comparing?
    ensures states[j].consumer.observed == states[i].latest
    decreases j
  {
    assert states[j] == Apply(states[j - 1], actions[j - 1]);
    if i + 1 < j {
      assert !actions[j - 1].Load?;
      ObservedSinceLoad(initial, states, actions, i, j - 1);
    }
  }

  /** No ABA: when the compare-exchange succeeds, nothing was published since the load. */
  lemma SuccessMeansNoPublish(initial: Frame, states: seq<State>, actions: seq<Action>, i: nat, j: nat)
    requires IsRun(initial, states, actions) && i < j < |actions|
    requires states[|actions|].writeVersion < VERSION_LIMIT
    requires actions[i].Load? && Takes(states[j], actions[j])
    requires forall k :: i < k < j ==> !actions[k].Load?
    ensures forall k :: i <= k < j ==> !actions[k].Exchange?
  {
    ObservedSinceLoad(initial, states, actions, i, j);
    RunKeepsInv(initial, states, actions, i);
    RunKeepsInv(initial, states, actions, j);
    VersionsOnlyGrow(initial, states, actions, i, j);
  }

  // ----- freshness of one read

  predicate IsBoundary(a: Action) {
    a.StartRead? || a.FinishRead?
  }

  /** How many compare-exchanges of actions[i..j] failed. */
  function Refusals(states: seq<State>, actions: seq<Action>, i: nat, j: nat): nat
    requires |states| == |actions| + 1 && i <= j <= |actions|
  {
    if i == j then 0
    else
      Refusals(states, actions, i, j - 1) +
      (if actions[j - 1].CompareExchange? && !Takes(states[j - 1], actions[j - 1]) then 1 else 0)
  }

  /** Within a read every step keeps the record but for the refusals it counts. */
  lemma StepInsideCall(s: State, a: Action)
    requires Enabled(s, a) && !IsBoundary(a) && !s.consumer.ConsumerIdle?
    ensures var t := Apply(s, a);
            && t.call == s.call.(refused := s.call.refused + if a.CompareExchange? && !Takes(s, a) then 1 else 0)
            && t.results == s.results && !t.consumer.ConsumerIdle?
  {
  }

  lemma StartOfCall(s: State)
    requires Enabled(s, StartRead)
    ensures var t := Apply(s, StartRead);
            t.call == Call(s.writeVersion, s.readVersion, 0) && t.results == s.results && !t.consumer.ConsumerIdle?
    ensures !Takes(s, StartRead)
  {
  }

  /** What the call record says is what happened since the read began. */
  lemma {:induction false} CallRecord(initial: Frame, states: seq<State>, actions: seq<Action>, i: nat, j: nat)
    requires IsRun(initial, states, actions) && i < j <= |actions|
    requires actions[i].StartRead?
    requires forall k :: i < k < j ==> !IsBoundary(actions[k])
    ensures states[j].call == Call(states[i].writeVersion, states[i].readVersion, Refusals(states, actions, i, j))
    ensures states[j].results == states[i].results
    ensures !states[j].consumer.ConsumerIdle?
    decreases j
  {
    hide Apply, Enabled, Takes;
    RunStep(initial, states, actions, j - 1);
    if i + 1 < j {
      assert !IsBoundary(actions[j - 1]);
      CallRecord(initial, states, actions, i, j - 1);
      StepInsideCall(states[j - 1], actions[j - 1]);
    } else {
      assert Refusals(states, actions, i, i) == 0;
      StartOfCall(states[i]);
    }
  }

  /** Publishes raise the newest version one at a time, so every value between is met. */
  lemma {:induction false} NewestTakesEveryValue(
      initial: Frame, states: seq<State>, actions: seq<Action>, i: nat, j: nat, v: nat) returns (k: nat)
    requires IsRun(initial, states, actions) && i <= j <= |actions|
    requires states[i].writeVersion <= v <= states[j].writeVersion
    ensures i <= k <= j && states[k].writeVersion == v
    decreases j
  {
    if states[j].writeVersion == v {
      k := j;
    } else {
      assert i < j;
      assert states[j] == Apply(states[j - 1], actions[j - 1]);
      k := NewestTakesEveryValue(initial, states, actions, i, j - 1, v);
    }
  }

  ghost predicate NewestDuring(states: seq<State>, i: nat, j: nat, v: nat)
    requires i <= j < |states|
  {
    exists k :: i <= k <= j && states[k].writeVersion == v
  }

  /** A read from step i to step j returns the frame that was newest at some instant of the call,
      or, only after three failed compare-exchanges, the version the read before it returned. */
  lemma ReadIsFreshOrRefused(initial: Frame, states: seq<State>, actions: seq<Action>, i: nat, j: nat)
    requires IsRun(initial, states, actions) && i < j < |actions|
    requires states[|actions|].writeVersion < VERSION_LIMIT
    requires actions[i].StartRead? && actions[j].FinishRead?
    requires forall k :: i < k < j ==> !IsBoundary(actions[k])
    ensures |states[j + 1].results| == |states[i].results| + 1
    ensures var r := states[j + 1].results[|states[i].results|];
            || NewestDuring(states, i, j, r.version)
            || (Refusals(states, actions, i, j) == 3 && r.version == LastVersion(states[i].results))
  {
    CallRecord(initial, states, actions, i, j);
    RunKeepsInv(initial, states, actions, i);
    RunKeepsInv(initial, states, actions, j);
    assert states[j + 1] == Apply(states[j], actions[j]);
    var r := states[j + 1].results[|states[i].results|];
    if states[i].writeVersion <= r.version {
      var k := NewestTakesEveryValue(initial, states, actions, i, j, r.version);
    }
  }

  // ----- progress

  /** Steps the consumer still has to take in its call. */
  function StepsLeft(c: Consumer, size: nat): int {
    match c
    case ConsumerIdle => 0
    case Loading(attempt) => 2 * (ATTEMPTS - attempt) + size + 1
    case Comparing(attempt, _) => 2 * (ATTEMPTS - attempt) + size
    case Copying(out) => size - |out| + 1
  }

  /** Both threads are wait-free: neither is ever blocked, and every step of a read brings its end
      nearer whatever the producer does. */
  lemma ReadsAreWaitFree(s: State, a: Action, size: nat)
    requires Inv(s, size)
    ensures exists b :: Enabled(s, b) && IsProducer(b)
    ensures exists b :: Enabled(s, b) && !IsProducer(b)
    ensures 0 <= StepsLeft(s.consumer, size) <= size + 7
    ensures Enabled(s, a) && !IsProducer(a) && !a.StartRead? ==>
              StepsLeft(Apply(s, a).consumer, size) < StepsLeft(s.consumer, size)
    ensures Enabled(s, a) && IsProducer(a) ==> Apply(s, a).consumer == s.consumer
  {
    var p := match s.producer
      case ProducerIdle => StartPublish(s.slots[s.writing])
      case Filling(value, copied) => if copied < |value| then FillWord else Exchange;
    assert Enabled(s, p) && IsProducer(p);
    var c := match s.consumer
      case ConsumerIdle => StartRead
      case Loading(_) => Load
      case Comparing(_, _) => CompareExchange(false)
      case Copying(out) => if |out| < |s.slots[s.reading]| then CopyWord else FinishRead;
    assert Enabled(s, c) && !IsProducer(c);
  }
}
