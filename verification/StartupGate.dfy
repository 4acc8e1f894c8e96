/** The startup gate: feedback must be ready in a number of different frames before the backend
    reports that it has started. */
module StartupGate {
  import opened RmdTypes
  import opened EthercatSnapshot
  import EthercatCycle
  import EthercatSafety
  import SnapshotProtocol

  const DEFAULT_READY_FRAMES: int := 20

  /** The configured number of frames, or 20 when the configured one is not positive. */
  function RequiredFrames(configured: int): (r: nat)
    ensures r > 0
  {
    if configured > 0 then configured else DEFAULT_READY_FRAMES
  }

  /** The motor's record is there, fresh, and reports neither a lost status nor an error. */
  predicate MotorReady(frame: MotorActualFrame, i: nat) {
    i < MAX_REALTIME_MOTORS ==>
      && i in frame.valid && i !in frame.stale
      && frame.actuals[i].statusWord != 0xffff && frame.actuals[i].errorCode == 0
  }

  predicate FrameReady(frame: MotorActualFrame, bindings: seq<Binding>) {
    forall b :: b in bindings ==> MotorReady(frame, b.globalIndex)
  }

  method FrameReadyForBindings(frame: MotorActualFrame, bindings: seq<Binding>) returns (ready: bool)
    ensures ready <==> FrameReady(frame, bindings)
  {
    for k := 0 to |bindings|
      invariant forall j :: 0 <= j < k ==> MotorReady(frame, bindings[j].globalIndex)
    {
      var i := bindings[k].globalIndex;
      assert bindings[k] in bindings;
      if i >= MAX_REALTIME_MOTORS {
        continue;
      }
      var actual := frame.actuals[i];
      if i !in frame.valid || i in frame.stale || actual.statusWord == STALE_STATUS || actual.errorCode != 0 {
        return false;
      }
    }
    return true;
  }

  // ----- the frames a reader of the snapshot buffer sees

  /** Successive reads never go back, and a sequence number names one frame. */
  ghost predicate SnapshotReads(frames: seq<MotorActualFrame>) {
    forall i, j :: 0 <= i <= j < |frames| ==>
      frames[i].sequence <= frames[j].sequence && (frames[i].sequence == frames[j].sequence ==> frames[i] == frames[j])
  }

  /** The frames of the realtime cycles, preceded by the buffer's initial frame. */
  function FrameOfVersion(initial: MotorActualFrame, states: seq<EthercatCycle.CycleState>, v: nat): MotorActualFrame
    requires v < |states|
  {
    if v == 0 then initial else states[v].actuals
  }

  lemma SequenceIsVersion(layout: EthercatCycle.Layout, timeout: int, cycles: seq<EthercatCycle.CycleState>,
                          inputs: seq<EthercatCycle.CycleInput>, initial: MotorActualFrame, v: nat)
    requires EthercatSafety.IsRun(layout, timeout, cycles, inputs)
    requires initial.sequence == 0 && cycles[0].actuals.sequence == 0 && v < |cycles|
    ensures FrameOfVersion(initial, cycles, v).sequence == v
  {
    EthercatSafety.SequencesCountCycles(layout, timeout, cycles, inputs, v);
  }

  /** The words stand for the frames of this run: each of them can be told from its words. */
  ghost predicate Represents(cycles: seq<EthercatCycle.CycleState>, initial: MotorActualFrame,
                             encode: MotorActualFrame -> SnapshotProtocol.Frame,
                             decode: SnapshotProtocol.Frame -> MotorActualFrame)
  {
    forall v :: 0 <= v < |cycles| ==>
      decode(encode(FrameOfVersion(initial, cycles, v))) == FrameOfVersion(initial, cycles, v)
  }

  /** Every run has such words, for frames of any positive number of words. */
  lemma WordsExist(layout: EthercatCycle.Layout, timeout: int, cycles: seq<EthercatCycle.CycleState>,
                   inputs: seq<EthercatCycle.CycleInput>, initial: MotorActualFrame, size: nat)
    returns (encode: MotorActualFrame -> SnapshotProtocol.Frame, decode: SnapshotProtocol.Frame -> MotorActualFrame)
    requires EthercatSafety.IsRun(layout, timeout, cycles, inputs)
    requires initial.sequence == 0 && cycles[0].actuals.sequence == 0 && size > 0
    ensures Represents(cycles, initial, encode, decode)
    ensures forall f :: |encode(f)| == size
  {
    encode := (f: MotorActualFrame) => seq(size, _ => f.sequence);
    decode := (w: SnapshotProtocol.Frame) => if |w| > 0 && 0 <= w[0] < |cycles| then FrameOfVersion(initial, cycles, w[0]) else initial;
    forall v | 0 <= v < |cycles|
      ensures decode(encode(FrameOfVersion(initial, cycles, v))) == FrameOfVersion(initial, cycles, v)
    {
      SequenceIsVersion(layout, timeout, cycles, inputs, initial, v);
      assert encode(FrameOfVersion(initial, cycles, v))[0] == v;
    }
  }

  /** The buffer carries the frames of the cycles: its words are the encoded frames, in order. */
  ghost predicate Carries(sent: seq<SnapshotProtocol.Frame>, cycles: seq<EthercatCycle.CycleState>,
                          encode: MotorActualFrame -> SnapshotProtocol.Frame)
  {
    |sent| < |cycles| && forall v :: 0 <= v < |sent| ==> sent[v] == encode(cycles[v + 1].actuals)
  }

  /** What the reader makes of the n-th completed read. */
  ghost predicate Decoded(results: seq<SnapshotProtocol.Result>, decode: SnapshotProtocol.Frame -> MotorActualFrame,
                          frames: seq<MotorActualFrame>)
  {
    |results| == |frames| && forall n :: 0 <= n < |frames| ==> frames[n] == decode(results[n].frame)
  }

  lemma ReadIsFrameOfVersion(
      cycles: seq<EthercatCycle.CycleState>, initial: MotorActualFrame,
      states: seq<SnapshotProtocol.State>, actions: seq<SnapshotProtocol.Action>,
      encode: MotorActualFrame -> SnapshotProtocol.Frame, decode: SnapshotProtocol.Frame -> MotorActualFrame, n: nat)
    requires Represents(cycles, initial, encode, decode)
    requires SnapshotProtocol.IsRun(encode(initial), states, actions)
    requires states[|actions|].writeVersion < SnapshotProtocol.VERSION_LIMIT
    requires Carries(SnapshotProtocol.Sent(actions), cycles, encode)
    requires n < |states[|actions|].results|
    ensures var r := states[|actions|].results[n];
            r.version < |cycles| && decode(r.frame) == FrameOfVersion(initial, cycles, r.version)
  {
    SnapshotProtocol.ReadsReturnWholeFrames(encode(initial), states, actions, n);
    var v := states[|actions|].results[n].version;
    assert ([encode(initial)] + SnapshotProtocol.Sent(actions))[v] == encode(FrameOfVersion(initial, cycles, v));
  }

  /** What the gate relies on holds: whatever the realtime thread publishes and however the reads
      interleave with it, the frames read satisfy SnapshotReads. */
  lemma GateReadsSnapshots(
      layout: EthercatCycle.Layout, timeout: int,
      cycles: seq<EthercatCycle.CycleState>, inputs: seq<EthercatCycle.CycleInput>, initial: MotorActualFrame,
      states: seq<SnapshotProtocol.State>, actions: seq<SnapshotProtocol.Action>,
      encode: MotorActualFrame -> SnapshotProtocol.Frame, decode: SnapshotProtocol.Frame -> MotorActualFrame,
      frames: seq<MotorActualFrame>)
    requires EthercatSafety.IsRun(layout, timeout, cycles, inputs)
    requires initial.sequence == 0 && cycles[0].actuals.sequence == 0
    requires Represents(cycles, initial, encode, decode)
    requires SnapshotProtocol.IsRun(encode(initial), states, actions)
    requires states[|actions|].writeVersion < SnapshotProtocol.VERSION_LIMIT
    requires Carries(SnapshotProtocol.Sent(actions), cycles, encode)
    requires Decoded(states[|actions|].results, decode, frames)
    ensures SnapshotReads(frames)
  {
    var results := states[|actions|].results;
    forall i, j | 0 <= i <= j < |frames|
      ensures frames[i].sequence <= frames[j].sequence && (frames[i].sequence == frames[j].sequence ==> frames[i] == frames[j])
    {
      ReadIsFrameOfVersion(cycles, initial, states, actions, encode, decode, i);
      ReadIsFrameOfVersion(cycles, initial, states, actions, encode, decode, j);
      SequenceIsVersion(layout, timeout, cycles, inputs, initial, results[i].version);
      SequenceIsVersion(layout, timeout, cycles, inputs, initial, results[j].version);
      SnapshotProtocol.ReadsNeverGoBack(encode(initial), states, actions, i, j);
    }
  }

  // ----- the gate

  /** The sequence numbers seen, apart from that of the initial frame. */
  function Numbers(frames: seq<MotorActualFrame>): set<nat> {
    set f | f in frames && f.sequence != 0 :: f.sequence
  }

  /** Nothing but ready frames, the initial frame aside. */
  ghost predicate AllReady(frames: seq<MotorActualFrame>, bindings: seq<Binding>) {
    forall f :: f in frames ==> f.sequence == 0 || FrameReady(f, bindings)
  }

  ghost predicate IsStretch(frames: seq<MotorActualFrame>, bindings: seq<Binding>, required: nat, a: int, b: int) {
    0 <= a <= b <= |frames| && AllReady(frames[a..b], bindings) && |Numbers(frames[a..b])| >= required
  }

  /** Some uninterrupted stretch of the reads shows the required number of different ready frames. */
  ghost predicate HasStretch(frames: seq<MotorActualFrame>, bindings: seq<Binding>, required: nat) {
    exists a, b :: IsStretch(frames, bindings, required, a, b)
  }

  /** `a` is where the current stretch begins. */
  ghost predicate StretchStart(frames: seq<MotorActualFrame>, bindings: seq<Binding>, a: nat) {
    && a <= |frames| && AllReady(frames[a..], bindings)
    && (a > 0 ==> frames[a - 1].sequence != 0 && !FrameReady(frames[a - 1], bindings))
  }

  lemma NumbersStep(frames: seq<MotorActualFrame>, f: MotorActualFrame)
    ensures Numbers(frames + [f]) == Numbers(frames) + if f.sequence == 0 then {} else {f.sequence}
  {
    var all := frames + [f];
    forall x | x in Numbers(frames) ensures x in Numbers(all) {
      var g :| g in frames && g.sequence == x && x != 0;
      assert g in all;
    }
    assert f in all;
  }

  lemma NumbersGrow(small: seq<MotorActualFrame>, large: seq<MotorActualFrame>)
    requires forall f :: f in small ==> f in large
    ensures |Numbers(small)| <= |Numbers(large)|
  {
    var rest := Numbers(large) - Numbers(small);
    assert Numbers(large) == Numbers(small) + rest;
  }

  lemma SliceInSlice(frames: seq<MotorActualFrame>, a: nat, c: nat, b: nat)
    requires a <= c <= b <= |frames|
    ensures forall f :: f in frames[c..b] ==> f in frames[a..b]
  {
    forall f | f in frames[c..b] ensures f in frames[a..b] {
      var k :| 0 <= k < b - c && frames[c..b][k] == f;
      assert frames[a..b][k + c - a] == f;
    }
  }

  lemma InStretch(frames: seq<MotorActualFrame>, bindings: seq<Binding>, c: nat)
    requires c <= |frames| && AllReady(frames[c..], bindings)
    ensures forall k :: c <= k < |frames| ==> frames[k].sequence == 0 || FrameReady(frames[k], bindings)
  {
    forall k | c <= k < |frames| ensures frames[k].sequence == 0 || FrameReady(frames[k], bindings) {
      assert frames[k] == frames[c..][k - c];
    }
  }

  /** No stretch ending now is longer than the current one. */
  lemma StretchIsLongest(frames: seq<MotorActualFrame>, bindings: seq<Binding>, a: nat, c: nat)
    requires StretchStart(frames, bindings, a) && c <= |frames| && AllReady(frames[c..], bindings)
    ensures |Numbers(frames[c..])| <= |Numbers(frames[a..])|
  {
    InStretch(frames, bindings, c);
    SliceInSlice(frames, a, c, |frames|);
    assert frames[a..|frames|] == frames[a..] && frames[c..|frames|] == frames[c..];
    NumbersGrow(frames[c..], frames[a..]);
  }

  /** A stretch in a longer list of reads ends now, or was there before. */
  lemma StretchStep(frames: seq<MotorActualFrame>, f: MotorActualFrame, bindings: seq<Binding>, required: nat, a: nat)
    requires StretchStart(frames + [f], bindings, a)
    ensures HasStretch(frames + [f], bindings, required) <==>
              HasStretch(frames, bindings, required) || |Numbers((frames + [f])[a..])| >= required
  {
    hide AllReady, Numbers;
    var all := frames + [f];
    if HasStretch(all, bindings, required) {
      var c, b :| IsStretch(all, bindings, required, c, b);
      if b < |all| {
        assert all[c..b] == frames[c..b];
        assert IsStretch(frames, bindings, required, c, b);
      } else {
        assert all[c..b] == all[c..];
        StretchIsLongest(all, bindings, a, c);
      }
    }
    if HasStretch(frames, bindings, required) {
      var c, b :| IsStretch(frames, bindings, required, c, b);
      assert all[c..b] == frames[c..b];
      assert IsStretch(all, bindings, required, c, b);
    }
    assert all[a..|all|] == all[a..];
    if |Numbers(all[a..])| >= required {
      assert IsStretch(all, bindings, required, a, |all|);
    }
  }

  function LastNumber(frames: seq<MotorActualFrame>): nat {
    if frames == [] then 0 else frames[|frames| - 1].sequence
  }

  /** What the gate's two counters mean after some reads. */
  ghost predicate Counted(frames: seq<MotorActualFrame>, bindings: seq<Binding>, a: nat, consecutive: nat) {
    StretchStart(frames, bindings, a) && consecutive == |Numbers(frames[a..])|
  }

  lemma AllReadyStep(frames: seq<MotorActualFrame>, f: MotorActualFrame, bindings: seq<Binding>)
    ensures AllReady(frames + [f], bindings) <==> AllReady(frames, bindings) && AllReady([f], bindings)
  {
    if AllReady(frames + [f], bindings) {
      forall g | g in frames ensures g.sequence == 0 || FrameReady(g, bindings) {
        assert g in frames + [f];
      }
      forall g | g in [f] ensures g.sequence == 0 || FrameReady(g, bindings) {
        assert g in frames + [f];
      }
    } else {
      var g :| g in frames + [f] && g.sequence != 0 && !FrameReady(g, bindings);
      assert g in frames || g in [f];
    }
  }

  /** A frame with a new number has a larger one than all before it. */
  lemma NewNumber(frames: seq<MotorActualFrame>, f: MotorActualFrame, a: nat)
    requires a <= |frames| && SnapshotReads(frames + [f]) && f.sequence != LastNumber(frames)
    ensures f.sequence != 0 && f.sequence !in Numbers(frames[a..])
  {
    var all := frames + [f];
    assert all[|frames|] == f;
    if frames != [] {
      assert all[|frames| - 1] == frames[|frames| - 1];
    }
    forall g | g in frames[a..] ensures g.sequence < f.sequence {
      var k :| 0 <= k < |frames[a..]| && frames[a..][k] == g;
      assert all[a + k] == g;
    }
  }

  lemma CountedReady(frames: seq<MotorActualFrame>, f: MotorActualFrame, bindings: seq<Binding>, a: nat, consecutive: nat)
    requires Counted(frames, bindings, a, consecutive) && SnapshotReads(frames + [f])
    requires f.sequence != LastNumber(frames) && FrameReady(f, bindings)
    ensures Counted(frames + [f], bindings, a, consecutive + 1)
  {
    hide FrameReady, Numbers;
    assert (frames + [f])[a..] == frames[a..] + [f];
    AllReadyStep(frames[a..], f, bindings);
    NumbersStep(frames[a..], f);
    NewNumber(frames, f, a);
    assert Numbers(frames[a..] + [f]) == Numbers(frames[a..]) + {f.sequence};
    assert a > 0 ==> (frames + [f])[a - 1] == frames[a - 1];
  }

  lemma CountedNotReady(frames: seq<MotorActualFrame>, f: MotorActualFrame, bindings: seq<Binding>)
    requires f.sequence != 0 && !FrameReady(f, bindings)
    ensures Counted(frames + [f], bindings, |frames| + 1, 0)
  {
    assert (frames + [f])[|frames| + 1..] == [];
  }

  /** Reading the same frame again changes nothing. */
  lemma CountedAgain(frames: seq<MotorActualFrame>, f: MotorActualFrame, bindings: seq<Binding>, a: nat, consecutive: nat)
    returns (start: nat)
    requires Counted(frames, bindings, a, consecutive) && SnapshotReads(frames + [f])
    requires f.sequence == LastNumber(frames)
    ensures Counted(frames + [f], bindings, start, consecutive)
  {
    hide Numbers, FrameReady;
    var all := frames + [f];
    if f.sequence != 0 {
      assert all[|frames| - 1] == frames[|frames| - 1] && all[|frames|] == f;
      assert f == frames[|frames| - 1];
      if FrameReady(f, bindings) {
        start := a;
        assert a < |frames|;
        assert f == frames[a..][|frames| - 1 - a];
        NumberSeen(frames[a..], f);
      } else {
        start := |frames| + 1;
        InStretch(frames, bindings, a);
        CountedNotReady(frames, f, bindings);
        assert frames[a..] == [];
        NothingSeen();
        return;
      }
    } else {
      start := a;
    }
    assert all[a..] == frames[a..] + [f];
    AllReadyStep(frames[a..], f, bindings);
    NumbersStep(frames[a..], f);
    assert Numbers(frames[a..] + [f]) == Numbers(frames[a..]);
    assert a > 0 ==> all[a - 1] == frames[a - 1];
  }

  lemma NumberSeen(frames: seq<MotorActualFrame>, f: MotorActualFrame)
    requires f in frames && f.sequence != 0
    ensures f.sequence in Numbers(frames)
  {
  }

  lemma NothingSeen()
    ensures Numbers([]) == {}
  {
  }

  /** The gate's counter after one more read. */
  ghost function NextCount(frames: seq<MotorActualFrame>, f: MotorActualFrame, bindings: seq<Binding>, consecutive: nat): nat {
    if f.sequence == LastNumber(frames) then consecutive
    else if FrameReady(f, bindings) then consecutive + 1
    else 0
  }

  lemma CountStep(frames: seq<MotorActualFrame>, f: MotorActualFrame, bindings: seq<Binding>, a: nat, consecutive: nat)
    returns (start: nat)
    requires Counted(frames, bindings, a, consecutive) && SnapshotReads(frames + [f])
    ensures Counted(frames + [f], bindings, start, NextCount(frames, f, bindings, consecutive))
  {
    if f.sequence == LastNumber(frames) {
      start := CountedAgain(frames, f, bindings, a, consecutive);
    } else if FrameReady(f, bindings) {
      start := a;
      CountedReady(frames, f, bindings, a, consecutive);
    } else {
      start := |frames| + 1;
      NewNumber(frames, f, 0);
      CountedNotReady(frames, f, bindings);
    }
  }

  /** The counter reaches the required number exactly when the first stretch is complete. */
  lemma GateStep(frames: seq<MotorActualFrame>, f: MotorActualFrame, bindings: seq<Binding>, required: nat,
                 a: nat, consecutive: nat)
    returns (start: nat)
    requires Counted(frames, bindings, a, consecutive) && SnapshotReads(frames + [f])
    requires !HasStretch(frames, bindings, required)
    ensures Counted(frames + [f], bindings, start, NextCount(frames, f, bindings, consecutive))
    ensures HasStretch(frames + [f], bindings, required) <==> NextCount(frames, f, bindings, consecutive) >= required
  {
    start := CountStep(frames, f, bindings, a, consecutive);
    StretchStep(frames, f, bindings, required, start);
  }

  lemma NotYet(frames: seq<MotorActualFrame>, bindings: seq<Binding>, required: nat, a: nat, consecutive: nat)
    requires Counted(frames, bindings, a, consecutive) && !HasStretch(frames, bindings, required)
    ensures consecutive < required
  {
    assert frames[a..|frames|] == frames[a..];
    assert !IsStretch(frames, bindings, required, a, |frames|);
  }

  /** How many iterations begin before the deadline. */
  function Iterations(clock: seq<int>, deadline: int): (n: nat)
    ensures n <= |clock|
    ensures forall i :: 0 <= i < n ==> clock[i] < deadline
    ensures n < |clock| ==> clock[n] >= deadline
  {
    if clock == [] || clock[0] >= deadline then 0 else 1 + Iterations(clock[1..], deadline)
  }

  lemma {:induction false} IterationsStep(clock: seq<int>, deadline: int, i: nat)
    requires i < |clock| && i <= Iterations(clock, deadline)
    ensures clock[i] < deadline <==> i < Iterations(clock, deadline)
  {
    if i > 0 && clock[0] < deadline {
      IterationsStep(clock[1..], deadline, i - 1);
    }
  }

  lemma SliceOfPrefix(frames: seq<MotorActualFrame>, c: int, b: int, n: int)
    requires 0 <= c <= b <= n <= |frames|
    ensures frames[..n][c..b] == frames[c..b]
  {
  }

  lemma StretchKeeps(frames: seq<MotorActualFrame>, bindings: seq<Binding>, required: nat, i: nat, n: nat)
    requires i <= n <= |frames| && HasStretch(frames[..i], bindings, required)
    ensures HasStretch(frames[..n], bindings, required)
  {
    var c, b :| IsStretch(frames[..i], bindings, required, c, b);
    SliceOfPrefix(frames, c, b, i);
    SliceOfPrefix(frames, c, b, n);
    hide AllReady, Numbers;
    assert IsStretch(frames[..n], bindings, required, c, b);
  }

  /** However often the initial frame is read, and whatever it says, the gate stays shut. */
  lemma InitialFrameNeverOpens(frames: seq<MotorActualFrame>, bindings: seq<Binding>, required: nat)
    requires required > 0 && forall f :: f in frames ==> f.sequence == 0
    ensures !HasStretch(frames, bindings, required)
  {
    forall a, b | 0 <= a <= b <= |frames| ensures Numbers(frames[a..b]) == {} {
    }
  }

  lemma NothingRead(bindings: seq<Binding>, required: nat)
    requires required > 0
    ensures Counted([], bindings, 0, 0) && !HasStretch([], bindings, required)
  {
    InitialFrameNeverOpens([], bindings, required);
  }

  lemma ReadsSoFar(frames: seq<MotorActualFrame>, i: nat)
    requires SnapshotReads(frames) && i < |frames|
    ensures frames[..i + 1] == frames[..i] + [frames[i]] && SnapshotReads(frames[..i] + [frames[i]])
  {
  }

  /** waitForStartupReady.  `start` is the clock when the wait begins, `clock[i]` the clock at the
      head of iteration i, `frames[i]` the frame read in it; the clock reaches the deadline. */
  method WaitForStartupReady(bindings: seq<Binding>, timeout: int, configured: int, start: int,
                             clock: seq<int>, frames: seq<MotorActualFrame>)
    returns (ok: bool)
    requires |clock| == |frames| + 1 && clock[|frames|] >= start + timeout
    requires SnapshotReads(frames)
    ensures timeout == 0 ==> ok
    ensures timeout != 0 ==>
      var required := if configured > 0 then configured else 20;
      (ok <==> HasStretch(frames[..Iterations(clock, start + timeout)], bindings, required))
  {
    hide Counted, HasStretch, SnapshotReads, FrameReady, Iterations;
    if timeout == 0 {
      return true;
    }
    var deadline := start + timeout;
    var required := RequiredFrames(configured);
    var consecutiveReady: nat, lastSequence: nat := 0, 0;
    var i: nat := 0;
    ghost var a: nat := 0;
    ghost var n := Iterations(clock, deadline);
    assert frames[..0] == [];
    NothingRead(bindings, required);
    while clock[i] < deadline
      invariant i <= n < |clock|
      invariant lastSequence == LastNumber(frames[..i])
      invariant Counted(frames[..i], bindings, a, consecutiveReady)
      invariant !HasStretch(frames[..i], bindings, required)
      decreases n - i
    {
      IterationsStep(clock, deadline, i);
      var frame := frames[i];
      ReadsSoFar(frames, i);
      NotYet(frames[..i], bindings, required, a, consecutiveReady);
      a := GateStep(frames[..i], frame, bindings, required, a, consecutiveReady);
      if frame.sequence != lastSequence {
        lastSequence := frame.sequence;
        var ready := FrameReadyForBindings(frame, bindings);
        if ready {
          consecutiveReady := consecutiveReady + 1;
          if consecutiveReady >= required {
            StretchKeeps(frames, bindings, required, i + 1, n);
            return true;
          }
        } else {
          consecutiveReady := 0;
        }
      }
      i := i + 1;
    }
    IterationsStep(clock, deadline, i);
    return false;
  }
}
