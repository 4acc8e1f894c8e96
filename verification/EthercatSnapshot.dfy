/** Reading and writing a domain's shared byte buffer, one byte range per motor. */
module EthercatSnapshot {
  import opened RmdTypes
  import opened EthercatPdo

  datatype Binding = Binding(
    globalIndex: nat, rxOffset: int, txOffset: int,
    rxProfile: RxProfile, txProfile: TxProfile, rxSize: nat, txSize: nat,
    domain: int, kind: string, parameters: MotorParameters)
  {
    function RxExtent(): nat {
      if rxSize == 0 then RxSize(rxProfile) else rxSize
    }

    function TxExtent(): nat {
      if txSize == 0 then TxSize(txProfile) else txSize
    }

    /** The sizes checked against the buffer cover the profile's layouts, which are what is copied. */
    predicate SizesSuffice() {
      RxExtent() >= RxSize(rxProfile) && TxExtent() >= TxSize(txProfile)
    }
  }

  predicate HasByteRange(offset: int, extent: nat, domainSize: nat) {
    offset >= 0 && offset <= domainSize && extent <= domainSize - offset
  }

  // ----- writing

  /** Bytes to be stored at an offset, if a range of `extent` bytes is in the buffer there. */
  datatype Slot = Slot(offset: int, bytes: seq<Byte>, extent: nat) {
    predicate Fits(size: nat) {
      |bytes| <= extent && HasByteRange(offset, extent, size)
    }

    predicate Covers(position: int, size: nat) {
      Fits(size) && offset <= position < offset + |bytes|
    }
  }

  function Put(image: seq<Byte>, slot: Slot): (r: seq<Byte>)
    ensures |r| == |image|
  {
    if slot.Fits(|image|)
    then image[..slot.offset] + slot.bytes + image[slot.offset + |slot.bytes|..]
    else image
  }

  function WriteAll(image: seq<Byte>, slots: seq<Slot>): (r: seq<Byte>)
    ensures |r| == |image|
  {
    if slots == [] then image else Put(WriteAll(image, slots[..|slots| - 1]), slots[|slots| - 1])
  }

  function StatusFor(b: Binding, actuals: MotorActualFrame): nat
    requires b.globalIndex < MAX_REALTIME_MOTORS
  {
    if b.globalIndex in actuals.valid then actuals.actuals[b.globalIndex].statusWord else STALE_STATUS
  }

  function TargetFor(b: Binding, targets: MotorTargetFrame): MotorTarget
    requires b.globalIndex < MAX_REALTIME_MOTORS
  {
    if b.globalIndex in targets.valid then targets.targets[b.globalIndex] else DEFAULT_TARGET
  }

  function PackedFor(b: Binding, targets: PackedTargetFrame): PackedTarget
    requires b.globalIndex < MAX_REALTIME_MOTORS
  {
    if b.globalIndex in targets.valid then targets.targets[b.globalIndex] else DEFAULT_PACKED
  }

  /** What the direct writer stores for a motor: packed on the spot, control word replaced. */
  function DirectSlot(b: Binding, targets: MotorTargetFrame, actuals: MotorActualFrame): Slot
    requires b.globalIndex < MAX_REALTIME_MOTORS
  {
    var target := TargetFor(b, targets);
    var rx := PackRx(target, b.parameters, b.rxProfile);
    Slot(b.rxOffset, RxBytes(rx.(controlWord := ControlWord(target.enabled, StatusFor(b, actuals)))), b.RxExtent())
  }

  /** What the prepacked writer stores: the stored bytes with the control word replaced. */
  function PackedSlot(b: Binding, targets: PackedTargetFrame, actuals: MotorActualFrame): Slot
    requires b.globalIndex < MAX_REALTIME_MOTORS
  {
    var target := PackedFor(b, targets);
    Slot(b.rxOffset, Le(ControlWord(target.enabled, StatusFor(b, actuals)), 2) + target.rxBytes[2..RxSize(b.rxProfile)],
         b.RxExtent())
  }

  function DirectSlots(bindings: seq<Binding>, targets: MotorTargetFrame, actuals: MotorActualFrame): seq<Slot> {
    if bindings == [] then []
    else
      var b := bindings[|bindings| - 1];
      DirectSlots(bindings[..|bindings| - 1], targets, actuals) +
      (if b.globalIndex < MAX_REALTIME_MOTORS then [DirectSlot(b, targets, actuals)] else [])
  }

  function PackedSlots(bindings: seq<Binding>, targets: PackedTargetFrame, actuals: MotorActualFrame): seq<Slot> {
    if bindings == [] then []
    else
      var b := bindings[|bindings| - 1];
      PackedSlots(bindings[..|bindings| - 1], targets, actuals) +
      (if b.globalIndex < MAX_REALTIME_MOTORS then [PackedSlot(b, targets, actuals)] else [])
  }

  lemma WriteAppend(image: seq<Byte>, slots: seq<Slot>, slot: Slot)
    ensures WriteAll(image, slots + [slot]) == Put(WriteAll(image, slots), slot)
  {
    assert (slots + [slot])[..|slots|] == slots;
  }

  lemma DirectStep(bindings: seq<Binding>, targets: MotorTargetFrame, actuals: MotorActualFrame, i: nat)
    requires i < |bindings|
    ensures DirectSlots(bindings[..i + 1], targets, actuals)
            == if bindings[i].globalIndex < MAX_REALTIME_MOTORS
               then DirectSlots(bindings[..i], targets, actuals) + [DirectSlot(bindings[i], targets, actuals)]
               else DirectSlots(bindings[..i], targets, actuals)
  {
    assert bindings[..i + 1][..i] == bindings[..i];
  }

  lemma PackedStep(bindings: seq<Binding>, targets: PackedTargetFrame, actuals: MotorActualFrame, i: nat)
    requires i < |bindings|
    ensures PackedSlots(bindings[..i + 1], targets, actuals)
            == if bindings[i].globalIndex < MAX_REALTIME_MOTORS
               then PackedSlots(bindings[..i], targets, actuals) + [PackedSlot(bindings[i], targets, actuals)]
               else PackedSlots(bindings[..i], targets, actuals)
  {
    assert bindings[..i + 1][..i] == bindings[..i];
  }

  /** memcpy into the buffer. */
  method CopyInto(domain: array<Byte>, slot: Slot)
    requires slot.Fits(domain.Length)
    modifies domain
    ensures domain[..] == Put(old(domain[..]), slot)
  {
    forall k | 0 <= k < |slot.bytes| {
      domain[slot.offset + k] := slot.bytes[k];
    }
  }

  /** One motor of the direct writer. */
  method PackDirect(b: Binding, targets: MotorTargetFrame, actuals: MotorActualFrame) returns (slot: Slot)
    requires b.globalIndex < MAX_REALTIME_MOTORS
    ensures slot == DirectSlot(b, targets, actuals)
  {
    var target := DEFAULT_TARGET;
    if b.globalIndex in targets.valid {
      target := targets.targets[b.globalIndex];
    }
    var statusWord := STALE_STATUS;
    if b.globalIndex in actuals.valid {
      statusWord := actuals.actuals[b.globalIndex].statusWord;
    }
    var rx := PackRx(target, b.parameters, b.rxProfile);
    rx := rx.(controlWord := ControlWord(target.enabled, statusWord));
    slot := Slot(b.rxOffset, RxBytes(rx), b.RxExtent());
  }

  method WriteDirect(domain: array?<Byte>, bindings: seq<Binding>, targets: MotorTargetFrame, actuals: MotorActualFrame)
    requires forall b :: b in bindings ==> b.SizesSuffice()
    modifies domain
    ensures domain != null ==> domain[..] == WriteAll(old(domain[..]), DirectSlots(bindings, targets, actuals))
  {
    for i := 0 to |bindings|
      invariant domain != null ==> domain[..] == WriteAll(old(domain[..]), DirectSlots(bindings[..i], targets, actuals))
    {
      var b := bindings[i];
      assert b in bindings;
      DirectStep(bindings, targets, actuals, i);
      if b.globalIndex >= MAX_REALTIME_MOTORS {
        continue;
      }
      ghost var before := DirectSlots(bindings[..i], targets, actuals);
      WriteAppend(old(if domain == null then [] else domain[..]), before, DirectSlot(b, targets, actuals));
      assert |DirectSlot(b, targets, actuals).bytes| <= b.RxExtent();
      if domain == null || !HasByteRange(b.rxOffset, b.RxExtent(), domain.Length) {
        continue;
      }
      var slot := PackDirect(b, targets, actuals);
      CopyInto(domain, slot);
    }
    assert bindings[..|bindings|] == bindings;
  }

  /** One motor of the prepacked writer. */
  method TakePacked(b: Binding, targets: PackedTargetFrame, actuals: MotorActualFrame) returns (slot: Slot)
    requires b.globalIndex < MAX_REALTIME_MOTORS
    ensures slot == PackedSlot(b, targets, actuals)
  {
    var target := DEFAULT_PACKED;
    if b.globalIndex in targets.valid {
      target := targets.targets[b.globalIndex];
    }
    var statusWord := STALE_STATUS;
    if b.globalIndex in actuals.valid {
      statusWord := actuals.actuals[b.globalIndex].statusWord;
    }
    var rx := target.rxBytes[..RxSize(b.rxProfile)];
    rx := Le(ControlWord(target.enabled, statusWord), 2) + rx[2..];
    slot := Slot(b.rxOffset, rx, b.RxExtent());
  }

  method WritePrepacked(domain: array?<Byte>, bindings: seq<Binding>, targets: PackedTargetFrame, actuals: MotorActualFrame)
    requires forall b :: b in bindings ==> b.SizesSuffice()
    modifies domain
    ensures domain != null ==> domain[..] == WriteAll(old(domain[..]), PackedSlots(bindings, targets, actuals))
  {
    for i := 0 to |bindings|
      invariant domain != null ==> domain[..] == WriteAll(old(domain[..]), PackedSlots(bindings[..i], targets, actuals))
    {
      var b := bindings[i];
      assert b in bindings;
      PackedStep(bindings, targets, actuals, i);
      if b.globalIndex >= MAX_REALTIME_MOTORS {
        continue;
      }
      ghost var before := PackedSlots(bindings[..i], targets, actuals);
      WriteAppend(old(if domain == null then [] else domain[..]), before, PackedSlot(b, targets, actuals));
      assert |PackedSlot(b, targets, actuals).bytes| <= b.RxExtent();
      if domain == null || !HasByteRange(b.rxOffset, b.RxExtent(), domain.Length) {
        continue;
      }
      var slot := TakePacked(b, targets, actuals);
      CopyInto(domain, slot);
    }
    assert bindings[..|bindings|] == bindings;
  }

  // ----- the two writers agree

  lemma ControlWordComesFirst(rx: RxData, word: int)
    ensures RxBytes(rx.(controlWord := word)) == Le(word, 2) + RxBytes(rx)[2..]
  {
    hide Le;
  }

  /** The packed frame holds, for every bound motor, its target packed with the binding's profile. */
  ghost predicate PackedFrom(bindings: seq<Binding>, targets: MotorTargetFrame, packed: PackedTargetFrame) {
    forall b :: b in bindings && b.globalIndex < MAX_REALTIME_MOTORS ==>
      b.globalIndex in targets.valid && b.globalIndex in packed.valid &&
      packed.targets[b.globalIndex] == PackTargetForRealtime(targets.targets[b.globalIndex], b.parameters, b.rxProfile)
  }

  lemma SlotsAgree(b: Binding, targets: MotorTargetFrame, packed: PackedTargetFrame, actuals: MotorActualFrame)
    requires b.globalIndex < MAX_REALTIME_MOTORS && PackedFrom([b], targets, packed)
    ensures DirectSlot(b, targets, actuals) == PackedSlot(b, packed, actuals)
  {
    assert b in [b];
    var target := targets.targets[b.globalIndex];
    var rx := PackRx(target, b.parameters, b.rxProfile);
    ControlWordComesFirst(rx, ControlWord(target.enabled, StatusFor(b, actuals)));
    assert packed.targets[b.globalIndex].rxBytes[2..RxSize(b.rxProfile)] == RxBytes(rx)[2..];
  }

  /** The fast path: copying bytes packed ahead of time stores, byte for byte, what packing in the
      realtime thread would have stored. */
  lemma {:induction false} PrepackedAgreesWithDirect(
      image: seq<Byte>, bindings: seq<Binding>,
      targets: MotorTargetFrame, packed: PackedTargetFrame, actuals: MotorActualFrame)
    requires PackedFrom(bindings, targets, packed)
    ensures DirectSlots(bindings, targets, actuals) == PackedSlots(bindings, packed, actuals)
    ensures WriteAll(image, DirectSlots(bindings, targets, actuals)) == WriteAll(image, PackedSlots(bindings, packed, actuals))
  {
    if bindings != [] {
      var n := |bindings| - 1;
      PrepackedAgreesWithDirect(image, bindings[..n], targets, packed, actuals);
      if bindings[n].globalIndex < MAX_REALTIME_MOTORS {
        SlotsAgree(bindings[n], targets, packed, actuals);
      }
    }
  }

  lemma ModeByte(rx: RxData, word: int)
    requires rx.mode == 8
    ensures var bytes := RxBytes(rx.(controlWord := word)); bytes[|bytes| - 2] == 8
  {
    hide Le;
    assert Le(rx.mode, 1)[0] == 8 by {
      OneByte(8);
    }
  }

  lemma OneByte(value: Byte)
    ensures Le(value, 1)[0] == value
  {
  }

  /** For a motor without a valid target the direct writer prepares a default target (mode 8, current
      limit 1000), the prepacked one zeros; both tell it to disable.  They differ in the mode byte, the
      last but one. */
  lemma InvalidTargetDiffers(b: Binding, targets: MotorTargetFrame, packed: PackedTargetFrame, actuals: MotorActualFrame)
    requires b.globalIndex < MAX_REALTIME_MOTORS
    requires b.globalIndex !in targets.valid && b.globalIndex !in packed.valid
    ensures var s, t, x := DirectSlot(b, targets, actuals), PackedSlot(b, packed, actuals), RxSize(b.rxProfile) - 2;
            && |s.bytes| == |t.bytes| == x + 2 && s.bytes[x] != t.bytes[x]
            && s.bytes == RxBytes(PackRx(MotorTarget(0.0, 0.0, 0.0, 0.0, 0.0, 8, 0, 1000), b.parameters, b.rxProfile).(controlWord := 6))
            && t.bytes == Le(6, 2) + seq(x, _ => 0)
  {
    hide PackRx, RxBytes, Le;
    var rx := PackRx(DEFAULT_TARGET, b.parameters, b.rxProfile);
    DefaultMode(b.parameters, b.rxProfile);
    ModeByte(rx, DISABLE);
    var n := RxSize(b.rxProfile);
    assert DirectSlot(b, targets, actuals).bytes == RxBytes(rx.(controlWord := DISABLE));
    ZeroSlot(b, packed, actuals);
    assert (Le(6, 2) + seq(n - 2, _ => 0))[n - 2] == 0;
  }

  lemma DefaultMode(p: MotorParameters, profile: RxProfile)
    ensures PackRx(DEFAULT_TARGET, p, profile).mode == 8
  {
  }

  lemma ZeroSlot(b: Binding, packed: PackedTargetFrame, actuals: MotorActualFrame)
    requires b.globalIndex < MAX_REALTIME_MOTORS && b.globalIndex !in packed.valid
    ensures PackedSlot(b, packed, actuals).bytes == Le(6, 2) + seq(RxSize(b.rxProfile) - 2, _ => 0)
  {
    hide Le;
  }

  // ----- framing

  /** No byte belongs to two slots. */
  ghost predicate Disjoint(slots: seq<Slot>, size: nat) {
    forall i, j, x: int :: 0 <= i < j < |slots| ==> !(slots[i].Covers(x, size) && slots[j].Covers(x, size))
  }

  lemma PutAt(image: seq<Byte>, slot: Slot, x: nat)
    requires x < |image|
    ensures Put(image, slot)[x] == if slot.Covers(x, |image|) then slot.bytes[x - slot.offset] else image[x]
  {
  }

  /** Bytes outside every slot are left alone. */
  lemma {:induction false} OutsideUntouched(image: seq<Byte>, slots: seq<Slot>, x: nat)
    requires x < |image|
    requires forall i :: 0 <= i < |slots| ==> !slots[i].Covers(x, |image|)
    ensures WriteAll(image, slots)[x] == image[x]
  {
    if slots != [] {
      var n := |slots| - 1;
      OutsideUntouched(image, slots[..n], x);
      PutAt(WriteAll(image, slots[..n]), slots[n], x);
    }
  }

  /** Bytes inside a slot hold that slot's bytes, wherever it stands in the order. */
  lemma {:induction false} InsideWritten(image: seq<Byte>, slots: seq<Slot>, k: nat, x: nat)
    requires x < |image| && k < |slots| && slots[k].Covers(x, |image|) && Disjoint(slots, |image|)
    ensures WriteAll(image, slots)[x] == slots[k].bytes[x - slots[k].offset]
  {
    var n := |slots| - 1;
    PutAt(WriteAll(image, slots[..n]), slots[n], x);
    if k < n {
      assert !slots[n].Covers(x, |image|);
      assert Disjoint(slots[..n], |image|);
      InsideWritten(image, slots[..n], k, x);
    }
  }

  ghost predicate SameSlots(slots: seq<Slot>, others: seq<Slot>) {
    forall s :: s in slots <==> s in others
  }

  /** With disjoint ranges only the slots matter, not their order. */
  lemma OrderIrrelevant(image: seq<Byte>, slots: seq<Slot>, shuffled: seq<Slot>)
    requires SameSlots(slots, shuffled)
    requires Disjoint(slots, |image|) && Disjoint(shuffled, |image|)
    ensures WriteAll(image, slots) == WriteAll(image, shuffled)
  {
    hide WriteAll;
    forall x: nat | x < |image| ensures WriteAll(image, slots)[x] == WriteAll(image, shuffled)[x] {
      if k: nat :| k < |slots| && slots[k].Covers(x, |image|) {
        assert slots[k] in slots;
        var j: nat :| j < |shuffled| && shuffled[j] == slots[k];
        InsideWritten(image, slots, k, x);
        InsideWritten(image, shuffled, j, x);
      } else {
        forall j | 0 <= j < |shuffled| ensures !shuffled[j].Covers(x, |image|) {
          assert shuffled[j] in slots;
        }
        OutsideUntouched(image, slots, x);
        OutsideUntouched(image, shuffled, x);
      }
    }
  }

  lemma {:induction false} SlotPositions(bindings: seq<Binding>, packed: PackedTargetFrame, other: PackedTargetFrame,
                                         actuals: MotorActualFrame, now: int, timeout: int, k: nat)
    requires Watched(packed, now, timeout, other)
    requires |PackedSlots(bindings, packed, actuals)| == |PackedSlots(bindings, other, actuals)|
    requires k < |PackedSlots(bindings, packed, actuals)|
    ensures var s, t := PackedSlots(bindings, packed, actuals)[k], PackedSlots(bindings, other, actuals)[k];
            SameBeyondWord(s, t)
  {
    var n := |bindings| - 1;
    SlotCounts(bindings[..n], packed, other, actuals);
    if k < |PackedSlots(bindings[..n], packed, actuals)| {
      SlotPositions(bindings[..n], packed, other, actuals, now, timeout, k);
    }
  }

  lemma {:induction false} SlotCounts(bindings: seq<Binding>, packed: PackedTargetFrame, other: PackedTargetFrame,
                                      actuals: MotorActualFrame)
    ensures |PackedSlots(bindings, packed, actuals)| == |PackedSlots(bindings, other, actuals)|
  {
    if bindings != [] {
      SlotCounts(bindings[..|bindings| - 1], packed, other, actuals);
    }
  }

  /** The watchdog changes nothing in the stored image beyond the two control-word bytes of each
      slot, and nothing at all while the command is young. */
  lemma WatchdogTouchesControlWords(image: seq<Byte>, bindings: seq<Binding>, packed: PackedTargetFrame,
                                    after: PackedTargetFrame, actuals: MotorActualFrame, now: int, timeout: int, x: nat)
    requires Watched(packed, now, timeout, after) && x < |image|
    requires Disjoint(PackedSlots(bindings, packed, actuals), |image|)
    requires Expired(packed, now, timeout) ==> OutsideWords(PackedSlots(bindings, packed, actuals), |image|, x)
    ensures WriteAll(image, PackedSlots(bindings, packed, actuals))[x]
            == WriteAll(image, PackedSlots(bindings, after, actuals))[x]
  {
    if Expired(packed, now, timeout) {
      var s, t := PackedSlots(bindings, packed, actuals), PackedSlots(bindings, after, actuals);
      SlotCounts(bindings, packed, after, actuals);
      forall k | 0 <= k < |s| ensures SameBeyondWord(s[k], t[k]) {
        SlotPositions(bindings, packed, after, actuals, now, timeout, k);
      }
      SameBeyondWordsAgree(image, s, t, x);
    }
  }

  /** Position x is not one of the first two bytes of a slot. */
  ghost predicate OutsideWords(slots: seq<Slot>, size: nat, x: int) {
    forall k :: 0 <= k < |slots| && slots[k].Covers(x, size) ==> x >= slots[k].offset + 2
  }

  ghost predicate SameBeyondWord(s: Slot, t: Slot) {
    s.offset == t.offset && s.extent == t.extent && |s.bytes| == |t.bytes| >= 2 && s.bytes[2..] == t.bytes[2..]
  }

  lemma SameBeyondWordsAgree(image: seq<Byte>, s: seq<Slot>, t: seq<Slot>, x: nat)
    requires |s| == |t| && x < |image| && forall k :: 0 <= k < |s| ==> SameBeyondWord(s[k], t[k])
    requires Disjoint(s, |image|)
    requires OutsideWords(s, |image|, x)
    ensures WriteAll(image, s)[x] == WriteAll(image, t)[x]
  {
    hide WriteAll;
    forall k, y: int | 0 <= k < |s| ensures s[k].Covers(y, |image|) == t[k].Covers(y, |image|) {
      assert SameBeyondWord(s[k], t[k]);
    }
    if k: nat :| k < |s| && s[k].Covers(x, |image|) {
      InsideWritten(image, s, k, x);
      InsideWritten(image, t, k, x);
      assert SameBeyondWord(s[k], t[k]);
      var i := x - s[k].offset;
      assert s[k].bytes[2..][i - 2] == s[k].bytes[i] && t[k].bytes[2..][i - 2] == t[k].bytes[i];
    } else {
      OutsideUntouched(image, s, x);
      OutsideUntouched(image, t, x);
    }
  }

  // ----- reading

  /** One motor: parsed and fresh when its range is in the buffer, stale and invalid otherwise. */
  function ReadOne(image: seq<Byte>, present: bool, b: Binding, frame: MotorActualFrame): MotorActualFrame
    requires b.SizesSuffice()
  {
    var i := b.globalIndex;
    if i >= MAX_REALTIME_MOTORS then frame
    else if !present || !HasByteRange(b.txOffset, b.TxExtent(), |image|) then
      frame.(actuals := frame.actuals[i := MarkActualStale(frame.actuals[i])],
             valid := frame.valid - {i}, stale := frame.stale + {i})
    else
      var bytes := image[b.txOffset..b.txOffset + TxSize(b.txProfile)];
      frame.(actuals := frame.actuals[i := ParseTx(bytes, b.parameters, b.txProfile)],
             valid := frame.valid + {i}, stale := frame.stale - {i})
  }

  function ReadAll(image: seq<Byte>, present: bool, bindings: seq<Binding>, frame: MotorActualFrame): MotorActualFrame
    requires forall b :: b in bindings ==> b.SizesSuffice()
  {
    if bindings == [] then frame
    else ReadOne(image, present, bindings[|bindings| - 1], ReadAll(image, present, bindings[..|bindings| - 1], frame))
  }

  method ReadDomain(domain: array?<Byte>, bindings: seq<Binding>, frame: MotorActualFrame) returns (actuals: MotorActualFrame)
    requires forall b :: b in bindings ==> b.SizesSuffice()
    ensures actuals == ReadAll(if domain == null then [] else domain[..], domain != null, bindings, frame)
  {
    ghost var image := if domain == null then [] else domain[..];
    actuals := frame;
    for k := 0 to |bindings|
      invariant actuals == ReadAll(image, domain != null, bindings[..k], frame)
    {
      var b := bindings[k];
      var i := b.globalIndex;
      assert b in bindings && bindings[..k + 1][..k] == bindings[..k];
      if i >= MAX_REALTIME_MOTORS {
        continue;
      }
      if domain == null || !HasByteRange(b.txOffset, b.TxExtent(), domain.Length) {
        actuals := actuals.(actuals := actuals.actuals[i := MarkActualStale(actuals.actuals[i])]);
        actuals := actuals.(valid := actuals.valid - {i});
        actuals := actuals.(stale := actuals.stale + {i});
        continue;
      }
      var bytes := domain[b.txOffset..b.txOffset + TxSize(b.txProfile)];
      var actual := ParseTx(bytes, b.parameters, b.txProfile);
      actuals := actuals.(actuals := actuals.actuals[i := actual]);
      actuals := actuals.(valid := actuals.valid + {i});
      actuals := actuals.(stale := actuals.stale - {i});
    }
    assert bindings[..|bindings|] == bindings;
  }

  /** Each motor is bound once. */
  ghost predicate DistinctMotors(bindings: seq<Binding>) {
    forall i, j :: 0 <= i < j < |bindings| ==> bindings[i].globalIndex != bindings[j].globalIndex
  }

  lemma ReadOneKeepsOthers(image: seq<Byte>, present: bool, b: Binding, frame: MotorActualFrame, i: nat)
    requires b.SizesSuffice() && i < MAX_REALTIME_MOTORS && b.globalIndex != i
    ensures var r := ReadOne(image, present, b, frame);
            r.actuals[i] == frame.actuals[i] && (i in r.valid <==> i in frame.valid) && (i in r.stale <==> i in frame.stale)
  {
  }

  /** A motor that is not bound here keeps its record. */
  lemma {:induction false} ReadKeepsOthers(image: seq<Byte>, present: bool, bindings: seq<Binding>, frame: MotorActualFrame, i: nat)
    requires forall b :: b in bindings ==> b.SizesSuffice()
    requires i < MAX_REALTIME_MOTORS && forall b :: b in bindings ==> b.globalIndex != i
    ensures var r := ReadAll(image, present, bindings, frame);
            r.actuals[i] == frame.actuals[i] && (i in r.valid <==> i in frame.valid) && (i in r.stale <==> i in frame.stale)
  {
    if bindings != [] {
      ReadKeepsOthers(image, present, bindings[..|bindings| - 1], frame, i);
    }
  }

  /** The record of a bound motor is decided by its own byte range and nothing else: fresh with the
      status word found there, or marked stale; valid and stale are each other's opposite. */
  lemma {:induction false} ReadDecides(image: seq<Byte>, present: bool, bindings: seq<Binding>, frame: MotorActualFrame, k: nat)
    requires forall b :: b in bindings ==> b.SizesSuffice()
    requires DistinctMotors(bindings) && k < |bindings| && bindings[k].globalIndex < MAX_REALTIME_MOTORS
    ensures var b := bindings[k];
            var r := ReadAll(image, present, bindings, frame);
            var layout := if b.txProfile == TxStandard then 16 else 22;
            var extent := if b.txSize == 0 then layout else b.txSize;
            var inRange := present && layout <= extent && 0 <= b.txOffset && b.txOffset + extent <= |image|;
            && (b.globalIndex in r.valid <==> inRange) && (b.globalIndex in r.stale <==> !inRange)
            && (if inRange then
                  r.actuals[b.globalIndex] == ParseTx(image[b.txOffset..b.txOffset + TxSize(b.txProfile)], b.parameters, b.txProfile)
                else
                  r.actuals[b.globalIndex].statusWord == 0xffff && r.actuals[b.globalIndex].errorCode == 1)
  {
    var n := |bindings| - 1;
    if k < n {
      ReadDecides(image, present, bindings[..n], frame, k);
      ReadOneKeepsOthers(image, present, bindings[n], ReadAll(image, present, bindings[..n], frame), bindings[k].globalIndex);
    } else {
      assert bindings[n] in bindings;
    }
  }
}
