/** What the drives can be told in any run of realtime cycles. */
module EthercatSafety {
  import SnapshotProtocol
  import opened RmdTypes
  import opened EthercatPdo
  import opened EthercatSnapshot
  import opened EthercatCycle

  // ----- where a motor's control word lands

  /** The binding's bytes, declared or by default those of its layout, lie inside the image. */
  ghost predicate RxFits(b: Binding, size: nat) {
    var layout := if b.rxProfile == RxStandard then 16 else 22;
    var extent := if b.rxSize == 0 then layout else b.rxSize;
    layout <= extent && 0 <= b.rxOffset && b.rxOffset + extent <= size
  }

  ghost predicate RxCovers(b: Binding, size: nat, x: int) {
    RxFits(b, size) && b.rxOffset <= x < b.rxOffset + RxSize(b.rxProfile)
  }

  /** The byte ranges that PDO registration hands out do not overlap. */
  ghost predicate DisjointRx(bindings: seq<Binding>, size: nat) {
    forall i, j, x: int :: 0 <= i < j < |bindings| ==> !(RxCovers(bindings[i], size, x) && RxCovers(bindings[j], size, x))
  }

  lemma {:induction false} SlotOfBinding(bindings: seq<Binding>, targets: PackedTargetFrame, actuals: MotorActualFrame, k: nat)
    returns (j: nat)
    requires k < |bindings| && bindings[k].globalIndex < MAX_REALTIME_MOTORS
    ensures j < |PackedSlots(bindings, targets, actuals)|
    ensures PackedSlots(bindings, targets, actuals)[j] == PackedSlot(bindings[k], targets, actuals)
    decreases |bindings|
  {
    var n := |bindings| - 1;
    if k < n {
      j := SlotOfBinding(bindings[..n], targets, actuals, k);
    } else {
      j := |PackedSlots(bindings[..n], targets, actuals)|;
    }
  }

  lemma {:induction false} BindingOfSlot(bindings: seq<Binding>, targets: PackedTargetFrame, actuals: MotorActualFrame, j: nat)
    returns (k: nat)
    requires j < |PackedSlots(bindings, targets, actuals)|
    ensures k < |bindings| && bindings[k].globalIndex < MAX_REALTIME_MOTORS
    ensures PackedSlots(bindings, targets, actuals)[j] == PackedSlot(bindings[k], targets, actuals)
    decreases |bindings|
  {
    var n := |bindings| - 1;
    if j < |PackedSlots(bindings[..n], targets, actuals)| {
      k := BindingOfSlot(bindings[..n], targets, actuals, j);
    } else {
      k := n;
    }
  }

  lemma {:induction false} SlotsDisjoint(bindings: seq<Binding>, targets: PackedTargetFrame, actuals: MotorActualFrame, size: nat)
    requires DisjointRx(bindings, size)
    ensures Disjoint(PackedSlots(bindings, targets, actuals), size)
    decreases |bindings|
  {
    if bindings != [] {
      var n := |bindings| - 1;
      var front := PackedSlots(bindings[..n], targets, actuals);
      SlotsDisjoint(bindings[..n], targets, actuals, size);
      if bindings[n].globalIndex < MAX_REALTIME_MOTORS {
        var last := PackedSlot(bindings[n], targets, actuals);
        forall i, x: int | 0 <= i < |front| ensures !(front[i].Covers(x, size) && last.Covers(x, size)) {
          var k := BindingOfSlot(bindings[..n], targets, actuals, i);
          SlotCoversRange(bindings[k], targets, actuals, size, x);
          SlotCoversRange(bindings[n], targets, actuals, size, x);
          hide PackedSlots, PackedSlot, RxFits;
          assert !(RxCovers(bindings[k], size, x) && RxCovers(bindings[n], size, x));
        }
      }
    }
  }

  lemma SlotCoversRange(b: Binding, targets: PackedTargetFrame, actuals: MotorActualFrame, size: nat, x: int)
    requires b.globalIndex < MAX_REALTIME_MOTORS
    ensures PackedSlot(b, targets, actuals).Covers(x, size) <==> RxCovers(b, size, x)
  {
  }

  lemma SlotsOfShuffled(bindings: seq<Binding>, shuffled: seq<Binding>, targets: PackedTargetFrame, actuals: MotorActualFrame)
    requires forall b :: b in bindings ==> b in shuffled
    ensures forall s :: s in PackedSlots(bindings, targets, actuals) ==> s in PackedSlots(shuffled, targets, actuals)
  {
    hide PackedSlots, PackedSlot;
    forall s | s in PackedSlots(bindings, targets, actuals) ensures s in PackedSlots(shuffled, targets, actuals) {
      var i :| 0 <= i < |PackedSlots(bindings, targets, actuals)| && PackedSlots(bindings, targets, actuals)[i] == s;
      var k := BindingOfSlot(bindings, targets, actuals, i);
      assert bindings[k] in bindings;
      var l :| 0 <= l < |shuffled| && shuffled[l] == bindings[k];
      var j := SlotOfBinding(shuffled, targets, actuals, l);
    }
  }

  /** With disjoint ranges the order of the bindings does not matter. */
  lemma BindingOrderIrrelevant(image: seq<Byte>, bindings: seq<Binding>, shuffled: seq<Binding>,
                               targets: PackedTargetFrame, actuals: MotorActualFrame)
    requires multiset(bindings) == multiset(shuffled)
    requires DisjointRx(bindings, |image|) && DisjointRx(shuffled, |image|)
    ensures WriteAll(image, PackedSlots(bindings, targets, actuals)) == WriteAll(image, PackedSlots(shuffled, targets, actuals))
  {
    hide PackedSlots, WriteAll, DisjointRx;
    forall b | b in bindings ensures b in shuffled {
      assert b in multiset(bindings);
    }
    forall b | b in shuffled ensures b in bindings {
      assert b in multiset(shuffled);
    }
    SlotsOfShuffled(bindings, shuffled, targets, actuals);
    SlotsOfShuffled(shuffled, bindings, targets, actuals);
    SlotsDisjoint(bindings, targets, actuals, |image|);
    SlotsDisjoint(shuffled, targets, actuals, |image|);
    OrderIrrelevant(image, PackedSlots(bindings, targets, actuals), PackedSlots(shuffled, targets, actuals));
  }

  // ----- exactly when the two writers agree

  /** The packed frame commands the motors that the plain one commands, packed with the binding's profile. */
  ghost predicate PackedAlike(bindings: seq<Binding>, targets: MotorTargetFrame, packed: PackedTargetFrame) {
    forall b :: b in bindings && b.globalIndex < MAX_REALTIME_MOTORS ==>
      && (b.globalIndex in targets.valid <==> b.globalIndex in packed.valid)
      && (b.globalIndex in targets.valid ==>
            packed.targets[b.globalIndex] == PackTargetForRealtime(targets.targets[b.globalIndex], b.parameters, b.rxProfile))
  }

  /** Every motor that has a place in the image is commanded. */
  ghost predicate AllCommanded(bindings: seq<Binding>, targets: MotorTargetFrame, size: nat) {
    forall b :: b in bindings && b.globalIndex < MAX_REALTIME_MOTORS && RxFits(b, size) ==> b.globalIndex in targets.valid
  }

  lemma SlotShapes(b: Binding, targets: MotorTargetFrame, packed: PackedTargetFrame, actuals: MotorActualFrame)
    requires b.globalIndex < MAX_REALTIME_MOTORS
    ensures var s, t := DirectSlot(b, targets, actuals), PackedSlot(b, packed, actuals);
            && s.offset == t.offset == b.rxOffset && s.extent == t.extent == b.RxExtent()
            && |s.bytes| == |t.bytes| == RxSize(b.rxProfile)
  {
  }

  lemma CommandedSlotsAgree(b: Binding, targets: MotorTargetFrame, packed: PackedTargetFrame, actuals: MotorActualFrame)
    requires b.globalIndex < MAX_REALTIME_MOTORS && PackedAlike([b], targets, packed) && b.globalIndex in targets.valid
    ensures DirectSlot(b, targets, actuals) == PackedSlot(b, packed, actuals)
  {
    hide DirectSlot, PackedSlot, PackTargetForRealtime;
    assert b in [b];
    SlotsAgree(b, targets, packed, actuals);
  }

  lemma PutUnfit(image: seq<Byte>, s: Slot, t: Slot)
    requires !s.Fits(|image|) && !t.Fits(|image|)
    ensures Put(image, s) == Put(image, t)
  {
  }

  lemma {:induction false} AllCommandedAgrees(image: seq<Byte>, bindings: seq<Binding>, targets: MotorTargetFrame,
                                              packed: PackedTargetFrame, actuals: MotorActualFrame)
    requires PackedAlike(bindings, targets, packed) && AllCommanded(bindings, targets, |image|)
    ensures WriteAll(image, DirectSlots(bindings, targets, actuals)) == WriteAll(image, PackedSlots(bindings, packed, actuals))
  {
    if bindings != [] {
      var n, b := |bindings| - 1, bindings[|bindings| - 1];
      var front := bindings[..n];
      assert b in bindings && forall c :: c in front ==> c in bindings;
      assert bindings == front + [b];
      AllCommandedAgrees(image, front, targets, packed, actuals);
      hide DirectSlots, PackedSlots, WriteAll;
      LastSlots(front, b, targets, packed, actuals);
      if b.globalIndex < MAX_REALTIME_MOTORS {
        LastAgrees(image, front, b, targets, packed, actuals);
      }
    }
  }

  lemma LastSlots(front: seq<Binding>, b: Binding, targets: MotorTargetFrame, packed: PackedTargetFrame, actuals: MotorActualFrame)
    ensures if b.globalIndex < MAX_REALTIME_MOTORS then
              && DirectSlots(front + [b], targets, actuals) == DirectSlots(front, targets, actuals) + [DirectSlot(b, targets, actuals)]
              && PackedSlots(front + [b], packed, actuals) == PackedSlots(front, packed, actuals) + [PackedSlot(b, packed, actuals)]
            else
              && DirectSlots(front + [b], targets, actuals) == DirectSlots(front, targets, actuals)
              && PackedSlots(front + [b], packed, actuals) == PackedSlots(front, packed, actuals)
  {
    hide DirectSlot, PackedSlot;
    assert (front + [b])[..|front|] == front;
  }

  lemma LastAgrees(image: seq<Byte>, front: seq<Binding>, b: Binding, targets: MotorTargetFrame, packed: PackedTargetFrame,
                   actuals: MotorActualFrame)
    requires b.globalIndex < MAX_REALTIME_MOTORS && PackedAlike(front + [b], targets, packed)
    requires RxFits(b, |image|) ==> b.globalIndex in targets.valid
    requires WriteAll(image, DirectSlots(front, targets, actuals)) == WriteAll(image, PackedSlots(front, packed, actuals))
    ensures WriteAll(image, DirectSlots(front, targets, actuals) + [DirectSlot(b, targets, actuals)])
            == WriteAll(image, PackedSlots(front, packed, actuals) + [PackedSlot(b, packed, actuals)])
  {
    hide DirectSlot, PackedSlot, DirectSlots, PackedSlots, PackTargetForRealtime, Put, WriteAll;
    var s, t := DirectSlot(b, targets, actuals), PackedSlot(b, packed, actuals);
    WriteAppend(image, DirectSlots(front, targets, actuals), s);
    WriteAppend(image, PackedSlots(front, packed, actuals), t);
    SlotShapes(b, targets, packed, actuals);
    if RxFits(b, |image|) {
      assert b in front + [b];
      CommandedSlotsAgree(b, targets, packed, actuals);
    } else {
      PutUnfit(WriteAll(image, PackedSlots(front, packed, actuals)), s, t);
    }
  }

  /** Both writers prepare the same places, in the same order. */
  ghost predicate SameShapes(s: seq<Slot>, t: seq<Slot>) {
    |s| == |t| && forall j :: 0 <= j < |s| ==>
      s[j].offset == t[j].offset && s[j].extent == t[j].extent && |s[j].bytes| == |t[j].bytes|
  }

  lemma {:induction false} WritersShareShapes(bindings: seq<Binding>, targets: MotorTargetFrame, packed: PackedTargetFrame,
                                              actuals: MotorActualFrame)
    ensures SameShapes(DirectSlots(bindings, targets, actuals), PackedSlots(bindings, packed, actuals))
  {
    hide DirectSlot, PackedSlot;
    if bindings != [] {
      var n := |bindings| - 1;
      WritersShareShapes(bindings[..n], targets, packed, actuals);
      if bindings[n].globalIndex < MAX_REALTIME_MOTORS {
        SlotShapes(bindings[n], targets, packed, actuals);
      }
    }
  }

  lemma {:induction false} SlotsOfBinding(bindings: seq<Binding>, targets: MotorTargetFrame, packed: PackedTargetFrame,
                                          actuals: MotorActualFrame, k: nat)
    returns (j: nat)
    requires k < |bindings| && bindings[k].globalIndex < MAX_REALTIME_MOTORS
    ensures j < |DirectSlots(bindings, targets, actuals)| == |PackedSlots(bindings, packed, actuals)|
    ensures DirectSlots(bindings, targets, actuals)[j] == DirectSlot(bindings[k], targets, actuals)
    ensures PackedSlots(bindings, packed, actuals)[j] == PackedSlot(bindings[k], packed, actuals)
    decreases |bindings|
  {
    hide DirectSlot, PackedSlot, SameShapes;
    var n := |bindings| - 1;
    SameCounts(bindings[..n], targets, packed, actuals);
    if k < n {
      j := SlotsOfBinding(bindings[..n], targets, packed, actuals, k);
    } else {
      j := |PackedSlots(bindings[..n], packed, actuals)|;
    }
  }

  lemma SameCounts(bindings: seq<Binding>, targets: MotorTargetFrame, packed: PackedTargetFrame, actuals: MotorActualFrame)
    ensures |DirectSlots(bindings, targets, actuals)| == |PackedSlots(bindings, packed, actuals)|
  {
    WritersShareShapes(bindings, targets, packed, actuals);
  }

  lemma SameShapesDisjoint(s: seq<Slot>, t: seq<Slot>, size: nat)
    requires SameShapes(s, t) && Disjoint(t, size)
    ensures Disjoint(s, size)
  {
    forall i, j, x: int | 0 <= i < j < |s| ensures !(s[i].Covers(x, size) && s[j].Covers(x, size)) {
      assert !(t[i].Covers(x, size) && t[j].Covers(x, size));
    }
  }

  /** Two images of disjoint slots that differ in a byte of one slot differ. */
  lemma ImagesDiffer(image: seq<Byte>, s: seq<Slot>, t: seq<Slot>, j: nat, x: nat)
    requires SameShapes(s, t) && Disjoint(s, |image|) && Disjoint(t, |image|)
    requires j < |s| && s[j].Fits(|image|) && x < |s[j].bytes| && s[j].bytes[x] != t[j].bytes[x]
    ensures WriteAll(image, s) != WriteAll(image, t)
  {
    hide WriteAll, Disjoint;
    InsideWritten(image, s, j, s[j].offset + x);
    InsideWritten(image, t, j, s[j].offset + x);
  }

  lemma UncommandedDiffers(image: seq<Byte>, bindings: seq<Binding>, targets: MotorTargetFrame, packed: PackedTargetFrame,
                           actuals: MotorActualFrame, k: nat)
    requires DisjointRx(bindings, |image|) && k < |bindings| && bindings[k].globalIndex < MAX_REALTIME_MOTORS
    requires RxFits(bindings[k], |image|)
    requires bindings[k].globalIndex !in targets.valid && bindings[k].globalIndex !in packed.valid
    ensures WriteAll(image, DirectSlots(bindings, targets, actuals)) != WriteAll(image, PackedSlots(bindings, packed, actuals))
  {
    hide WriteAll, DirectSlots, PackedSlots, DirectSlot, PackedSlot, DisjointRx, Disjoint, SameShapes;
    var s, t := DirectSlots(bindings, targets, actuals), PackedSlots(bindings, packed, actuals);
    var j := SlotsOfBinding(bindings, targets, packed, actuals, k);
    WritersShareShapes(bindings, targets, packed, actuals);
    SlotsDisjoint(bindings, packed, actuals, |image|);
    SameShapesDisjoint(s, t, |image|);
    InvalidTargetDiffers(bindings[k], targets, packed, actuals);
    SlotShapes(bindings[k], targets, packed, actuals);
    ImagesDiffer(image, s, t, j, RxSize(bindings[k].rxProfile) - 2);
  }

  /** With disjoint ranges the two writers leave the same image exactly when every motor that has a place
      in it is commanded. */
  lemma WritersAgreeIff(image: seq<Byte>, bindings: seq<Binding>, targets: MotorTargetFrame, packed: PackedTargetFrame,
                        actuals: MotorActualFrame)
    requires DisjointRx(bindings, |image|) && PackedAlike(bindings, targets, packed)
    ensures WriteAll(image, DirectSlots(bindings, targets, actuals)) == WriteAll(image, PackedSlots(bindings, packed, actuals))
            <==> AllCommanded(bindings, targets, |image|)
  {
    hide WriteAll, DirectSlots, PackedSlots, DisjointRx, PackTargetForRealtime;
    if AllCommanded(bindings, targets, |image|) {
      AllCommandedAgrees(image, bindings, targets, packed, actuals);
    } else {
      var b :| b in bindings && b.globalIndex < MAX_REALTIME_MOTORS && RxFits(b, |image|) && b.globalIndex !in targets.valid;
      var k :| 0 <= k < |bindings| && bindings[k] == b;
      UncommandedDiffers(image, bindings, targets, packed, actuals, k);
    }
  }

  /** The word found at a motor's place in a domain image. */
  function WordAt(image: seq<Byte>, offset: int): nat
    requires 0 <= offset && offset + 2 <= |image|
  {
    FromLe(image[offset..offset + 2])
  }

  lemma WordRoundTrip(word: nat)
    requires word < 0x1_0000
    ensures FromLe(Le(word, 2)) == word
  {
    LeRoundTrip(word, 2);
    assert Range(2) == 0x1_0000 by {
      assert Range(1) == 0x100;
    }
  }

  lemma ControlWordFits(enabled: int, status: nat)
    ensures ControlWord(enabled, status) < 0x1_0000
  {
  }

  lemma TwoBytesOfWord(image: seq<Byte>, offset: nat, word: nat)
    requires offset + 2 <= |image| && word < 0x1_0000
    requires image[offset] == Le(word, 2)[0] && image[offset + 1] == Le(word, 2)[1]
    ensures WordAt(image, offset) == word
  {
    assert image[offset..offset + 2] == Le(word, 2);
    WordRoundTrip(word);
  }

  lemma SlotStartsWithWord(b: Binding, targets: PackedTargetFrame, actuals: MotorActualFrame)
    requires b.globalIndex < MAX_REALTIME_MOTORS
    ensures var s, word := PackedSlot(b, targets, actuals), ControlWord(PackedFor(b, targets).enabled, StatusFor(b, actuals));
            && s.offset == b.rxOffset && s.extent == b.RxExtent() && |s.bytes| == RxSize(b.rxProfile)
            && s.bytes[0] == Le(word, 2)[0] && s.bytes[1] == Le(word, 2)[1]
  {
  }

  lemma WordInSlot(image: seq<Byte>, slots: seq<Slot>, j: nat, word: nat)
    requires j < |slots| && slots[j].Fits(|image|) && Disjoint(slots, |image|)
    requires |slots[j].bytes| >= 2 && word < 0x1_0000
    requires slots[j].bytes[0] == Le(word, 2)[0] && slots[j].bytes[1] == Le(word, 2)[1]
    ensures WordAt(WriteAll(image, slots), slots[j].offset) == word
  {
    var s := slots[j];
    InsideWritten(image, slots, j, s.offset);
    InsideWritten(image, slots, j, s.offset + 1);
    TwoBytesOfWord(WriteAll(image, slots), s.offset, word);
  }

  /** A motor's place in the image holds the bytes made for it. */
  lemma StoredBytes(image: seq<Byte>, bindings: seq<Binding>, targets: PackedTargetFrame, actuals: MotorActualFrame, k: nat)
    requires k < |bindings| && bindings[k].globalIndex < MAX_REALTIME_MOTORS
    requires RxFits(bindings[k], |image|) && DisjointRx(bindings, |image|)
    ensures var b := bindings[k];
            WriteAll(image, PackedSlots(bindings, targets, actuals))[b.rxOffset..b.rxOffset + RxSize(b.rxProfile)]
            == PackedSlot(b, targets, actuals).bytes
  {
    hide WriteAll, PackedSlots, PackedSlot, Disjoint, DisjointRx;
    var b := bindings[k];
    var j := SlotOfBinding(bindings, targets, actuals, k);
    SlotsDisjoint(bindings, targets, actuals, |image|);
    SlotStartsWithWord(b, targets, actuals);
    SlotInImage(image, PackedSlots(bindings, targets, actuals), j);
  }

  lemma SlotInImage(image: seq<Byte>, slots: seq<Slot>, j: nat)
    requires j < |slots| && slots[j].Fits(|image|) && Disjoint(slots, |image|)
    ensures var s := slots[j]; WriteAll(image, slots)[s.offset..s.offset + |s.bytes|] == s.bytes
  {
    hide WriteAll, Disjoint;
    var s := slots[j];
    forall x | s.offset <= x < s.offset + |s.bytes| ensures WriteAll(image, slots)[x] == s.bytes[x - s.offset] {
      InsideWritten(image, slots, j, x);
    }
  }

  /** The stored control word is exactly the one computed for the motor. */
  lemma StoredWord(image: seq<Byte>, bindings: seq<Binding>, targets: PackedTargetFrame, actuals: MotorActualFrame, k: nat)
    requires k < |bindings| && bindings[k].globalIndex < MAX_REALTIME_MOTORS
    requires RxFits(bindings[k], |image|) && DisjointRx(bindings, |image|)
    ensures WordAt(WriteAll(image, PackedSlots(bindings, targets, actuals)), bindings[k].rxOffset)
            == ControlWord(PackedFor(bindings[k], targets).enabled, StatusFor(bindings[k], actuals))
  {
    var b := bindings[k];
    var j := SlotOfBinding(bindings, targets, actuals, k);
    SlotsDisjoint(bindings, targets, actuals, |image|);
    SlotStartsWithWord(b, targets, actuals);
    var word := ControlWord(PackedFor(b, targets).enabled, StatusFor(b, actuals));
    ControlWordFits(PackedFor(b, targets).enabled, StatusFor(b, actuals));
    WordInSlot(image, PackedSlots(bindings, targets, actuals), j, word);
  }

  // ----- one motor in one cycle

  /** The motor's feedback arrived whole in this cycle. */
  ghost predicate Fed(b: Binding, incoming: Incoming) {
    var layout := if b.txProfile == TxStandard then 16 else 22;
    var extent := if b.txSize == 0 then layout else b.txSize;
    incoming.complete && layout <= extent && 0 <= b.txOffset && b.txOffset + extent <= |incoming.image|
  }

  function StatusIn(b: Binding, incoming: Incoming): nat
    requires Fed(b, incoming)
  {
    FromLe(incoming.image[b.txOffset..b.txOffset + 2])
  }

  lemma FirstBytes(image: seq<Byte>, offset: int, size: nat)
    requires 0 <= offset <= offset + size <= |image| && size >= 2
    ensures image[offset..offset + size][0..2] == image[offset..offset + 2]
  {
  }

  lemma ParsedStatus(bytes: seq<Byte>, b: Binding)
    requires |bytes| == TxSize(b.txProfile)
    ensures ParseTx(bytes, b.parameters, b.txProfile).statusWord == FromLe(bytes[0..2])
  {
  }

  lemma {:induction false} DomainDecides(layout: Layout, received: seq<Incoming>, frame: MotorActualFrame, d: nat, k: nat)
    requires LayoutOk(layout) && |received| == |layout| && d < |layout|
    requires k < |layout[d]| && layout[d][k].globalIndex < MAX_REALTIME_MOTORS
    ensures var b := layout[d][k];
            var r := ReadDomains(layout, received, frame);
            && StatusFor(b, r) == (if Fed(b, received[d]) then StatusIn(b, received[d]) else 0xffff)
            && (b.globalIndex in r.valid <==> Fed(b, received[d])) && (b.globalIndex in r.stale <==> !Fed(b, received[d]))
            && (Fed(b, received[d]) ==>
                  r.actuals[b.globalIndex]
                  == ParseTx(received[d].image[b.txOffset..b.txOffset + TxSize(b.txProfile)], b.parameters, b.txProfile))
    decreases |layout|
  {
    hide ReadAll, ReadOne, ParseTx;
    var n := |layout| - 1;
    PrefixOk(layout, n);
    BindingsOk(layout, d);
    BindingsOk(layout, n);
    var b := layout[d][k];
    var before := ReadDomains(layout[..n], received[..n], frame);
    var image := if received[n].complete then received[n].image else [];
    if d < n {
      DomainDecides(layout[..n], received[..n], frame, d, k);
      assert b in layout[d];
      ReadKeepsOthers(image, received[n].complete, layout[n], before, b.globalIndex);
    } else {
      ReadDecides(image, received[n].complete, layout[n], before, k);
      if Fed(b, received[n]) {
        FirstBytes(image, b.txOffset, TxSize(b.txProfile));
        ParsedStatus(image[b.txOffset..b.txOffset + TxSize(b.txProfile)], b);
      }
    }
  }

  /** What the user asked of the motor, as far as the command is still in force. */
  function EnabledInForce(b: Binding, input: CycleInput, timeout: int): int
    requires b.globalIndex < MAX_REALTIME_MOTORS
  {
    if Expired(input.command, input.now, timeout) then 0 else PackedFor(b, input.command).enabled
  }

  /** Motor k of domain d has its own place in the images of this cycle. */
  ghost predicate Placed(layout: Layout, input: CycleInput, d: nat, k: nat) {
    && d < |layout| == |input.received| && k < |layout[d]| && layout[d][k].globalIndex < MAX_REALTIME_MOTORS
    && RxFits(layout[d][k], |input.received[d].image|)
    && DisjointRx(layout[d], |input.received[d].image|)
  }

  /** The control word sent to a motor is decided by its own fresh status and the command in force. */
  lemma SentWord(layout: Layout, timeout: int, before: CycleState, input: CycleInput, after: CycleState, d: nat, k: nat)
    requires IsCycle(layout, timeout, before, input, after) && Placed(layout, input, d, k)
    ensures var b := layout[d][k];
            WordAt(after.images[d], b.rxOffset) ==
            ControlWord(EnabledInForce(b, input, timeout),
                        if Fed(b, input.received[d]) then StatusIn(b, input.received[d]) else 0xffff)
  {
    var b := layout[d][k];
    var start := before.actuals.(sequence := before.actuals.sequence + 1, timestamp := input.stamp);
    StoredWord(input.received[d].image, layout[d], after.targets, after.actuals, k);
    DomainDecides(layout, input.received, start, d, k);
    assert PackedFor(b, after.targets).enabled == EnabledInForce(b, input, timeout);
  }

  // ----- runs

  ghost predicate IsRun(layout: Layout, timeout: int, states: seq<CycleState>, inputs: seq<CycleInput>) {
    |states| == |inputs| + 1 &&
    forall i :: 0 <= i < |inputs| ==> IsCycle(layout, timeout, states[i], inputs[i], states[i + 1])
  }

  /** Frames without a timestamp are those nobody sent: no motor is commanded in them. */
  ghost predicate CommandsStamped(inputs: seq<CycleInput>) {
    forall i :: 0 <= i < |inputs| && inputs[i].command.timestamp == 0 ==> inputs[i].command.valid == {}
  }

  /** In every run: power is switched on or the operation enabled only in a cycle whose working
      counter was complete, after a fresh status that calls for it, on a command that enables the
      motor and, with a positive timeout, is younger than the timeout. */
  lemma EnabledOnlyWhenSafe(layout: Layout, timeout: int, states: seq<CycleState>, inputs: seq<CycleInput>,
                            i: nat, d: nat, k: nat)
    requires IsRun(layout, timeout, states, inputs) && CommandsStamped(inputs) && i < |inputs|
    requires Placed(layout, inputs[i], d, k)
    ensures var b, input := layout[d][k], inputs[i];
            var word := WordAt(states[i + 1].images[d], b.rxOffset);
            word == SWITCH_ON || word == ENABLE_OPERATION ==>
              && Fed(b, input.received[d])
              && b.globalIndex in input.command.valid && input.command.targets[b.globalIndex].enabled == 1
              && (timeout > 0 ==> input.now - input.command.timestamp < timeout)
              && (word == SWITCH_ON ==> StatusIn(b, input.received[d]) % 0x80 == 0x31)
              && (word == ENABLE_OPERATION ==> StatusIn(b, input.received[d]) % 0x80 in {0x33, 0x37})
  {
    SentWord(layout, timeout, states[i], inputs[i], states[i + 1], d, k);
  }

  /** Once a command has expired every motor is told to disable, in that cycle and in every later
      one that still finds the same command. */
  lemma SameCommandStaysExpired(layout: Layout, timeout: int, states: seq<CycleState>, inputs: seq<CycleInput>,
                                i: nat, j: nat, d: nat, k: nat)
    requires IsRun(layout, timeout, states, inputs) && i <= j < |inputs|
    requires Expired(inputs[i].command, inputs[i].now, timeout)
    requires inputs[i].now <= inputs[j].now && inputs[j].command == inputs[i].command
    requires Placed(layout, inputs[j], d, k)
    ensures WordAt(states[j + 1].images[d], layout[d][k].rxOffset) == DISABLE
  {
    SentWord(layout, timeout, states[j], inputs[j], states[j + 1], d, k);
  }

  /** Cycle n works on what the n-th read of the target buffer returned. */
  ghost predicate CommandsRead(inputs: seq<CycleInput>, results: seq<SnapshotProtocol.Result>,
                               decode: SnapshotProtocol.Frame -> PackedTargetFrame)
  {
    |inputs| <= |results| && forall n :: 0 <= n < |inputs| ==> inputs[n].command == decode(results[n].frame)
  }

  /** Whatever setTargets publishes and however the reads of the target buffer interleave with it: once a
      command has expired, every cycle tells every motor to disable until one has read a newer command. */
  lemma ExpiredMeansDisabled(layout: Layout, timeout: int, states: seq<CycleState>, inputs: seq<CycleInput>,
                             initial: SnapshotProtocol.Frame, buffer: seq<SnapshotProtocol.State>,
                             actions: seq<SnapshotProtocol.Action>, decode: SnapshotProtocol.Frame -> PackedTargetFrame,
                             i: nat, j: nat, d: nat, k: nat)
    requires IsRun(layout, timeout, states, inputs) && i <= j < |inputs|
    requires SnapshotProtocol.IsRun(initial, buffer, actions)
    requires buffer[|actions|].writeVersion < SnapshotProtocol.VERSION_LIMIT
    requires CommandsRead(inputs, buffer[|actions|].results, decode)
    requires Expired(inputs[i].command, inputs[i].now, timeout) && inputs[i].now <= inputs[j].now
    requires Placed(layout, inputs[j], d, k)
    ensures var results := buffer[|actions|].results;
            || WordAt(states[j + 1].images[d], layout[d][k].rxOffset) == DISABLE
            || results[i].version < results[j].version
  {
    var results := buffer[|actions|].results;
    SnapshotProtocol.ReadsNeverGoBack(initial, buffer, actions, i, j);
    SnapshotProtocol.ReadsReturnWholeFrames(initial, buffer, actions, i);
    SnapshotProtocol.ReadsReturnWholeFrames(initial, buffer, actions, j);
    if results[i].version == results[j].version {
      SameCommandStaysExpired(layout, timeout, states, inputs, i, j, d, k);
    }
  }

  lemma {:induction false} ReadDomainsKeepsSequence(layout: Layout, received: seq<Incoming>, frame: MotorActualFrame)
    requires LayoutOk(layout) && |received| == |layout|
    ensures ReadDomains(layout, received, frame).sequence == frame.sequence
    decreases |layout|
  {
    if layout != [] {
      var n := |layout| - 1;
      PrefixOk(layout, n);
      BindingsOk(layout, n);
      ReadDomainsKeepsSequence(layout[..n], received[..n], frame);
      ReadAllKeepsSequence(if received[n].complete then received[n].image else [], received[n].complete, layout[n],
                           ReadDomains(layout[..n], received[..n], frame));
    }
  }

  lemma {:induction false} ReadAllKeepsSequence(image: seq<Byte>, present: bool, bindings: seq<Binding>, frame: MotorActualFrame)
    requires forall b :: b in bindings ==> b.SizesSuffice()
    ensures ReadAll(image, present, bindings, frame).sequence == frame.sequence
  {
    if bindings != [] {
      ReadAllKeepsSequence(image, present, bindings[..|bindings| - 1], frame);
    }
  }

  /** Every cycle publishes a frame with the next sequence number. */
  lemma {:induction false} SequencesCountCycles(layout: Layout, timeout: int, states: seq<CycleState>, inputs: seq<CycleInput>, i: nat)
    requires IsRun(layout, timeout, states, inputs) && i <= |inputs|
    ensures states[i].actuals.sequence == states[0].actuals.sequence + i
  {
    if i > 0 {
      SequencesCountCycles(layout, timeout, states, inputs, i - 1);
      assert IsCycle(layout, timeout, states[i - 1], inputs[i - 1], states[i]);
      var start := states[i - 1].actuals.(sequence := states[i - 1].actuals.sequence + 1, timestamp := inputs[i - 1].stamp);
      ReadDomainsKeepsSequence(layout, inputs[i - 1].received, start);
    }
  }
}

/** The power state machine of a drive (chapter 10, Device Control, of CiA DSP 402 version 2.0), and
    the loop it closes with the realtime cycle. */
module DriveLoop {
  import opened RmdTypes
  import opened EthercatPdo
  import opened EthercatSnapshot
  import opened EthercatCycle
  import opened EthercatSafety

  datatype Drive =
    | NotReadyToSwitchOn
    | SwitchOnDisabled
    | ReadyToSwitchOn
    | SwitchedOn
    | OperationEnabled
    | QuickStopActive
    | FaultReactionActive
    | Fault

  datatype Command = NoCommand | Shutdown | SwitchOn | EnableOperation | DisableVoltage | QuickStop

  function BitOf(word: nat, weight: nat): bool
    requires weight > 0
  {
    (word / weight) % 2 == 1
  }

  /** Bits 0 to 3 of the control word name a command unless bit 7, fault reset, is set. */
  function Decode(word: nat): Command {
    if BitOf(word, 0x80) then NoCommand
    else if !BitOf(word, 2) then DisableVoltage
    else if !BitOf(word, 4) then QuickStop
    else if !BitOf(word, 1) then Shutdown
    else if !BitOf(word, 8) then SwitchOn
    else EnableOperation
  }

  /** The state after a control word; a fault is reset by the rising edge of bit 7.  Before power is on,
      bit 3 does not matter: enabling operation then only switches on. */
  function Respond(state: Drive, previous: nat, word: nat): Drive {
    match state
    case NotReadyToSwitchOn => SwitchOnDisabled
    case FaultReactionActive => Fault
    case Fault => if BitOf(word, 0x80) && !BitOf(previous, 0x80) then SwitchOnDisabled else Fault
    case SwitchOnDisabled => if Decode(word) == Shutdown then ReadyToSwitchOn else SwitchOnDisabled
    case ReadyToSwitchOn =>
      (match Decode(word)
       case SwitchOn => SwitchedOn
       case EnableOperation => SwitchedOn
       case DisableVoltage => SwitchOnDisabled
       case QuickStop => SwitchOnDisabled
       case _ => ReadyToSwitchOn)
    case SwitchedOn =>
      (match Decode(word)
       case EnableOperation => OperationEnabled
       case Shutdown => ReadyToSwitchOn
       case DisableVoltage => SwitchOnDisabled
       case QuickStop => SwitchOnDisabled
       case _ => SwitchedOn)
    case OperationEnabled =>
      (match Decode(word)
       case SwitchOn => SwitchedOn
       case Shutdown => ReadyToSwitchOn
       case DisableVoltage => SwitchOnDisabled
       case QuickStop => QuickStopActive
       case _ => OperationEnabled)
    case QuickStopActive => if Decode(word) == DisableVoltage then SwitchOnDisabled else QuickStopActive
  }

  /** The low seven status bits of a drive under voltage (bit 4 set); bit 5 is free in the states
      whose coding leaves it open. */
  predicate Shows(status: nat, state: Drive) {
    var s := status % 0x80;
    match state
    case NotReadyToSwitchOn => s in {0x10, 0x30}
    case SwitchOnDisabled => s in {0x50, 0x70}
    case ReadyToSwitchOn => s == 0x31
    case SwitchedOn => s == 0x33
    case OperationEnabled => s == 0x37
    case QuickStopActive => s == 0x17
    case FaultReactionActive => s in {0x1f, 0x3f}
    case Fault => s in {0x18, 0x38}
  }

  predicate CanBeEnabled(state: Drive) {
    state in {SwitchOnDisabled, ReadyToSwitchOn, SwitchedOn, OperationEnabled}
  }

  /** How many responses a drive is away from Operation Enabled. */
  function StepsToGo(state: Drive): nat {
    match state
    case OperationEnabled => 0
    case SwitchedOn => 1
    case ReadyToSwitchOn => 2
    case _ => 3
  }

  /** `drive[i]` is the state before cycle i; every cycle with feedback shows it, and the drive
      answers every control word sent. */
  ghost predicate ClosedLoop(layout: Layout, timeout: int, states: seq<CycleState>, inputs: seq<CycleInput>,
                             d: nat, k: nat, drive: seq<Drive>) {
    && IsRun(layout, timeout, states, inputs) && |drive| == |states|
    && (forall i :: 0 <= i < |inputs| ==>
          && Placed(layout, inputs[i], d, k)
          && (Fed(layout[d][k], inputs[i].received[d]) ==> Shows(StatusIn(layout[d][k], inputs[i].received[d]), drive[i])))
    && (forall i :: 0 <= i < |inputs| ==>
          drive[i + 1] == Respond(drive[i], if i == 0 then 0 else Sent(layout, states, inputs, d, k, i - 1),
                                  Sent(layout, states, inputs, d, k, i)))
  }

  /** The control word of cycle i. */
  ghost function Sent(layout: Layout, states: seq<CycleState>, inputs: seq<CycleInput>, d: nat, k: nat, i: nat): nat
    requires i < |inputs| && |states| == |inputs| + 1
    requires Placed(layout, inputs[i], d, k)
  {
    if d < |states[i + 1].images| && layout[d][k].rxOffset + 2 <= |states[i + 1].images[d]|
    then WordAt(states[i + 1].images[d], layout[d][k].rxOffset)
    else 0
  }

  lemma SentIs(layout: Layout, timeout: int, states: seq<CycleState>, inputs: seq<CycleInput>, d: nat, k: nat, i: nat)
    requires IsRun(layout, timeout, states, inputs) && i < |inputs| && Placed(layout, inputs[i], d, k)
    ensures var b := layout[d][k];
            Sent(layout, states, inputs, d, k, i) ==
            ControlWord(EnabledInForce(b, inputs[i], timeout),
                        if Fed(b, inputs[i].received[d]) then StatusIn(b, inputs[i].received[d]) else STALE_STATUS)
  {
    assert IsCycle(layout, timeout, states[i], inputs[i], states[i + 1]);
    SentWord(layout, timeout, states[i], inputs[i], states[i + 1], d, k);
  }

  /** Cycle i carries complete feedback and an enabling command in force. */
  ghost predicate Driving(layout: Layout, timeout: int, inputs: seq<CycleInput>, d: nat, k: nat, i: nat)
    requires i < |inputs| && Placed(layout, inputs[i], d, k)
  {
    Fed(layout[d][k], inputs[i].received[d]) && EnabledInForce(layout[d][k], inputs[i], timeout) == 1
  }

  /** Each driving cycle brings an enableable drive one step nearer, or keeps it there. */
  lemma EnablingStep(state: Drive, status: nat, previous: nat)
    requires Shows(status, state) && CanBeEnabled(state)
    ensures var next := Respond(state, previous, ControlWord(1, status));
            CanBeEnabled(next) && StepsToGo(next) == if StepsToGo(state) == 0 then 0 else StepsToGo(state) - 1
  {
  }

  /** What a driving cycle does to the drive of a closed loop. */
  lemma DrivenStep(layout: Layout, timeout: int, states: seq<CycleState>, inputs: seq<CycleInput>,
                   d: nat, k: nat, drive: seq<Drive>, i: nat)
    requires ClosedLoop(layout, timeout, states, inputs, d, k, drive)
    requires i < |inputs| && Driving(layout, timeout, inputs, d, k, i) && CanBeEnabled(drive[i])
    ensures CanBeEnabled(drive[i + 1])
    ensures StepsToGo(drive[i + 1]) == if StepsToGo(drive[i]) == 0 then 0 else StepsToGo(drive[i]) - 1
  {
    SentIs(layout, timeout, states, inputs, d, k, i);
    EnablingStep(drive[i], StatusIn(layout[d][k], inputs[i].received[d]),
                 if i == 0 then 0 else Sent(layout, states, inputs, d, k, i - 1));
  }

  ghost predicate DrivingThroughout(layout: Layout, timeout: int, inputs: seq<CycleInput>, d: nat, k: nat, i: nat, j: nat) {
    forall c :: i <= c < j ==> c < |inputs| && Placed(layout, inputs[c], d, k) && Driving(layout, timeout, inputs, d, k, c)
  }

  lemma {:induction false} EnablingProgress(layout: Layout, timeout: int, states: seq<CycleState>, inputs: seq<CycleInput>,
                                            d: nat, k: nat, drive: seq<Drive>, i: nat, j: nat)
    requires ClosedLoop(layout, timeout, states, inputs, d, k, drive)
    requires i <= j <= |inputs| && CanBeEnabled(drive[i])
    requires DrivingThroughout(layout, timeout, inputs, d, k, i, j)
    ensures CanBeEnabled(drive[j])
    ensures StepsToGo(drive[j]) == if StepsToGo(drive[i]) <= j - i then 0 else StepsToGo(drive[i]) - (j - i)
  {
    hide Placed, Fed, IsRun, Sent;
    if i < j {
      EnablingProgress(layout, timeout, states, inputs, d, k, drive, i, j - 1);
      assert Driving(layout, timeout, inputs, d, k, j - 1);
      DrivenStep(layout, timeout, states, inputs, d, k, drive, j - 1);
    }
  }

  /** From Switch On Disabled or later, three driving cycles reach Operation Enabled, and the drive
      stays there as long as cycles keep driving. */
  lemma ReachesAndKeepsOperation(layout: Layout, timeout: int, states: seq<CycleState>, inputs: seq<CycleInput>,
                                 d: nat, k: nat, drive: seq<Drive>, i: nat, j: nat)
    requires ClosedLoop(layout, timeout, states, inputs, d, k, drive)
    requires i + 3 <= j <= |inputs| && CanBeEnabled(drive[i])
    requires DrivingThroughout(layout, timeout, inputs, d, k, i, j)
    ensures drive[j] == OperationEnabled
  {
    EnablingProgress(layout, timeout, states, inputs, d, k, drive, i, j);
  }

  /** A drive leaves Operation Enabled at its next response once the command has expired, or the
      feedback is lost while no fault reset is asked for, or the motor is no longer enabled. */
  lemma LeavesOperation(layout: Layout, timeout: int, states: seq<CycleState>, inputs: seq<CycleInput>,
                        d: nat, k: nat, drive: seq<Drive>, i: nat)
    requires ClosedLoop(layout, timeout, states, inputs, d, k, drive)
    requires i < |inputs| && drive[i] == OperationEnabled
    requires var b := layout[d][k];
             || Expired(inputs[i].command, inputs[i].now, timeout)
             || (!Fed(b, inputs[i].received[d]) && EnabledInForce(b, inputs[i], timeout) != -1)
             || EnabledInForce(b, inputs[i], timeout) !in {-1, 1}
    ensures drive[i + 1] == ReadyToSwitchOn
  {
    hide IsRun, Placed, Sent;
    SentIs(layout, timeout, states, inputs, d, k, i);
  }

  /** The exact condition: a drive stays in operation only while it is being driven, or while the
      fault reset word, which is no command to a drive in operation, is sent. */
  lemma StaysInOperationIff(layout: Layout, timeout: int, states: seq<CycleState>, inputs: seq<CycleInput>,
                            d: nat, k: nat, drive: seq<Drive>, i: nat)
    requires ClosedLoop(layout, timeout, states, inputs, d, k, drive)
    requires i < |inputs| && drive[i] == OperationEnabled
    ensures drive[i + 1] == OperationEnabled <==>
              Driving(layout, timeout, inputs, d, k, i) || EnabledInForce(layout[d][k], inputs[i], timeout) == -1
  {
    hide IsRun, Placed, Sent;
    SentIs(layout, timeout, states, inputs, d, k, i);
  }

  /** No drive enters operation without being driven in that very cycle. */
  lemma EntersOperationOnlyDriven(layout: Layout, timeout: int, states: seq<CycleState>, inputs: seq<CycleInput>,
                                  d: nat, k: nat, drive: seq<Drive>, i: nat)
    requires ClosedLoop(layout, timeout, states, inputs, d, k, drive)
    requires i < |inputs| && drive[i] != OperationEnabled && drive[i + 1] == OperationEnabled
    ensures drive[i] == SwitchedOn && Driving(layout, timeout, inputs, d, k, i)
  {
    hide IsRun, Placed, Sent;
    SentIs(layout, timeout, states, inputs, d, k, i);
  }

  lemma ResetEdge(enabled: int, status: nat, before: int, shown: nat)
    ensures BitOf(ControlWord(enabled, status), 0x80) <==> enabled == -1
    ensures Respond(Fault, ControlWord(before, shown), ControlWord(enabled, status)) == SwitchOnDisabled
            <==> enabled == -1 && before != -1
  {
  }

  /** The word of a cycle, spelled out: command in force and status shown to the writer. */
  ghost function StatusSeen(layout: Layout, inputs: seq<CycleInput>, d: nat, k: nat, i: nat): nat
    requires i < |inputs| && Placed(layout, inputs[i], d, k)
  {
    if Fed(layout[d][k], inputs[i].received[d]) then StatusIn(layout[d][k], inputs[i].received[d]) else STALE_STATUS
  }

  /** enabled = -1 clears a fault in one response, unless the word before already asked for it. */
  lemma FaultReset(layout: Layout, timeout: int, states: seq<CycleState>, inputs: seq<CycleInput>,
                   d: nat, k: nat, drive: seq<Drive>, i: nat)
    requires ClosedLoop(layout, timeout, states, inputs, d, k, drive)
    requires 0 < i < |inputs| && drive[i] == Fault
    ensures drive[i + 1] == SwitchOnDisabled <==>
              EnabledInForce(layout[d][k], inputs[i], timeout) == -1 &&
              EnabledInForce(layout[d][k], inputs[i - 1], timeout) != -1
  {
    hide Sent, Fed, EnabledInForce, ControlWord, Respond;
    SentIs(layout, timeout, states, inputs, d, k, i);
    SentIs(layout, timeout, states, inputs, d, k, i - 1);
    ResetEdge(EnabledInForce(layout[d][k], inputs[i], timeout), StatusSeen(layout, inputs, d, k, i),
              EnabledInForce(layout[d][k], inputs[i - 1], timeout), StatusSeen(layout, inputs, d, k, i - 1));
  }
}
