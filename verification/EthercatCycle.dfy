/** One cycle of the realtime loop.  Library calls, clocks and the command buffer are inputs of the
    cycle. */
module EthercatCycle {
  import opened RmdTypes
  import opened EthercatPdo
  import opened EthercatSnapshot

  /** What the master delivered for one domain. */
  datatype Incoming = Incoming(complete: bool, image: seq<Byte>)

  /** `stamp` and `now` are the two clock readings, `command` the frame read from the target buffer. */
  datatype CycleInput = CycleInput(received: seq<Incoming>, command: PackedTargetFrame, stamp: int, now: int)

  datatype CycleState = CycleState(actuals: MotorActualFrame, targets: PackedTargetFrame, images: seq<seq<Byte>>)

  type Layout = seq<seq<Binding>>

  ghost predicate LayoutOk(layout: Layout) {
    && (forall d, b :: 0 <= d < |layout| && b in layout[d] ==> b.SizesSuffice())
    && (forall d :: 0 <= d < |layout| ==> DistinctMotors(layout[d]))
    && (forall d, e, b, c :: 0 <= d < e < |layout| && b in layout[d] && c in layout[e] ==> b.globalIndex != c.globalIndex)
  }

  function ReadDomains(layout: Layout, received: seq<Incoming>, frame: MotorActualFrame): MotorActualFrame
    requires LayoutOk(layout) && |received| == |layout|
  {
    if layout == [] then frame
    else
      var n := |layout| - 1;
      assert LayoutOk(layout[..n]);
      var before := ReadDomains(layout[..n], received[..n], frame);
      ReadAll(if received[n].complete then received[n].image else [], received[n].complete, layout[n], before)
  }

  /** What one cycle makes of the state before it. */
  ghost predicate IsCycle(layout: Layout, timeout: int, before: CycleState, input: CycleInput, after: CycleState) {
    && LayoutOk(layout) && |input.received| == |layout| == |after.images|
    && after.actuals == ReadDomains(layout, input.received,
                          before.actuals.(sequence := before.actuals.sequence + 1, timestamp := input.stamp))
    && Watched(input.command, input.now, timeout, after.targets)
    && forall d :: 0 <= d < |layout| ==>
         after.images[d] == WriteAll(input.received[d].image, PackedSlots(layout[d], after.targets, after.actuals))
  }

  lemma PrefixOk(layout: Layout, n: nat)
    requires LayoutOk(layout) && n <= |layout|
    ensures LayoutOk(layout[..n])
  {
  }

  lemma BindingsOk(layout: Layout, d: nat)
    requires LayoutOk(layout) && d < |layout|
    ensures forall b :: b in layout[d] ==> b.SizesSuffice()
    ensures DistinctMotors(layout[d])
  {
  }

  lemma ReadDomainsStep(layout: Layout, received: seq<Incoming>, frame: MotorActualFrame, d: nat)
    requires LayoutOk(layout) && |received| == |layout| && d < |layout|
    requires LayoutOk(layout[..d]) && LayoutOk(layout[..d + 1])
    ensures forall b :: b in layout[d] ==> b.SizesSuffice()
    ensures ReadDomains(layout[..d + 1], received[..d + 1], frame)
            == ReadAll(if received[d].complete then received[d].image else [], received[d].complete, layout[d],
                       ReadDomains(layout[..d], received[..d], frame))
  {
    assert layout[..d + 1][..d] == layout[..d] && received[..d + 1][..d] == received[..d];
    BindingsOk(layout, d);
  }

  lemma ReadNothing(layout: Layout, received: seq<Incoming>, frame: MotorActualFrame)
    requires LayoutOk(layout[..0]) && |received| == |layout|
    ensures ReadDomains(layout[..0], received[..0], frame) == frame
  {
  }

  datatype Domain = Domain(data: array<Byte>, bindings: seq<Binding>)

  class RmdEthercatRuntime {
    const domains: seq<Domain>
    const timeout: int
    var workingActuals: MotorActualFrame
    var targets: PackedTargetFrame

    ghost function LayoutOf(): Layout {
      seq(|domains|, d requires 0 <= d < |domains| => domains[d].bindings)
    }

    ghost function Buffers(): set<object> {
      set d | 0 <= d < |domains| :: domains[d].data
    }

    ghost predicate DistinctBuffers() {
      forall d, e :: 0 <= d < e < |domains| ==> domains[d].data != domains[e].data
    }

    ghost predicate Valid() {
      LayoutOk(LayoutOf()) && DistinctBuffers()
    }

    ghost function Images(): seq<seq<Byte>>
      reads Buffers()
    {
      seq(|domains|, d requires 0 <= d < |domains| reads Buffers() => domains[d].data[..])
    }

    ghost function View(): CycleState
      reads this, Buffers()
    {
      CycleState(workingActuals, targets, Images())
    }

    /** ecrt_domain_process: the received datagram appears in the buffer. */
    method Process(data: array<Byte>, image: seq<Byte>)
      requires |image| == data.Length
      modifies data
      ensures data[..] == image
    {
      forall k | 0 <= k < data.Length {
        data[k] := image[k];
      }
    }

    /** Reads one domain when its working counter is complete, marks it stale otherwise. */
    method ReceiveDomain(d: nat, incoming: Incoming)
      requires d < |domains| && |incoming.image| == domains[d].data.Length
      requires forall b :: b in domains[d].bindings ==> b.SizesSuffice()
      modifies this`workingActuals, domains[d].data
      ensures domains[d].data[..] == incoming.image
      ensures workingActuals == ReadAll(if incoming.complete then incoming.image else [], incoming.complete,
                                        domains[d].bindings, old(workingActuals))
    {
      var domain := domains[d];
      Process(domain.data, incoming.image);
      if incoming.complete {
        workingActuals := ReadDomain(domain.data, domain.bindings, workingActuals);
      } else {
        workingActuals := ReadDomain(null, domain.bindings, workingActuals);
      }
    }

    method ReceiveDomains(received: seq<Incoming>)
      requires Valid() && |received| == |domains|
      requires forall d :: 0 <= d < |domains| ==> |received[d].image| == domains[d].data.Length
      modifies this`workingActuals, Buffers()
      ensures workingActuals == ReadDomains(LayoutOf(), received, old(workingActuals))
      ensures forall d :: 0 <= d < |domains| ==> domains[d].data[..] == received[d].image
    {
      hide ReadDomains, ReadAll, LayoutOk;
      PrefixOk(LayoutOf(), 0);
      ReadNothing(LayoutOf(), received, workingActuals);
      for d := 0 to |domains|
        invariant LayoutOk(LayoutOf()[..d])
        invariant workingActuals == ReadDomains(LayoutOf()[..d], received[..d], old(workingActuals))
        invariant forall e :: 0 <= e < d ==> domains[e].data[..] == received[e].image
      {
        PrefixOk(LayoutOf(), d + 1);
        ReadDomainsStep(LayoutOf(), received, old(workingActuals), d);
        assert LayoutOf()[d] == domains[d].bindings;
        ReceiveDomain(d, received[d]);
      }
      assert LayoutOf()[..|domains|] == LayoutOf() && received[..|domains|] == received;
    }

    /** Domain d has been written, starting from the given image. */
    ghost predicate Written(d: nat, image: seq<Byte>)
      requires d < |domains|
      reads this, domains[d].data
    {
      domains[d].data[..] == WriteAll(image, PackedSlots(domains[d].bindings, targets, workingActuals))
    }

    ghost predicate SizesOk(d: nat)
      requires d < |domains|
    {
      forall b :: b in domains[d].bindings ==> b.SizesSuffice()
    }

    lemma AllSizesOk()
      requires LayoutOk(LayoutOf())
      ensures forall d :: 0 <= d < |domains| ==> SizesOk(d)
    {
      forall d | 0 <= d < |domains| ensures SizesOk(d) {
        BindingsOk(LayoutOf(), d);
      }
    }

    method WriteDomains()
      requires DistinctBuffers() && forall d :: 0 <= d < |domains| ==> SizesOk(d)
      modifies Buffers()
      ensures forall d :: 0 <= d < |domains| ==> Written(d, old(domains[d].data[..]))
    {
      hide WriteAll, PackedSlots;
      for d := 0 to |domains|
        invariant forall e :: 0 <= e < d ==> Written(e, old(domains[e].data[..]))
        invariant forall e :: d <= e < |domains| ==> domains[e].data[..] == old(domains[e].data[..])
      {
        WriteDomain(d);
      }
    }

    method WriteDomain(d: nat)
      requires d < |domains| && SizesOk(d)
      modifies domains[d].data
      ensures Written(d, old(domains[d].data[..]))
    {
      WritePrepacked(domains[d].data, domains[d].bindings, targets, workingActuals);
    }

    /** The body of the realtime loop; the result is the frame handed to the actual buffer. */
    method Cycle(input: CycleInput) returns (published: MotorActualFrame)
      requires Valid() && |input.received| == |domains|
      requires forall d :: 0 <= d < |domains| ==> |input.received[d].image| == domains[d].data.Length
      modifies this, Buffers()
      ensures Valid() && IsCycle(LayoutOf(), timeout, old(View()), input, View())
      ensures published == workingActuals
    {
      hide ReadDomains, WriteAll, PackedSlots, LayoutOk, Watched;
      workingActuals := workingActuals.(sequence := workingActuals.sequence + 1, timestamp := input.stamp);
      ReceiveDomains(input.received);
      var watched, cleared := ApplyCommandWatchdog(input.command, input.now, timeout);
      targets := watched;
      AllSizesOk();
      WriteDomains();
      published := workingActuals;
    }
  }
}
