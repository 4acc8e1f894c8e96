/** From the registry to the bindings of each domain, and what the realtime cycle may rely on. */
module EthercatBindings {
  import opened RmdTypes
  import opened MotorConfiguration
  import opened MotorRegistry
  import opened EthercatPdo
  import opened EthercatSnapshot
  import EthercatCycle
  import DriverSdk

  /** Whether a type name is one of the MT_Device names; how names are spelled is not modelled. */
  type TypeTest = string -> bool

  function BindingFor(m: RuntimeMotor, isMtDevice: TypeTest): Binding {
    Binding(m.globalIndex, -1, -1, RxStandard, TxExtended,
            if isMtDevice(m.kind) then RxSize(RxStandard) else 0,
            if isMtDevice(m.kind) then TxSize(TxExtended) else 0,
            m.domain, m.kind, m.parameters)
  }

  ghost predicate IndexesIn(reg: Registry, g: nat)
    requires g < |reg.backends|
  {
    forall l :: 0 <= l < |reg.backends[g].motorIndexes| ==> reg.backends[g].motorIndexes[l] < |reg.motors|
  }

  /** The motors of one group, in order. */
  ghost function GroupMotors(reg: Registry, g: nat): (s: seq<RuntimeMotor>)
    requires g < |reg.backends| && IndexesIn(reg, g)
    ensures |s| == |reg.backends[g].motorIndexes|
    ensures forall l :: 0 <= l < |s| ==> s[l] == reg.motors[reg.backends[g].motorIndexes[l]]
  {
    var indexes := reg.backends[g].motorIndexes;
    seq(|indexes|, l requires 0 <= l < |indexes| => reg.motors[indexes[l]])
  }

  ghost predicate BoundTo(bindings: seq<Binding>, motors: seq<RuntimeMotor>, isMtDevice: TypeTest) {
    |bindings| == |motors| && forall l :: 0 <= l < |motors| ==> bindings[l] == BindingFor(motors[l], isMtDevice)
  }

  lemma IndexesInRange(reg: Registry, g: nat)
    requires Partition(reg) && g < |reg.backends|
    ensures IndexesIn(reg, g)
  {
    forall l | 0 <= l < |reg.backends[g].motorIndexes| ensures reg.backends[g].motorIndexes[l] < |reg.motors| {
      assert PointsForward(reg, g, l);
    }
  }

  /** buildEthercatPdoBindings: nothing for an unknown backend, no bindings for one that is not EtherCAT. */
  method BuildEthercatPdoBindings(reg: Registry, backendIndex: nat, isMtDevice: TypeTest) returns (r: Option<seq<Binding>>)
    requires Partition(reg)
    ensures r.Some? <==> backendIndex < |reg.backends|
    ensures r.Some? && reg.backends[backendIndex].bus != Ethercat ==> r.value == []
    ensures r.Some? && reg.backends[backendIndex].bus == Ethercat ==>
              IndexesIn(reg, backendIndex) &&
              BoundTo(r.value, GroupMotors(reg, backendIndex), isMtDevice)
  {
    if backendIndex >= |reg.backends| {
      return None;
    }
    var backend := reg.backends[backendIndex];
    if backend.bus != Ethercat {
      return Some([]);
    }
    IndexesInRange(reg, backendIndex);
    var bindings: seq<Binding> := [];
    for l := 0 to |backend.motorIndexes|
      invariant |bindings| == l
      invariant forall j :: 0 <= j < l ==> bindings[j] == BindingFor(reg.motors[backend.motorIndexes[j]], isMtDevice)
    {
      var motor := reg.motors[backend.motorIndexes[l]];
      var binding := Binding(motor.globalIndex, -1, -1, RxStandard, TxExtended, 0, 0, motor.domain, motor.kind, motor.parameters);
      if isMtDevice(binding.kind) {
        binding := binding.(rxProfile := RxStandard, txProfile := TxExtended);
        binding := binding.(rxSize := RxSize(binding.rxProfile), txSize := TxSize(binding.txProfile));
      }
      bindings := bindings + [binding];
    }
    return Some(bindings);
  }

  function Profiled(b: Binding, modes: seq<int>, isMtDevice: TypeTest): Binding
    requires isMtDevice(b.kind) ==> b.globalIndex < |modes|
  {
    if !isMtDevice(b.kind) then b
    else
      var p := DriverSdk.RxProfileForMode(modes[b.globalIndex]);
      b.(rxProfile := p, txProfile := TxExtended, rxSize := RxSize(p), txSize := TxSize(TxExtended))
  }

  ghost predicate AllProfiled(after: seq<Binding>, bindings: seq<Binding>, modes: seq<int>, isMtDevice: TypeTest) {
    && |after| == |bindings|
    && forall k :: 0 <= k < |bindings| ==>
         (isMtDevice(bindings[k].kind) ==> bindings[k].globalIndex < |modes|) &&
         after[k] == Profiled(bindings[k], modes, isMtDevice)
  }

  /** assignEthercatPdoProfiles: refused when a mode is missing. */
  method AssignEthercatPdoProfiles(bindings: seq<Binding>, modes: seq<int>, isMtDevice: TypeTest) returns (r: Option<seq<Binding>>)
    ensures r.Some? <==> forall b :: b in bindings && isMtDevice(b.kind) ==> b.globalIndex < |modes|
    ensures r.Some? ==> AllProfiled(r.value, bindings, modes, isMtDevice)
  {
    var after := bindings;
    for k := 0 to |bindings|
      invariant |after| == |bindings|
      invariant forall j :: k <= j < |bindings| ==> after[j] == bindings[j]
      invariant forall j :: 0 <= j < k ==>
                  (isMtDevice(bindings[j].kind) ==> bindings[j].globalIndex < |modes|) &&
                  after[j] == Profiled(bindings[j], modes, isMtDevice)
    {
      var binding := after[k];
      if !isMtDevice(binding.kind) {
        continue;
      }
      if binding.globalIndex >= |modes| {
        assert bindings[k] in bindings;
        return None;
      }
      binding := binding.(rxProfile := DriverSdk.RxProfileForMode(modes[binding.globalIndex]), txProfile := TxExtended);
      binding := binding.(rxSize := RxSize(binding.rxProfile), txSize := TxSize(binding.txProfile));
      after := after[k := binding];
    }
    return Some(after);
  }

  // ----- one list of bindings per domain

  function InDomain(bindings: seq<Binding>, domain: int): seq<Binding> {
    if bindings == [] then []
    else
      var b := bindings[|bindings| - 1];
      InDomain(bindings[..|bindings| - 1], domain) + if b.domain == domain then [b] else []
  }

  /** Each list holds the bindings of one domain, no two lists the same domain. */
  ghost predicate ByDomain(bindings: seq<Binding>, ids: seq<int>, layout: seq<seq<Binding>>) {
    && |ids| == |layout|
    && (forall d, e :: 0 <= d < e < |ids| ==> ids[d] != ids[e])
    && (forall d :: 0 <= d < |ids| ==> layout[d] == InDomain(bindings, ids[d]))
    && (forall b :: b in bindings ==> b.domain in ids)
  }

  lemma {:induction false} NoneInDomain(bindings: seq<Binding>, domain: int)
    requires forall b :: b in bindings ==> b.domain != domain
    ensures InDomain(bindings, domain) == []
  {
    if bindings != [] {
      NoneInDomain(bindings[..|bindings| - 1], domain);
    }
  }

  /** The map built beside the lists finds each list by its domain. */
  ghost predicate DomainsIndexed(ids: seq<int>, domainById: map<int, nat>) {
    && (forall id :: id in domainById ==> domainById[id] < |ids| && ids[domainById[id]] == id)
    && (forall d :: 0 <= d < |ids| ==> ids[d] in domainById && domainById[ids[d]] == d)
  }

  lemma NewDomain(before: seq<Binding>, ids: seq<int>, layout: seq<seq<Binding>>, domainById: map<int, nat>, domain: int)
    requires ByDomain(before, ids, layout) && DomainsIndexed(ids, domainById) && domain !in domainById
    ensures ByDomain(before, ids + [domain], layout + [[]])
    ensures DomainsIndexed(ids + [domain], domainById[domain := |ids|])
  {
    forall b | b in before ensures b.domain != domain {
      assert b.domain in ids;
    }
    NoneInDomain(before, domain);
  }

  lemma AddToDomain(before: seq<Binding>, ids: seq<int>, layout: seq<seq<Binding>>, d: nat, b: Binding)
    requires ByDomain(before, ids, layout) && d < |ids| && ids[d] == b.domain
    ensures ByDomain(before + [b], ids, layout[d := layout[d] + [b]])
  {
    var all := before + [b];
    forall e | 0 <= e < |ids| ensures layout[d := layout[d] + [b]][e] == InDomain(all, ids[e]) {
      assert all[..|before|] == before;
    }
  }

  /** The grouping at the start of the EtherCAT backend. */
  method GroupByDomain(bindings: seq<Binding>) returns (ids: seq<int>, layout: seq<seq<Binding>>)
    ensures ByDomain(bindings, ids, layout)
  {
    hide ByDomain, DomainsIndexed;
    ids, layout := [], [];
    var domainById: map<int, nat> := map[];
    NoDomains();
    for k := 0 to |bindings|
      invariant |ids| == |layout| && ByDomain(bindings[..k], ids, layout) && DomainsIndexed(ids, domainById)
    {
      var binding := bindings[k];
      if binding.domain !in domainById {
        NewDomain(bindings[..k], ids, layout, domainById, binding.domain);
        ids, layout := ids + [binding.domain], layout + [[]];
        domainById := domainById[binding.domain := |ids| - 1];
      }
      DomainFound(ids, domainById, binding.domain);
      var d := domainById[binding.domain];
      AddToDomain(bindings[..k], ids, layout, d, binding);
      layout := layout[d := layout[d] + [binding]];
      assert bindings[..k + 1] == bindings[..k] + [binding];
    }
    assert bindings[..|bindings|] == bindings;
  }

  lemma NoDomains()
    ensures ByDomain([], [], []) && DomainsIndexed([], map[])
  {
  }

  lemma DomainFound(ids: seq<int>, domainById: map<int, nat>, domain: int)
    requires DomainsIndexed(ids, domainById) && domain in domainById
    ensures domainById[domain] < |ids| && ids[domainById[domain]] == domain
  {
  }

  lemma {:induction false} InDomainMembers(bindings: seq<Binding>, domain: int)
    ensures forall b :: b in InDomain(bindings, domain) <==> b in bindings && b.domain == domain
  {
    if bindings != [] {
      var n := |bindings| - 1;
      InDomainMembers(bindings[..n], domain);
      assert bindings == bindings[..n] + [bindings[n]];
    }
  }

  lemma {:induction false} InDomainDistinct(bindings: seq<Binding>, domain: int)
    requires DistinctMotors(bindings)
    ensures DistinctMotors(InDomain(bindings, domain))
  {
    if bindings != [] {
      var n := |bindings| - 1;
      InDomainDistinct(bindings[..n], domain);
      InDomainMembers(bindings[..n], domain);
      forall b | b in bindings[..n] ensures b.globalIndex != bindings[n].globalIndex {
        var j :| 0 <= j < n && bindings[..n][j] == b;
        assert bindings[j] == b;
      }
      var front := InDomain(bindings[..n], domain);
      forall j | 0 <= j < |front| ensures front[j].globalIndex != bindings[n].globalIndex {
        assert front[j] in front;
      }
    }
  }

  lemma DifferentMotors(bindings: seq<Binding>, b: Binding, c: Binding)
    requires DistinctMotors(bindings) && b in bindings && c in bindings && b != c
    ensures b.globalIndex != c.globalIndex
  {
    var j :| 0 <= j < |bindings| && bindings[j] == b;
    var k :| 0 <= k < |bindings| && bindings[k] == c;
    assert j < k || k < j;
  }

  /** The domains built from distinct, profiled bindings are a layout the realtime cycle is safe on. */
  lemma LayoutIsOk(bindings: seq<Binding>, ids: seq<int>, layout: seq<seq<Binding>>)
    requires ByDomain(bindings, ids, layout) && DistinctMotors(bindings)
    requires forall b :: b in bindings ==> b.SizesSuffice()
    ensures EthercatCycle.LayoutOk(layout)
    ensures forall b :: b in bindings <==> exists d :: 0 <= d < |layout| && b in layout[d]
  {
    hide InDomain;
    forall d | 0 <= d < |layout|
      ensures DistinctMotors(layout[d])
      ensures forall b :: b in layout[d] <==> b in bindings && b.domain == ids[d]
    {
      InDomainDistinct(bindings, ids[d]);
      InDomainMembers(bindings, ids[d]);
    }
    forall d, e, b, c | 0 <= d < e < |layout| && b in layout[d] && c in layout[e] ensures b.globalIndex != c.globalIndex {
      assert b in bindings && c in bindings && b != c;
      DifferentMotors(bindings, b, c);
    }
    forall b | b in bindings ensures exists d :: 0 <= d < |layout| && b in layout[d] {
      var d :| 0 <= d < |ids| && ids[d] == b.domain;
      assert b in layout[d];
    }
  }

  // ----- the bindings of a running backend

  /** The bindings the start of backend g has built and profiled. */
  ghost predicate StartedFor(bindings: seq<Binding>, reg: Registry, g: nat, modes: seq<int>, isMtDevice: TypeTest)
    requires g < |reg.backends| && IndexesIn(reg, g)
  {
    var motors := GroupMotors(reg, g);
    |bindings| == |motors| &&
    forall l :: 0 <= l < |motors| ==>
      motors[l].globalIndex < |modes| && SameBinding(bindings[l], Profiled(BindingFor(motors[l], isMtDevice), modes, isMtDevice))
  }

  /** Equal but for the offsets that PDO registration fills in. */
  predicate SameBinding(b: Binding, c: Binding) {
    b.(rxOffset := c.rxOffset, txOffset := c.txOffset) == c
  }

  /** An MT_Device speaks the extended feedback layout, and the PVT command layout in mode 5; the sizes
      are those of the layouts.  Another type has no sizes. */
  ghost predicate LaidOut(b: Binding, m: RuntimeMotor, modes: seq<int>, isMtDevice: TypeTest) {
    && b.globalIndex == m.globalIndex && b.kind == m.kind && b.parameters == m.parameters && b.domain == m.domain
    && b.txProfile == TxExtended
    && if isMtDevice(m.kind) then
         && m.globalIndex < |modes| && b.txSize == 22
         && (if modes[m.globalIndex] == 5 then b.rxProfile == RxPvt && b.rxSize == 22 else b.rxProfile == RxStandard && b.rxSize == 16)
       else b.rxProfile == RxStandard && b.rxSize == 0 && b.txSize == 0
  }

  lemma BuiltAndProfiled(built: seq<Binding>, after: seq<Binding>, reg: Registry, g: nat, modes: seq<int>, isMtDevice: TypeTest)
    requires g < |reg.backends| && IndexesIn(reg, g)
    requires BoundTo(built, GroupMotors(reg, g), isMtDevice) && AllProfiled(after, built, modes, isMtDevice)
    requires forall l :: 0 <= l < |built| ==> built[l].globalIndex < |modes|
    ensures StartedFor(after, reg, g, modes, isMtDevice)
    ensures forall l :: 0 <= l < |after| ==> LaidOut(after[l], GroupMotors(reg, g)[l], modes, isMtDevice)
  {
  }

  /** One motor per binding, from a registry in which no motor shares its index. */
  lemma StartedDistinct(bindings: seq<Binding>, reg: Registry, g: nat, modes: seq<int>, isMtDevice: TypeTest)
    requires Partition(reg) && DistinctIndexes(reg.motors) && g < |reg.backends|
    requires IndexesIn(reg, g) && StartedFor(bindings, reg, g, modes, isMtDevice)
    ensures DistinctMotors(bindings)
    ensures forall b :: b in bindings && isMtDevice(b.kind) ==> b.SizesSuffice()
  {
    var indexes := reg.backends[g].motorIndexes;
    forall j, k | 0 <= j < k < |bindings| ensures bindings[j].globalIndex != bindings[k].globalIndex {
      assert PointsForward(reg, g, j) && PointsForward(reg, g, k);
      assert indexes[j] < indexes[k] || indexes[k] < indexes[j];
    }
  }

  /** The targets as the direct writer would be given them. */
  ghost predicate Converted(direct: MotorTargetFrame, motors: seq<RuntimeMotor>, data: seq<DriverSdk.PublicTarget>,
                            modes: seq<int>, currents: seq<nat>) {
    forall m :: m in motors && m.bus == Ethercat ==>
      var i := m.globalIndex;
      && i < |data| && i < |modes| && i < |currents| && i < MAX_REALTIME_MOTORS && i in direct.valid
      && direct.targets[i] == DriverSdk.ToEthercatTarget(data[i], m.parameters, modes[i], currents[i])
  }

  lemma ProfileAgreesIff(m: RuntimeMotor, b: Binding, data: seq<DriverSdk.PublicTarget>, modes: seq<int>, currents: seq<nat>,
                         isMtDevice: TypeTest, target: MotorTarget)
    requires m.globalIndex < |data| && m.globalIndex < |modes| && m.globalIndex < |currents|
    requires SameBinding(b, Profiled(BindingFor(m, isMtDevice), modes, isMtDevice))
    requires target == DriverSdk.ToEthercatTarget(data[m.globalIndex], m.parameters, modes[m.globalIndex], currents[m.globalIndex])
    ensures DriverSdk.Packed(m, data, modes, currents) == PackTargetForRealtime(target, b.parameters, b.rxProfile)
            <==> isMtDevice(m.kind) || modes[m.globalIndex] != 5
  {
    hide PackRx, RxBytes, DriverSdk.ToEthercatTarget;
  }

  /** What setTargets packs is what the direct writer would pack for this backend's bindings, exactly
      when no motor whose type is not an MT_Device is in mode 5 (setTargets goes by the mode alone, the
      bindings keep the standard profile for such a type). */
  lemma PackedForBindingsIff(bindings: seq<Binding>, reg: Registry, g: nat, modes: seq<int>, currents: seq<nat>, isMtDevice: TypeTest,
                             data: seq<DriverSdk.PublicTarget>, direct: MotorTargetFrame, can: MotorTargetFrame, packed: PackedTargetFrame)
    requires Partition(reg) && g < |reg.backends| && reg.backends[g].bus == Ethercat
    requires IndexesIn(reg, g) && StartedFor(bindings, reg, g, modes, isMtDevice)
    requires DriverSdk.AllHanded(reg.motors, data, modes, currents, can, packed)
    requires Converted(direct, reg.motors, data, modes, currents)
    ensures PackedFrom(bindings, direct, packed) <==>
              forall b :: b in bindings ==> isMtDevice(b.kind) || (b.globalIndex < |modes| && modes[b.globalIndex] != 5)
  {
    forall l | 0 <= l < |bindings|
      ensures bindings[l].globalIndex < |modes| && bindings[l].globalIndex < MAX_REALTIME_MOTORS
      ensures PackedFrom([bindings[l]], direct, packed) <==> isMtDevice(bindings[l].kind) || modes[bindings[l].globalIndex] != 5
    {
      OneBindingIff(bindings, reg, g, modes, currents, isMtDevice, data, direct, can, packed, l);
    }
    PackedOneByOne(bindings, direct, packed);
  }

  lemma PackedOneByOne(bindings: seq<Binding>, direct: MotorTargetFrame, packed: PackedTargetFrame)
    ensures PackedFrom(bindings, direct, packed) <==> forall l :: 0 <= l < |bindings| ==> PackedFrom([bindings[l]], direct, packed)
  {
    hide PackTargetForRealtime;
    if forall l :: 0 <= l < |bindings| ==> PackedFrom([bindings[l]], direct, packed) {
      forall b | b in bindings && b.globalIndex < MAX_REALTIME_MOTORS
        ensures b.globalIndex in direct.valid && b.globalIndex in packed.valid &&
                packed.targets[b.globalIndex] == PackTargetForRealtime(direct.targets[b.globalIndex], b.parameters, b.rxProfile)
      {
        var l :| 0 <= l < |bindings| && bindings[l] == b;
        assert PackedFrom([bindings[l]], direct, packed) && b in [bindings[l]];
      }
    }
  }

  lemma OneBindingIff(bindings: seq<Binding>, reg: Registry, g: nat, modes: seq<int>, currents: seq<nat>, isMtDevice: TypeTest,
                      data: seq<DriverSdk.PublicTarget>, direct: MotorTargetFrame, can: MotorTargetFrame, packed: PackedTargetFrame, l: nat)
    requires Partition(reg) && g < |reg.backends| && reg.backends[g].bus == Ethercat && l < |bindings|
    requires IndexesIn(reg, g) && StartedFor(bindings, reg, g, modes, isMtDevice)
    requires DriverSdk.AllHanded(reg.motors, data, modes, currents, can, packed)
    requires Converted(direct, reg.motors, data, modes, currents)
    ensures bindings[l].globalIndex < |modes| && bindings[l].globalIndex < MAX_REALTIME_MOTORS
    ensures PackedFrom([bindings[l]], direct, packed) <==> isMtDevice(bindings[l].kind) || modes[bindings[l].globalIndex] != 5
  {
    hide PackTargetForRealtime, DriverSdk.ToEthercatTarget, DriverSdk.Packed;
    var b, i := bindings[l], reg.backends[g].motorIndexes[l];
    var m := reg.motors[i];
    assert PointsForward(reg, g, l) && PointsBack(reg, i) && m in reg.motors;
    assert DriverSdk.Handed(m, data, modes, currents, can, packed);
    ProfileAgreesIff(m, b, data, modes, currents, isMtDevice, direct.targets[m.globalIndex]);
    assert b in [b];
  }

  /** Bindings of MT_Device types only, as a backend that has started holds: the prepacked image is the
      one the direct writer would have made from the caller's targets. */
  lemma StartedBackendWritesTargets(image: seq<Byte>, bindings: seq<Binding>, reg: Registry, g: nat, modes: seq<int>, currents: seq<nat>,
                                    isMtDevice: TypeTest, data: seq<DriverSdk.PublicTarget>, direct: MotorTargetFrame,
                                    can: MotorTargetFrame, packed: PackedTargetFrame, actuals: MotorActualFrame)
    requires Partition(reg) && g < |reg.backends| && reg.backends[g].bus == Ethercat
    requires IndexesIn(reg, g) && StartedFor(bindings, reg, g, modes, isMtDevice)
    requires forall b :: b in bindings ==> isMtDevice(b.kind)
    requires DriverSdk.AllHanded(reg.motors, data, modes, currents, can, packed)
    requires Converted(direct, reg.motors, data, modes, currents)
    ensures WriteAll(image, PackedSlots(bindings, packed, actuals)) == WriteAll(image, DirectSlots(bindings, direct, actuals))
  {
    hide StartedFor, DriverSdk.AllHanded, Converted, PackedFrom;
    PackedForBindingsIff(bindings, reg, g, modes, currents, isMtDevice, data, direct, can, packed);
    PrepackedAgreesWithDirect(image, bindings, direct, packed, actuals);
  }
}
