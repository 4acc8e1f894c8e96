/** Loading motor entries: one entry per alias, the last one wins. */
module MotorConfiguration {
  import opened RmdTypes

  datatype Option<T> = None | Some(value: T)

  datatype LoadError = InvalidCanSlave | InvalidEcatSlave | InvalidPlacement | CanPlacementWithoutId | EcatPlacementWithoutSlave

  /** Where in the file an entry stands. */
  datatype Section = CanSlave | EcatSlave | Placement

  datatype Entry = Entry(section: Section, motor: MotorConfig)

  // ----- one motor per alias

  function IndexOf(motors: seq<MotorConfig>, alias: int): (i: nat)
    ensures i <= |motors|
    ensures i < |motors| ==> motors[i].alias == alias
    ensures forall j :: 0 <= j < i ==> motors[j].alias != alias
  {
    if motors == [] || motors[0].alias == alias then 0 else 1 + IndexOf(motors[1..], alias)
  }

  function Upsert(motors: seq<MotorConfig>, motor: MotorConfig): seq<MotorConfig> {
    var i := IndexOf(motors, motor.alias);
    if i == |motors| then motors + [motor] else motors[i := motor]
  }

  ghost predicate UniqueAliases(motors: seq<MotorConfig>) {
    forall i, j :: 0 <= i < j < |motors| ==> motors[i].alias != motors[j].alias
  }

  function Lookup(motors: seq<MotorConfig>, alias: int): Option<MotorConfig> {
    var i := IndexOf(motors, alias);
    if i == |motors| then None else Some(motors[i])
  }

  lemma LookupIs(motors: seq<MotorConfig>, k: nat)
    requires UniqueAliases(motors) && k < |motors|
    ensures Lookup(motors, motors[k].alias) == Some(motors[k])
  {
  }

  lemma LookupNone(motors: seq<MotorConfig>, alias: int)
    requires forall k :: 0 <= k < |motors| ==> motors[k].alias != alias
    ensures Lookup(motors, alias) == None
  {
  }

  /** Upserting keeps aliases unique and changes the list exactly as an update changes a map. */
  lemma UpsertIsMapUpdate(motors: seq<MotorConfig>, motor: MotorConfig, alias: int)
    requires UniqueAliases(motors)
    ensures UniqueAliases(Upsert(motors, motor))
    ensures Lookup(Upsert(motors, motor), alias) == if alias == motor.alias then Some(motor) else Lookup(motors, alias)
  {
    var i, r := IndexOf(motors, motor.alias), Upsert(motors, motor);
    assert r[i] == motor && UniqueAliases(r);
    LookupIs(r, i);
    var k := IndexOf(motors, alias);
    if alias != motor.alias {
      if k < |motors| {
        assert r[k] == motors[k];
        LookupIs(r, k);
      } else {
        LookupNone(r, alias);
      }
    }
  }

  // ----- which entries count

  function StartsWithRmd(kind: string): bool {
    |kind| >= 3 && kind[..3] == "RMD"
  }

  /** The complaint an entry draws, if any. */
  function Refusal(e: Entry, parameters: map<int, MotorParameters>): Option<LoadError> {
    var m := e.motor;
    match e.section
    case CanSlave =>
      if m.alias <= 0 || m.motorId <= 0 || m.alias !in parameters then Some(InvalidCanSlave) else None
    case EcatSlave =>
      if m.alias <= 0 || m.alias !in parameters then Some(InvalidEcatSlave) else None
    case Placement =>
      if m.alias <= 0 || m.alias !in parameters then Some(InvalidPlacement)
      else if Skipped(e) then None
      else if m.bus == Can && m.motorId <= 0 then Some(CanPlacementWithoutId)
      else if m.bus == Ethercat && m.ethercatSlave < 0 then Some(EcatPlacementWithoutSlave)
      else None
  }

  /** A CAN placement of another make is not ours. */
  predicate Skipped(e: Entry) {
    e.section == Placement && e.motor.bus == Can && e.motor.kind != "" && !StartsWithRmd(e.motor.kind)
  }

  function WithParameters(m: MotorConfig, parameters: map<int, MotorParameters>): MotorConfig
    requires m.alias in parameters
  {
    m.(parameters := parameters[m.alias])
  }

  ghost predicate AllAccepted(entries: seq<Entry>, parameters: map<int, MotorParameters>) {
    forall e :: e in entries ==> Refusal(e, parameters) == None
  }

  function Loaded(entries: seq<Entry>, parameters: map<int, MotorParameters>): seq<MotorConfig>
    requires AllAccepted(entries, parameters)
  {
    if entries == [] then []
    else
      var e := entries[|entries| - 1];
      assert e in entries;
      var before := Loaded(entries[..|entries| - 1], parameters);
      if Skipped(e) then before else Upsert(before, WithParameters(e.motor, parameters))
  }

  /** The last entry for an alias, with the parameters of that alias. */
  function LastEntry(entries: seq<Entry>, parameters: map<int, MotorParameters>, alias: int): Option<MotorConfig>
    requires AllAccepted(entries, parameters)
  {
    if entries == [] then None
    else
      var e := entries[|entries| - 1];
      assert e in entries;
      if !Skipped(e) && e.motor.alias == alias then Some(WithParameters(e.motor, parameters))
      else LastEntry(entries[..|entries| - 1], parameters, alias)
  }

  /** Aliases stay unique, and each is configured by its last entry. */
  lemma {:induction false} LastEntryWins(entries: seq<Entry>, parameters: map<int, MotorParameters>, alias: int)
    requires AllAccepted(entries, parameters)
    ensures UniqueAliases(Loaded(entries, parameters))
    ensures Lookup(Loaded(entries, parameters), alias) == LastEntry(entries, parameters, alias)
  {
    hide Upsert, Lookup, UniqueAliases, Refusal;
    if entries == [] {
      NothingLoaded(alias);
    } else {
      var n, e := |entries| - 1, entries[|entries| - 1];
      assert e in entries;
      LastEntryWins(entries[..n], parameters, alias);
      AcceptedHasParameters(e, parameters);
      if !Skipped(e) {
        UpsertIsMapUpdate(Loaded(entries[..n], parameters), WithParameters(e.motor, parameters), alias);
      }
    }
  }

  /** An entry that is not passed over: a slave, an EtherCAT placement, or a CAN placement whose type is
      not given or begins with RMD. */
  ghost predicate Kept(e: Entry) {
    e.section != Placement || e.motor.bus == Ethercat || e.motor.kind == "" || exists rest :: e.motor.kind == "RMD" + rest
  }

  lemma KeptIffNotSkipped(e: Entry)
    ensures Kept(e) <==> !Skipped(e)
  {
    var kind := e.motor.kind;
    if StartsWithRmd(kind) {
      assert kind == "RMD" + kind[3..];
    }
    if rest :| kind == "RMD" + rest {
      assert kind[..3] == "RMD";
    }
  }

  /** An alias is configured exactly when some entry for it is kept. */
  lemma {:induction false} LoadedIffKept(entries: seq<Entry>, parameters: map<int, MotorParameters>, alias: int)
    requires AllAccepted(entries, parameters)
    ensures Lookup(Loaded(entries, parameters), alias) != None
            <==> exists e :: e in entries && Kept(e) && e.motor.alias == alias
  {
    hide Kept, Skipped, Lookup, Loaded, Refusal, UniqueAliases;
    LastEntryWins(entries, parameters, alias);
    LastEntryIffKept(entries, parameters, alias);
  }

  lemma {:induction false} LastEntryIffKept(entries: seq<Entry>, parameters: map<int, MotorParameters>, alias: int)
    requires AllAccepted(entries, parameters)
    ensures LastEntry(entries, parameters, alias) != None
            <==> exists e :: e in entries && Kept(e) && e.motor.alias == alias
  {
    hide Kept, Skipped, Refusal;
    if entries != [] {
      var n, last := |entries| - 1, entries[|entries| - 1];
      LastEntryIffKept(entries[..n], parameters, alias);
      KeptIffNotSkipped(last);
      assert entries == entries[..n] + [last];
    }
  }

  lemma NothingLoaded(alias: int)
    ensures UniqueAliases([]) && Lookup([], alias) == None
  {
  }

  lemma AcceptedHasParameters(e: Entry, parameters: map<int, MotorParameters>)
    requires Refusal(e, parameters) == None
    ensures e.motor.alias in parameters && e.motor.alias > 0
  {
  }

  /** The entries of one section. */
  function Entries(section: Section, listed: seq<MotorConfig>): (r: seq<Entry>)
    ensures |r| == |listed| && forall k :: 0 <= k < |r| ==> r[k] == Entry(section, listed[k])
  {
    seq(|listed|, k requires 0 <= k < |listed| => Entry(section, listed[k]))
  }

  /** The order in which the sections are read. */
  function FileOrder(canSlaves: seq<MotorConfig>, ecatSlaves: seq<MotorConfig>, placements: seq<MotorConfig>): seq<Entry> {
    Entries(CanSlave, canSlaves) + Entries(EcatSlave, ecatSlaves) + Entries(Placement, placements)
  }

  lemma LoadedStep(entries: seq<Entry>, e: Entry, parameters: map<int, MotorParameters>)
    requires AllAccepted(entries, parameters)
    ensures AllAccepted(entries + [e], parameters) <==> Refusal(e, parameters) == None
    ensures Refusal(e, parameters) == None ==>
              e.motor.alias in parameters &&
              Loaded(entries + [e], parameters) ==
              if Skipped(e) then Loaded(entries, parameters)
              else Upsert(Loaded(entries, parameters), WithParameters(e.motor, parameters))
  {
    hide Upsert;
    var all := entries + [e];
    assert all[..|entries|] == entries && e in all;
    forall x | x in all ensures x in entries || x == e {
    }
  }

  lemma RefusedEarly(entries: seq<Entry>, more: seq<Entry>, parameters: map<int, MotorParameters>)
    requires !AllAccepted(entries, parameters)
    ensures !AllAccepted(entries + more, parameters)
  {
    var e :| e in entries && Refusal(e, parameters) != None;
    assert e in entries + more;
  }

  /** A placement overrides whatever the sections before it say about the same alias. */
  lemma PlacementOverrides(canSlaves: seq<MotorConfig>, ecatSlaves: seq<MotorConfig>, placements: seq<MotorConfig>,
                           parameters: map<int, MotorParameters>, alias: int)
    requires AllAccepted(FileOrder(canSlaves, ecatSlaves, placements), parameters)
    requires AllAccepted(Entries(Placement, placements), parameters)
    requires LastEntry(Entries(Placement, placements), parameters, alias) != None
    ensures Lookup(Loaded(FileOrder(canSlaves, ecatSlaves, placements), parameters), alias)
            == LastEntry(Entries(Placement, placements), parameters, alias)
  {
    hide Lookup, Loaded, Refusal, UniqueAliases;
    var before := Entries(CanSlave, canSlaves) + Entries(EcatSlave, ecatSlaves);
    LastEntryWins(FileOrder(canSlaves, ecatSlaves, placements), parameters, alias);
    LastEntryOfTail(before, Entries(Placement, placements), parameters, alias);
  }

  lemma {:induction false} LastEntryOfTail(before: seq<Entry>, tail: seq<Entry>, parameters: map<int, MotorParameters>, alias: int)
    requires AllAccepted(before + tail, parameters) && AllAccepted(tail, parameters) && LastEntry(tail, parameters, alias) != None
    ensures LastEntry(before + tail, parameters, alias) == LastEntry(tail, parameters, alias)
  {
    hide Refusal;
    var n, all := |tail| - 1, before + tail;
    assert all[..|all| - 1] == before + tail[..n] && all[|all| - 1] == tail[n];
    var e := tail[n];
    if Skipped(e) || e.motor.alias != alias {
      LastEntryOfTail(before, tail[..n], parameters, alias);
    }
  }

  // ----- the reader

  /** The parameter elements in order; elements without a positive alias are ignored. */
  function ParameterMap(elements: seq<(int, MotorParameters)>): map<int, MotorParameters> {
    if elements == [] then map[]
    else
      var (alias, p) := elements[|elements| - 1];
      var before := ParameterMap(elements[..|elements| - 1]);
      if alias > 0 then before[alias := p] else before
  }

  /** The largest key, or zero. */
  ghost predicate IsTotal(total: int, parameters: map<int, MotorParameters>) {
    && (forall a :: a in parameters ==> 1 <= a <= total)
    && (if parameters == map[] then total == 0 else total in parameters)
  }

  lemma NoParameters()
    ensures IsTotal(0, map[])
  {
  }

  /** A new key raises the total if it is larger. */
  lemma TotalStep(total: int, parameters: map<int, MotorParameters>, alias: int, p: MotorParameters)
    requires IsTotal(total, parameters)
    ensures alias > 0 ==> IsTotal(if alias > total then alias else total, parameters[alias := p])
  {
    var after := parameters[alias := p];
    assert alias in after;
    forall a | a in after && alias > 0 ensures 1 <= a <= if alias > total then alias else total {
      if a != alias {
        assert a in parameters;
      }
    }
  }

  class ConfigReader {
    var totalMotorCount: int
    var motorParameters: map<int, MotorParameters>
    var motors: seq<MotorConfig>

    constructor ()
      ensures totalMotorCount == 0 && motorParameters == map[] && motors == []
    {
      totalMotorCount, motorParameters, motors := 0, map[], [];
    }

    method ReadMotorParameterMap(elements: seq<(int, MotorParameters)>)
      modifies this
      ensures motorParameters == ParameterMap(elements) && IsTotal(totalMotorCount, motorParameters)
      ensures motors == old(motors)
    {
      hide IsTotal;
      totalMotorCount, motorParameters := 0, map[];
      NoParameters();
      for k := 0 to |elements|
        invariant motorParameters == ParameterMap(elements[..k]) && IsTotal(totalMotorCount, motorParameters)
        invariant motors == old(motors)
      {
        assert elements[..k + 1][..k] == elements[..k];
        var (alias, p) := elements[k];
        TotalStep(totalMotorCount, motorParameters, alias, p);
        if alias > 0 {
          motorParameters := motorParameters[alias := p];
          if alias > totalMotorCount {
            totalMotorCount := alias;
          }
        }
      }
      assert elements[..|elements|] == elements;
    }

    method UpsertMotor(motor: MotorConfig)
      modifies this`motors
      ensures motors == Upsert(old(motors), motor)
    {
      var i := 0;
      while i < |motors| && motors[i].alias != motor.alias
        invariant i <= |motors|
        invariant forall j :: 0 <= j < i ==> motors[j].alias != motor.alias
      {
        i := i + 1;
      }
      ghost var found := IndexOf(motors, motor.alias);
      if i == |motors| {
        motors := motors + [motor];
      } else {
        motors := motors[i := motor];
      }
    }

    method ReadEntry(e: Entry) returns (refused: Option<LoadError>)
      modifies this`motors
      ensures refused == Refusal(e, motorParameters)
      ensures refused == None ==>
                motors == if Skipped(e) then old(motors) else Upsert(old(motors), WithParameters(e.motor, motorParameters))
    {
      var motor := e.motor;
      match e.section {
        case CanSlave =>
          if motor.alias <= 0 || motor.motorId <= 0 || motor.alias !in motorParameters {
            return Some(InvalidCanSlave);
          }
        case EcatSlave =>
          if motor.alias <= 0 || motor.alias !in motorParameters {
            return Some(InvalidEcatSlave);
          }
        case Placement =>
          if motor.alias <= 0 || motor.alias !in motorParameters {
            return Some(InvalidPlacement);
          }
          if motor.bus == Can && motor.kind != "" && !StartsWithRmd(motor.kind) {
            return None;
          }
          if motor.bus == Can {
            if motor.motorId <= 0 {
              return Some(CanPlacementWithoutId);
            }
          } else if motor.ethercatSlave < 0 {
            return Some(EcatPlacementWithoutSlave);
          }
      }
      UpsertMotor(motor.(parameters := motorParameters[motor.alias]));
      return None;
    }

    /** One section of the file, up to the first complaint; `read` are the entries before it. */
    method ReadSection(section: Section, listed: seq<MotorConfig>, ghost read: seq<Entry>) returns (refused: Option<LoadError>)
      requires AllAccepted(read, motorParameters) && motors == Loaded(read, motorParameters)
      modifies this`motors
      ensures refused == None <==> AllAccepted(read + Entries(section, listed), motorParameters)
      ensures refused == None ==> motors == Loaded(read + Entries(section, listed), motorParameters)
    {
      hide AllAccepted, Loaded, Refusal;
      ghost var all := read + Entries(section, listed);
      assert all[..|read|] == read;
      for k := 0 to |listed|
        invariant AllAccepted(all[..|read| + k], motorParameters) && motors == Loaded(all[..|read| + k], motorParameters)
      {
        ghost var n := |read| + k;
        assert all[..n + 1] == all[..n] + [all[n]] && all[n] == Entry(section, listed[k]);
        LoadedStep(all[..n], all[n], motorParameters);
        refused := ReadEntry(Entry(section, listed[k]));
        if refused != None {
          assert all == all[..n + 1] + all[n + 1..];
          RefusedEarly(all[..n + 1], all[n + 1..], motorParameters);
          return;
        }
      }
      assert all[..|all|] == all;
      return None;
    }

    /** The configuration, or the first complaint: parameters first, then the CAN slaves, the ECAT slaves
        and the placements. */
    method LoadConfig(elements: seq<(int, MotorParameters)>, canSlaves: seq<MotorConfig>, ecatSlaves: seq<MotorConfig>,
                      placements: seq<MotorConfig>)
      returns (refused: Option<LoadError>)
      requires motors == []
      modifies this
      ensures motorParameters == ParameterMap(elements) && IsTotal(totalMotorCount, motorParameters)
      ensures refused == None <==> AllAccepted(FileOrder(canSlaves, ecatSlaves, placements), motorParameters)
      ensures refused == None ==> motors == Loaded(FileOrder(canSlaves, ecatSlaves, placements), motorParameters)
    {
      ReadMotorParameterMap(elements);
      ghost var can, ecat := Entries(CanSlave, canSlaves), Entries(EcatSlave, ecatSlaves);
      assert [] + can == can;
      refused := ReadSection(CanSlave, canSlaves, []);
      if refused != None {
        RefusedEarly(can, ecat + Entries(Placement, placements), motorParameters);
        assert can + (ecat + Entries(Placement, placements)) == FileOrder(canSlaves, ecatSlaves, placements);
        return;
      }
      refused := ReadSection(EcatSlave, ecatSlaves, can);
      if refused != None {
        RefusedEarly(can + ecat, Entries(Placement, placements), motorParameters);
        return;
      }
      refused := ReadSection(Placement, placements, can + ecat);
    }
  }

  // ----- what a loaded configuration guarantees

  ghost predicate ConfigOk(total: int, motors: seq<MotorConfig>) {
    UniqueAliases(motors) && forall m :: m in motors ==> 1 <= m.alias <= total
  }

  lemma {:induction false} LoadedAliases(entries: seq<Entry>, parameters: map<int, MotorParameters>)
    requires AllAccepted(entries, parameters)
    ensures forall m :: m in Loaded(entries, parameters) ==> m.alias in parameters && m.parameters == parameters[m.alias]
  {
    hide Refusal;
    if entries != [] {
      var n, e := |entries| - 1, entries[|entries| - 1];
      assert e in entries;
      LoadedAliases(entries[..n], parameters);
      AcceptedHasParameters(e, parameters);
    }
  }

  /** Every configuration that loads has unique aliases between 1 and the total motor count, each
      with the parameters of its alias. */
  lemma LoadedConfigOk(entries: seq<Entry>, parameters: map<int, MotorParameters>, total: int)
    requires AllAccepted(entries, parameters) && IsTotal(total, parameters)
    ensures ConfigOk(total, Loaded(entries, parameters))
    ensures forall m :: m in Loaded(entries, parameters) ==> m.alias in parameters && m.parameters == parameters[m.alias]
  {
    hide Loaded, Refusal;
    LastEntryWins(entries, parameters, 0);
    LoadedAliases(entries, parameters);
  }
}

/** The registry of motors: one group for each bus and master. */
module MotorRegistry {
  import opened RmdTypes
  import opened MotorConfiguration

  datatype BackendGroup = BackendGroup(bus: MotorBus, master: int, motorIndexes: seq<nat>)

  datatype Registry = Registry(totalMotorCount: int, motors: seq<RuntimeMotor>, backends: seq<BackendGroup>)

  type Key = (MotorBus, int)

  function KeyOf(g: BackendGroup): Key {
    (g.bus, g.master)
  }

  /** The runtime motor made of a configured one. */
  ghost predicate Represents(r: RuntimeMotor, m: MotorConfig) {
    && r.alias == m.alias && m.alias > 0 && r.globalIndex == m.alias - 1
    && r.bus == m.bus && r.master == m.master && r.motorId == m.motorId && r.slaveId == m.slaveId
    && r.ethercatSlave == m.ethercatSlave && r.domain == m.domain && r.kind == m.kind && r.parameters == m.parameters
  }

  /** Motor i stands in the group it names, at the place it names. */
  ghost predicate PointsBack(reg: Registry, i: nat)
    requires i < |reg.motors|
  {
    var m := reg.motors[i];
    m.backendIndex < |reg.backends| &&
    var g := reg.backends[m.backendIndex];
    && g.bus == m.bus && g.master == m.master
    && m.backendLocalIndex < |g.motorIndexes| && g.motorIndexes[m.backendLocalIndex] == i
  }

  /** Place l of group g holds a motor that names just this place. */
  ghost predicate PointsForward(reg: Registry, g: nat, l: nat)
    requires g < |reg.backends| && l < |reg.backends[g].motorIndexes|
  {
    var i := reg.backends[g].motorIndexes[l];
    i < |reg.motors| && reg.motors[i].backendIndex == g && reg.motors[i].backendLocalIndex == l
  }

  ghost predicate UniqueKeys(backends: seq<BackendGroup>) {
    forall g, h :: 0 <= g < h < |backends| ==> KeyOf(backends[g]) != KeyOf(backends[h])
  }

  /** The groups partition the motors: every motor has one place, every place one motor, no two groups
      share their key, none is empty. */
  ghost predicate Partition(reg: Registry) {
    && (forall i :: 0 <= i < |reg.motors| ==> PointsBack(reg, i))
    && (forall g, l :: 0 <= g < |reg.backends| && 0 <= l < |reg.backends[g].motorIndexes| ==> PointsForward(reg, g, l))
    && (forall g :: 0 <= g < |reg.backends| ==> reg.backends[g].motorIndexes != [])
    && UniqueKeys(reg.backends)
  }

  ghost predicate IsRegistry(total: int, configs: seq<MotorConfig>, reg: Registry) {
    && reg.totalMotorCount == total && |reg.motors| == |configs|
    && (forall i :: 0 <= i < |configs| ==> Represents(reg.motors[i], configs[i]))
    && Partition(reg)
  }

  /** The map built beside the groups finds each group by its key. */
  ghost predicate Indexed(backends: seq<BackendGroup>, byKey: map<Key, nat>) {
    && (forall k :: k in byKey ==> byKey[k] < |backends| && KeyOf(backends[byKey[k]]) == k)
    && (forall g :: 0 <= g < |backends| ==> KeyOf(backends[g]) in byKey && byKey[KeyOf(backends[g])] == g)
  }

  function AppendMotor(reg: Registry, g: nat, m: RuntimeMotor): Registry
    requires g < |reg.backends|
  {
    var group := reg.backends[g].(motorIndexes := reg.backends[g].motorIndexes + [|reg.motors|]);
    reg.(motors := reg.motors + [m], backends := reg.backends[g := group])
  }

  /** The partition while a group just created waits for its first motor. */
  ghost predicate PartitionBut(reg: Registry, pending: nat) {
    && (forall i :: 0 <= i < |reg.motors| ==> PointsBack(reg, i))
    && (forall g, l :: 0 <= g < |reg.backends| && 0 <= l < |reg.backends[g].motorIndexes| ==> PointsForward(reg, g, l))
    && (forall g :: 0 <= g < |reg.backends| && g != pending ==> reg.backends[g].motorIndexes != [])
  }

  lemma AppendKeepsPartition(reg: Registry, g: nat, m: RuntimeMotor, byKey: map<Key, nat>)
    requires PartitionBut(reg, g) && Indexed(reg.backends, byKey) && g < |reg.backends|
    requires m.backendIndex == g && m.backendLocalIndex == |reg.backends[g].motorIndexes|
    requires m.bus == reg.backends[g].bus && m.master == reg.backends[g].master
    ensures Partition(AppendMotor(reg, g, m)) && Indexed(AppendMotor(reg, g, m).backends, byKey)
  {
    var r := AppendMotor(reg, g, m);
    forall i | 0 <= i < |r.motors| ensures PointsBack(r, i) {
      if i < |reg.motors| {
        assert PointsBack(reg, i);
      }
    }
    forall h, l | 0 <= h < |r.backends| && 0 <= l < |r.backends[h].motorIndexes| ensures PointsForward(r, h, l) {
      if h != g || l < |reg.backends[g].motorIndexes| {
        assert PointsForward(reg, h, l);
      }
    }
    forall h | 0 <= h < |r.backends| ensures KeyOf(r.backends[h]) == KeyOf(reg.backends[h]) {
    }
  }

  lemma NewGroupKeepsPartition(reg: Registry, group: BackendGroup, byKey: map<Key, nat>)
    requires Partition(reg) && Indexed(reg.backends, byKey) && KeyOf(group) !in byKey && group.motorIndexes == []
    ensures var backends := reg.backends + [group];
            && PartitionBut(reg.(backends := backends), |reg.backends|)
            && Indexed(backends, byKey[KeyOf(group) := |reg.backends|])
  {
    var r := reg.(backends := reg.backends + [group]);
    forall i | 0 <= i < |r.motors| ensures PointsBack(r, i) {
      assert PointsBack(reg, i);
    }
    forall h, l | 0 <= h < |r.backends| && 0 <= l < |r.backends[h].motorIndexes| ensures PointsForward(r, h, l) {
      assert PointsForward(reg, h, l);
    }
  }

  predicate InTotal(m: MotorConfig, total: int) {
    1 <= m.alias <= total
  }

  /** MotorRegistry::fromConfig: refuses a configuration exactly when an alias is out of range. */
  method FromConfig(total: int, configs: seq<MotorConfig>) returns (reg: Option<Registry>)
    ensures reg.Some? <==> forall m :: m in configs ==> InTotal(m, total)
    ensures reg.Some? ==> IsRegistry(total, configs, reg.value)
  {
    var registry := Registry(total, [], []);
    var backendByKey: map<Key, nat> := map[];
    for k := 0 to |configs|
      invariant registry.totalMotorCount == total && |registry.motors| == k
      invariant forall i :: 0 <= i < k ==> InTotal(configs[i], total) && Represents(registry.motors[i], configs[i])
      invariant Partition(registry) && Indexed(registry.backends, backendByKey)
    {
      var motor := configs[k];
      if motor.alias <= 0 || motor.alias > total {
        assert motor in configs && !InTotal(motor, total);
        return None;
      }
      registry, backendByKey := AddMotor(registry, backendByKey, motor);
    }
    return Some(registry);
  }

  /** One pass of the loop. */
  method AddMotor(reg: Registry, byKey: map<Key, nat>, motor: MotorConfig) returns (after: Registry, keys: map<Key, nat>)
    requires Partition(reg) && Indexed(reg.backends, byKey) && motor.alias > 0
    ensures Partition(after) && Indexed(after.backends, keys)
    ensures after.totalMotorCount == reg.totalMotorCount && |after.motors| == |reg.motors| + 1
    ensures after.motors[..|reg.motors|] == reg.motors && Represents(after.motors[|reg.motors|], motor)
  {
    var key := (motor.bus, motor.master);
    after, keys := reg, byKey;
    if key !in keys {
      var group := BackendGroup(motor.bus, motor.master, []);
      NewGroupKeepsPartition(reg, group, byKey);
      after := after.(backends := after.backends + [group]);
      keys := keys[key := |after.backends| - 1];
    }
    var g := keys[key];
    var runtime := RuntimeMotor(motor.alias, motor.alias - 1, g, |after.backends[g].motorIndexes|,
                                motor.bus, motor.master, motor.motorId, motor.slaveId, motor.ethercatSlave, motor.domain,
                                motor.kind, motor.parameters);
    AppendKeepsPartition(after, g, runtime, keys);
    after := AppendMotor(after, g, runtime);
  }

  /** A configuration that loaded is never refused. */
  lemma LoadedNeverRefused(entries: seq<Entry>, parameters: map<int, MotorParameters>, total: int)
    requires AllAccepted(entries, parameters) && IsTotal(total, parameters)
    ensures forall m :: m in Loaded(entries, parameters) ==> InTotal(m, total)
  {
    LoadedConfigOk(entries, parameters, total);
  }

  /** Motors that do not share a bus and master are in different groups, and those that do are in one. */
  lemma GroupedByKey(total: int, configs: seq<MotorConfig>, reg: Registry, i: nat, j: nat)
    requires IsRegistry(total, configs, reg) && i < |configs| && j < |configs|
    ensures reg.motors[i].backendIndex == reg.motors[j].backendIndex <==>
              configs[i].bus == configs[j].bus && configs[i].master == configs[j].master
  {
    assert PointsBack(reg, i) && PointsBack(reg, j);
    assert Represents(reg.motors[i], configs[i]) && Represents(reg.motors[j], configs[j]);
  }

  ghost predicate DistinctIndexes(motors: seq<RuntimeMotor>) {
    forall i, j :: 0 <= i < j < |motors| ==> motors[i].globalIndex != motors[j].globalIndex
  }

  lemma IndexesDistinct(total: int, configs: seq<MotorConfig>, reg: Registry)
    requires IsRegistry(total, configs, reg) && ConfigOk(total, configs)
    ensures DistinctIndexes(reg.motors)
    ensures forall i :: 0 <= i < |reg.motors| ==> reg.motors[i].globalIndex < total
  {
    forall i | 0 <= i < |reg.motors| ensures reg.motors[i].globalIndex < total && reg.motors[i].globalIndex == configs[i].alias - 1 {
      assert Represents(reg.motors[i], configs[i]) && configs[i] in configs;
    }
  }
}
