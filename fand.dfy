/** The fan daemon's own state (fand.c, fand-locl.h): the subsystem table,
    the global fan index, the change-sequence number and the one-shot cur_hw
    flag, and the passes that keep them in step with the database and publish
    the fans' readback. The database is abstract: a pass is handed the
    subsystems it reports, the fan rows it holds and the daemon rows it
    holds, and publishing returns the column writes it makes. */
module Fand {
  import opened Tables
  import opened ConfigYaml
  import PhysFan
  import FanSpeed
  import FanStatus
  import FanDirection

  /** Where the catalog is looked for when a subsystem names no directory. */
  const DefaultYamlDir: string := "/usr/local/halon/platform/hwdesc"

  /** The row of the daemon table whose cur_hw column this daemon sets. */
  const NameInDaemonTable: string := "fand"

  /** The other_config key holding the administrative speed override. */
  const OverrideKey: string := "fan_speed_override"

  /* ---------------- fan names ---------------- */

  /** The global name of a catalog fan: "<subsystem>-<fan>". */
  function FanKey(subsystem: string, fan: string): (k: string)
    ensures |k| == |subsystem| + 1 + |fan|
    ensures k[..|subsystem|] == subsystem && k[|subsystem|] == '-' && k[|subsystem| + 1..] == fan
  {
    subsystem + "-" + fan
  }

  /** `a` followed by a dash starts `b`: the only way two subsystems'
      namespaced fan names can meet. */
  predicate DashPrefix(a: string, b: string)
  {
    a + "-" <= b
  }

  /** No subsystem name followed by a dash starts another one. */
  predicate NamespacesDisjoint(names: set<string>)
  {
    forall a, b :: a in names && b in names ==> !DashPrefix(a, b)
  }

  /** Fans of different subsystems whose names are not dash-prefixes of each
      other never share a global name. */
  lemma FanKeyInjective(a: string, f: string, b: string, g: string)
    requires !DashPrefix(a, b) && !DashPrefix(b, a)
    ensures FanKey(a, f) == FanKey(b, g) <==> a == b && f == g
  {
  }

  /* ---------------- sensor demand ---------------- */

  /** What the temperature sensors of a subsystem demand: the largest parsed
      fan_state, starting from SLOW; unrecognised states parse as NONE and so
      never raise it. */
  function SensorDemand(states: seq<Option<string>>): (d: int)
  {
    if states == [] then FanSpeed.SLOW
    else
      var rest := SensorDemand(states[..|states| - 1]);
      var s := FanSpeed.FromString(states[|states| - 1]);
      if s > rest then s else rest
  }

  /** The demand is a level, at least SLOW and at least every sensor's
      parsed state, and it is one of them unless it is SLOW. */
  lemma {:induction false} SensorDemandIsMax(states: seq<Option<string>>)
    ensures FanSpeed.IsLevel(SensorDemand(states))
    ensures forall i :: 0 <= i < |states| ==> FanSpeed.FromString(states[i]) <= SensorDemand(states)
    ensures SensorDemand(states) == FanSpeed.SLOW
            || exists i :: 0 <= i < |states| && FanSpeed.FromString(states[i]) == SensorDemand(states)
  {
    if states != [] {
      var init := states[..|states| - 1];
      SensorDemandIsMax(init);
      assert forall i :: 0 <= i < |init| ==> states[i] == init[i];
    }
  }

  /** A sensor whose state is not recognised does not change the demand. */
  lemma UnknownStateIgnored(states: seq<Option<string>>, unknown: Option<string>)
    requires FanSpeed.FromString(unknown) == FanSpeed.NONE
    ensures SensorDemand(states + [unknown]) == SensorDemand(states)
  {
    assert (states + [unknown])[..|states|] == states;
    SensorDemandIsMax(states);
  }

  /** fand.c:511-528: the loop over the temperature sensors. */
  method HighestSensorSpeed(states: seq<Option<string>>) returns (highest: int)
    ensures highest == SensorDemand(states)
  {
    highest := FanSpeed.SLOW;
    for i := 0 to |states|
      invariant highest == SensorDemand(states[..i])
    {
      var speed := FanSpeed.FromString(states[i]);
      assert states[..i + 1][..i] == states[..i];
      if speed > highest {
        highest := speed;
      }
    }
    assert states[..|states|] == states;
  }

  /* ---------------- records ---------------- */

  /** struct locl_subsystem, as the value filed in subsystem_data: `fans`
      holds the global names of its fans (subsystem_fans) and `catalog` the
      part of the YAML handle that describes it. parent_subsystem is always
      NULL in the source and is not modelled. */
  datatype Subsystem = Subsystem(
    name: string,
    marked: bool,
    valid: bool,
    fanSpeed: int,          // demanded by the temperature sensors
    fanSpeedOverride: int,  // configured by the administrator
    speed: int,             // resolved from the two
    multiplier: int,
    fans: set<string>,
    catalog: SubsystemCatalog)

  /** struct locl_fan, as the value filed in fan_data. `subsystem` names its
      owner. */
  datatype Fan = Fan(
    name: string,
    subsystem: string,
    yamlFan: YamlFan,
    speed: int,
    direction: string,
    rpm: int,
    status: int)

  /** The zero-filled record add_subsystem starts from (fand.c:135-142). */
  function ZeroSubsystem(name: string): (s: Subsystem)
    ensures s.name == name && !s.marked && !s.valid && s.fans == {}
  {
    Subsystem(name, false, false, 0, 0, 0, 0, {}, EmptyCatalog)
  }

  /** A fan as add_subsystem creates it (fand.c:239-242). The source leaves
      its readback fields unset until the first pass; the model starts them
      at the values add_subsystem writes to the fan's row (fand.c:254-259). */
  function NewFan(subsystem: string, yf: YamlFan): (f: Fan)
    ensures f.name == FanKey(subsystem, yf.name) && f.subsystem == subsystem && f.yamlFan == yf
  {
    Fan(FanKey(subsystem, yf.name), subsystem, yf, FanSpeed.NORMAL,
        FanDirection.Names[FanDirection.F2B], 0, FanStatus.UNINITIALIZED)
  }

  /** The fans add_subsystem creates for a sequence of catalog fans, by
      global name. */
  function FanMap(subsystem: string, fans: seq<YamlFan>): map<string, Fan>
  {
    if fans == [] then map[]
    else
      var yf := fans[|fans| - 1];
      FanMap(subsystem, fans[..|fans| - 1])[FanKey(subsystem, yf.name) := NewFan(subsystem, yf)]
  }

  /** Each fan created is filed under its own global name, belongs to the
      subsystem and comes from one of the catalog fans. */
  lemma {:induction false} FanMapEntries(subsystem: string, fans: seq<YamlFan>)
    ensures forall k :: k in FanMap(subsystem, fans) ==>
      var f := FanMap(subsystem, fans)[k];
      f.yamlFan in fans && f == NewFan(subsystem, f.yamlFan) && k == f.name
  {
    if fans != [] {
      var init := fans[..|fans| - 1];
      FanMapEntries(subsystem, init);
      assert forall f :: f in init ==> f in fans;
    }
  }

  /** Creating one more fan files it under its global name. */
  lemma FanMapSnoc(subsystem: string, fans: seq<YamlFan>, yf: YamlFan)
    ensures FanMap(subsystem, fans + [yf]) == FanMap(subsystem, fans)[FanKey(subsystem, yf.name) := NewFan(subsystem, yf)]
  {
    assert (fans + [yf])[..|fans|] == fans;
  }

  /** With distinct catalog names, every catalog fan gets a fan of its own. */
  lemma {:induction false} FanMapHolds(subsystem: string, fans: seq<YamlFan>, p: nat)
    requires DistinctNames(fans) && p < |fans|
    ensures FanKey(subsystem, fans[p].name) in FanMap(subsystem, fans)
    ensures FanMap(subsystem, fans)[FanKey(subsystem, fans[p].name)] == NewFan(subsystem, fans[p])
    decreases |fans|
  {
    var init := fans[..|fans| - 1];
    if p < |init| {
      DistinctNamesAt(fans, p, |fans| - 1);
      FanKeyInjective(subsystem, fans[p].name, subsystem, fans[|fans| - 1].name);
      FanMapHolds(subsystem, init, p);
      assert init[p] == fans[p];
    }
  }

  /* ---------------- reported subsystems ---------------- */

  /** What a pass reads from one Subsystem row of the database: its name,
      hw_desc_dir, other_config and the fan_state of each of its temperature
      sensors. */
  datatype ReportedSubsystem = ReportedSubsystem(
    name: string,
    hwDescDir: Option<string>,
    otherConfig: map<string, string>,
    tempSensorStates: seq<Option<string>>)

  /** The directory the catalog is loaded from: hw_desc_dir, or the default
      when it is missing or empty. */
  function CatalogDir(r: ReportedSubsystem): (dir: string)
    ensures r.hwDescDir.Some? && r.hwDescDir.value != "" ==> dir == r.hwDescDir.value
    ensures r.hwDescDir.None? || r.hwDescDir.value == "" ==> dir == DefaultYamlDir
  {
    if r.hwDescDir.None? || |r.hwDescDir.value| == 0 then DefaultYamlDir else r.hwDescDir.value
  }

  /** smap_get(other_config, "fan_speed_override"). */
  function OverrideOf(r: ReportedSubsystem): (s: Option<string>)
    ensures s.Some? <==> OverrideKey in r.otherConfig
    ensures s.Some? ==> s.value == r.otherConfig[OverrideKey]
  {
    if OverrideKey in r.otherConfig then Some(r.otherConfig[OverrideKey]) else None
  }

  /** add_subsystem ends with a valid subsystem: the catalog loads, has fan
      info and at least one fan FRU. */
  predicate LoadAccepts(load: CatalogLoader, r: ReportedSubsystem)
  {
    var c := load(r.name, CatalogDir(r));
    c.Some? && c.value.info.Some? && |c.value.frus| > 0
  }

  /** Every catalog the loader produces names its fans distinctly. */
  ghost predicate LoaderFansDistinct(load: CatalogLoader)
  {
    forall n, d :: load(n, d).Some? ==> FanNamesDistinct(load(n, d).value)
  }

  /** The fans of FRU `i` follow those of the FRUs before it. */
  lemma AllFansStep(frus: seq<YamlFanFru>, i: nat)
    requires i < |frus|
    ensures AllFans(frus[..i + 1]) == AllFans(frus[..i]) + frus[i].fans
  {
    assert frus[..i + 1][..i] == frus[..i];
  }

  /* ---------------- index consistency ---------------- */

  /** A fan filed in fan_data under `k` names itself `k`, belongs to a filed
      subsystem that lists it, and lives in that subsystem's namespace. */
  ghost predicate Filed(subs: map<string, Subsystem>, f: Fan, k: string)
  {
    && f.name == k
    && f.subsystem in subs
    && k in subs[f.subsystem].fans
    && k == FanKey(f.subsystem, f.yamlFan.name)
  }

  /** The daemon's two tables agree: each subsystem is filed under its own
      name and the names do not overlap as namespaces; fan_data holds exactly
      the fans the subsystems list, each owned by the subsystem that lists
      it; and a subsystem with fans has fan info. */
  ghost predicate Consistent(subs: map<string, Subsystem>, fans: map<string, Fan>)
  {
    && (forall n :: n in subs ==> subs[n].name == n)
    && NamespacesDisjoint(subs.Keys)
    && (forall n, k :: n in subs && k in subs[n].fans ==> k in fans && fans[k].subsystem == n)
    && (forall k :: k in fans ==> Filed(subs, fans[k], k))
    && (forall n :: n in subs && subs[n].fans != {} ==> subs[n].catalog.info.Some?)
  }

  /** Filing a new subsystem with the fans made for it keeps the tables
      consistent, provided its name opens a namespace of its own. */
  lemma AddKeepsConsistent(subs: map<string, Subsystem>, fans: map<string, Fan>, s: Subsystem, m: map<string, Fan>)
    requires Consistent(subs, fans)
    requires s.name !in subs && NamespacesDisjoint(subs.Keys + {s.name})
    requires s.fans == m.Keys && (s.fans != {} ==> s.catalog.info.Some?)
    requires forall k :: k in m ==> m[k].name == k && m[k].subsystem == s.name && k == FanKey(s.name, m[k].yamlFan.name)
    ensures Consistent(subs[s.name := s], fans + m)
  {
    var subs' := subs[s.name := s];
    var fans' := fans + m;
    forall k | k in fans
      ensures k !in m
    {
      var f := fans[k];
      forall g
        ensures FanKey(s.name, g) != k
      {
        FanKeyInjective(s.name, g, f.subsystem, f.yamlFan.name);
      }
    }
    forall n, k | n in subs' && k in subs'[n].fans
      ensures k in fans' && fans'[k].subsystem == n
    {
      if n != s.name {
        assert k in fans && k !in m;
      }
    }
    forall k | k in fans'
      ensures Filed(subs', fans'[k], k)
    {
      if k !in m {
        assert Filed(subs, fans[k], k);
      }
    }
    assert subs'.Keys == subs.Keys + {s.name};
  }

  /* ---------------- speed and readback of one record ---------------- */

  /** fand_set_fanspeed (src/physfan.c:55-205): record the resolved speed,
      then drive the speed-control register if the catalog allows it. */
  method SetFanspeed(s: Subsystem, io: I2cOracle) returns (t: Subsystem, ops: seq<I2cCommand>)
    ensures t == s.(speed := PhysFan.ResolveSpeed(s.fanSpeed, s.fanSpeedOverride))
    ensures ops == PhysFan.SpeedControlOps(s.name, s.catalog, t.speed, io)
  {
    var speed := s.fanSpeedOverride;
    if speed == FanSpeed.NONE || s.fanSpeed == FanSpeed.MAX {
      speed := s.fanSpeed;
    }
    if speed == FanSpeed.NONE {
      speed := FanSpeed.NORMAL;
    }
    t := s.(speed := speed);
    var c := s.catalog;
    if c.info.None? {
      return t, [];
    }
    var regOp := c.info.value.fanSpeedControl;
    if regOp.None? {
      return t, [];
    }
    var code := PhysFan.SpeedCode(c.info.value.fanSpeedSettings, speed);
    if regOp.value.device !in c.devices {
      return t, [];
    }
    if !PhysFan.ValidSize(regOp.value.registerSize) {
      return t, [];
    }
    var req := I2cRequest(s.name, regOp.value.device, regOp.value.registerAddress, regOp.value.registerSize);
    ops := [Read(req)];
    var answer := io(req);
    if answer.Failed? {
      return;
    }
    var w := PhysFan.WidthMask(regOp.value.registerSize);
    var value := PhysFan.ReadModifyWrite(answer.data, regOp.value.bitMask, code, w);
    ops := ops + [Write(req, value)];
  }

  /** fand_read_fan_status (src/physfan.c:520-528): the scaled tachometer
      reading, the fault status and the airflow direction of a fan of `s`;
      its identity and speed are left alone. */
  function ReadFanStatus(f: Fan, s: Subsystem, io: I2cOracle): (g: Fan)
    requires PhysFan.HasDirectionDetect(s.catalog, f.yamlFan) ==> s.catalog.info.Some?
    ensures g.name == f.name && g.subsystem == f.subsystem && g.yamlFan == f.yamlFan && g.speed == f.speed
    ensures g.rpm == PhysFan.ReadRpm(s.name, f.yamlFan, io) * s.multiplier
    ensures g.status == PhysFan.ReadStatus(s.name, f.yamlFan, io) && FanStatus.IsStatus(g.status)
    ensures g.direction == PhysFan.ReadDirection(s.name, s.catalog, f.yamlFan, io) && g.direction in FanDirection.Names
  {
    f.(rpm := PhysFan.ReadRpm(s.name, f.yamlFan, io) * s.multiplier,
       status := PhysFan.ReadStatus(s.name, f.yamlFan, io),
       direction := PhysFan.ReadDirection(s.name, s.catalog, f.yamlFan, io))
  }

  /* ---------------- what add_subsystem creates ---------------- */

  /** The record add_subsystem leaves filed for `r` (fand.c:117-275): the
      override and NORMAL are always set; the catalog, the multiplier, the
      fans and the speed only as far as loading gets. */
  function Added(r: ReportedSubsystem, load: CatalogLoader): Subsystem
  {
    var base := ZeroSubsystem(r.name).(fanSpeedOverride := FanSpeed.FromString(OverrideOf(r)), fanSpeed := FanSpeed.NORMAL);
    var loaded := load(r.name, CatalogDir(r));
    if loaded.None? then base
    else if loaded.value.info.None? then base.(catalog := loaded.value)
    else
      var c := loaded.value;
      var withInfo := base.(catalog := c, multiplier := c.info.value.fanSpeedMultiplier);
      if |c.frus| == 0 then withInfo
      else withInfo.(valid := true, fans := FanMap(r.name, AllFans(c.frus)).Keys,
                     speed := PhysFan.ResolveSpeed(FanSpeed.NORMAL, base.fanSpeedOverride))
  }

  /** The fans add_subsystem files for `r`. */
  function AddedFans(r: ReportedSubsystem, load: CatalogLoader): (m: map<string, Fan>)
    ensures m.Keys == Added(r, load).fans
  {
    if Added(r, load).valid then FanMap(r.name, AllFans(load(r.name, CatalogDir(r)).value.frus)) else map[]
  }

  /** What add_subsystem promises about the record: it is valid exactly when
      the catalog loads with fan info and fan FRUs; an invalid record has no
      fans and no speed; a valid one drives the override (or NORMAL) at a
      concrete level and has one fan per catalog fan, named
      "<subsystem>-<fan>", when the catalog names its fans distinctly. */
  lemma AddedRecord(r: ReportedSubsystem, load: CatalogLoader)
    ensures Added(r, load).name == r.name && !Added(r, load).marked
    ensures Added(r, load).fanSpeed == FanSpeed.NORMAL
    ensures Added(r, load).fanSpeedOverride == FanSpeed.NONE <==> OverrideOf(r).None? || OverrideOf(r).value !in FanSpeed.Names
    ensures Added(r, load).valid <==> LoadAccepts(load, r)
    ensures !Added(r, load).valid ==> Added(r, load).fans == {} && Added(r, load).speed == 0
    ensures Added(r, load).valid ==> FanSpeed.IsLevel(Added(r, load).speed)
    ensures Added(r, load).valid && Added(r, load).fanSpeedOverride != FanSpeed.NONE ==> Added(r, load).speed == Added(r, load).fanSpeedOverride
    ensures Added(r, load).valid && LoaderFansDistinct(load) ==>
      var all := AllFans(Added(r, load).catalog.frus);
      forall p :: 0 <= p < |all| ==>
        FanKey(r.name, all[p].name) in AddedFans(r, load) && AddedFans(r, load)[FanKey(r.name, all[p].name)] == NewFan(r.name, all[p])
  {
    if Added(r, load).valid && LoaderFansDistinct(load) {
      var all := AllFans(Added(r, load).catalog.frus);
      forall p | 0 <= p < |all|
        ensures FanKey(r.name, all[p].name) in AddedFans(r, load)
        ensures AddedFans(r, load)[FanKey(r.name, all[p].name)] == NewFan(r.name, all[p])
      {
        FanMapHolds(r.name, all, p);
      }
    }
  }

  /* ---------------- a reconfiguration pass ---------------- */

  /** Two subsystem tables that differ at most in the fields a pass
      rewrites (marks, sensor demand, override and speed). */
  ghost predicate SameIndex(subs: map<string, Subsystem>, subs2: map<string, Subsystem>)
  {
    && subs.Keys == subs2.Keys
    && forall n :: n in subs ==>
         subs2[n].name == subs[n].name && subs2[n].fans == subs[n].fans && subs2[n].catalog == subs[n].catalog
  }

  /** Rewriting those fields keeps the tables consistent. */
  lemma SameIndexConsistent(subs: map<string, Subsystem>, subs2: map<string, Subsystem>, fans: map<string, Fan>)
    requires Consistent(subs, fans) && SameIndex(subs, subs2)
    ensures Consistent(subs2, fans)
  {
    forall k | k in fans
      ensures Filed(subs2, fans[k], k)
    {
      assert Filed(subs, fans[k], k);
    }
  }

  /** Rewriting those fields of one record keeps the tables consistent. */
  lemma RewriteKeepsConsistent(subs: map<string, Subsystem>, fans: map<string, Fan>, n: string, s: Subsystem)
    requires Consistent(subs, fans) && n in subs
    requires s.name == subs[n].name && s.fans == subs[n].fans && s.catalog == subs[n].catalog
    ensures Consistent(subs[n := s], fans)
  {
    SameIndexConsistent(subs, subs[n := s], fans);
  }

  /** The table after fand_unmark_subsystems. */
  function Unmarked(subs: map<string, Subsystem>): (u: map<string, Subsystem>)
  {
    map n | n in subs :: subs[n].(marked := false)
  }

  /** The subsystems the sweep keeps: the marked ones. */
  function MarkedOnly(subs: map<string, Subsystem>): (m: map<string, Subsystem>)
  {
    map n | n in subs && subs[n].marked :: subs[n]
  }

  /** The fans whose owner is filed in `subs`. */
  function FansOf(fans: map<string, Fan>, subs: map<string, Subsystem>): map<string, Fan>
  {
    map k | k in fans && fans[k].subsystem in subs :: fans[k]
  }

  /** Deleting a subsystem together with the fans it lists keeps the tables
      consistent and leaves exactly the fans of the other subsystems. */
  lemma RemoveKeepsConsistent(subs: map<string, Subsystem>, fans: map<string, Fan>, n: string)
    requires Consistent(subs, fans) && n in subs
    ensures fans - subs[n].fans == FansOf(fans, subs - {n})
    ensures Consistent(subs - {n}, fans - subs[n].fans)
  {
    var subs' := subs - {n};
    var fans' := fans - subs[n].fans;
    forall k | k in fans
      ensures k in subs[n].fans <==> fans[k].subsystem == n
    {
      assert Filed(subs, fans[k], k);
    }
    forall k | k in fans'
      ensures Filed(subs', fans'[k], k)
    {
      assert Filed(subs, fans[k], k);
    }
    assert forall m :: m in subs' ==> m in subs;
  }

  /** Restricting the fans to a smaller table in two steps is one step. */
  lemma FansOfNarrow(fans: map<string, Fan>, subs: map<string, Subsystem>, smaller: map<string, Subsystem>)
    requires smaller.Keys <= subs.Keys
    ensures FansOf(FansOf(fans, subs), smaller) == FansOf(fans, smaller)
  {
  }

  /** A consistent table already holds only fans of filed subsystems. */
  lemma FansOfAll(fans: map<string, Fan>, subs: map<string, Subsystem>)
    requires Consistent(subs, fans)
    ensures FansOf(fans, subs) == fans
  {
    forall k | k in fans
      ensures fans[k].subsystem in subs
    {
      assert Filed(subs, fans[k], k);
    }
  }

  /** The record get_subsystem finds for `r`, adding it when it is new. */
  function Known(subs: map<string, Subsystem>, r: ReportedSubsystem, load: CatalogLoader): Subsystem
  {
    if r.name in subs then subs[r.name] else Added(r, load)
  }

  /** The fans get_subsystem creates for `r`. */
  function KnownFans(subs: map<string, Subsystem>, r: ReportedSubsystem, load: CatalogLoader): map<string, Fan>
  {
    if r.name in subs then map[] else AddedFans(r, load)
  }

  /** The I2C commands add_subsystem issues for `r`: the speed-control
      commands of the new record when it is valid, none otherwise. */
  function AddOps(r: ReportedSubsystem, load: CatalogLoader, io: I2cOracle): seq<I2cCommand>
  {
    if Added(r, load).valid
    then PhysFan.SpeedControlOps(r.name, Added(r, load).catalog, Added(r, load).speed, io)
    else []
  }

  /** The I2C commands the rest of a visit issues for a valid record `s`:
      the speed-control commands for its visited speed. */
  function VisitOps(s: Subsystem, r: ReportedSubsystem, io: I2cOracle): seq<I2cCommand>
  {
    PhysFan.SpeedControlOps(s.name, s.catalog, Visited(s, r).speed, io)
  }

  /** What fand_reconfigure does to a valid record of a reported subsystem
      (fand.c:511-542): the sensor demand, the configured override (NONE when
      absent or unknown), the speed resolved from them, and the mark. */
  function Visited(s: Subsystem, r: ReportedSubsystem): (v: Subsystem)
  {
    var demand := SensorDemand(r.tempSensorStates);
    var override := FanSpeed.FromString(OverrideOf(r));
    s.(fanSpeed := demand, fanSpeedOverride := override,
       speed := PhysFan.ResolveSpeed(demand, override), marked := true)
  }

  /** A visited record drives a concrete level: MAX whenever a sensor asks
      for it, otherwise a recognised override, otherwise the sensor demand. */
  lemma VisitedSpeed(s: Subsystem, r: ReportedSubsystem)
    ensures FanSpeed.IsLevel(Visited(s, r).speed) && Visited(s, r).marked
    ensures SensorDemand(r.tempSensorStates) == FanSpeed.MAX ==> Visited(s, r).speed == FanSpeed.MAX
    ensures SensorDemand(r.tempSensorStates) != FanSpeed.MAX && FanSpeed.FromString(OverrideOf(r)) != FanSpeed.NONE ==>
              Visited(s, r).speed == FanSpeed.FromString(OverrideOf(r))
    ensures FanSpeed.FromString(OverrideOf(r)) == FanSpeed.NONE ==> Visited(s, r).speed == SensorDemand(r.tempSensorStates)
  {
    SensorDemandIsMax(r.tempSensorStates);
  }

  /** The names of the reported subsystems. */
  function ReportedNames(reported: seq<ReportedSubsystem>): set<string>
  {
    set r | r in reported :: r.name
  }

  /** One step of the subsystem loop of fand_reconfigure on the table. */
  function VisitStep(subs: map<string, Subsystem>, r: ReportedSubsystem, load: CatalogLoader): map<string, Subsystem>
  {
    var s := Known(subs, r, load);
    subs[r.name := if s.valid then Visited(s, r) else s]
  }

  /** The subsystem table after the loop has visited `reported`, in order. */
  function Visits(subs: map<string, Subsystem>, reported: seq<ReportedSubsystem>, load: CatalogLoader): map<string, Subsystem>
  {
    if reported == [] then subs
    else VisitStep(Visits(subs, reported[..|reported| - 1], load), reported[|reported| - 1], load)
  }

  /** fan_data after the loop has visited `reported`: the fans of each newly
      added subsystem join it. */
  function VisitFans(subs: map<string, Subsystem>, fans: map<string, Fan>, reported: seq<ReportedSubsystem>,
                     load: CatalogLoader): map<string, Fan>
  {
    if reported == [] then fans
    else
      var init := reported[..|reported| - 1];
      VisitFans(subs, fans, init, load) + KnownFans(Visits(subs, init, load), reported[|reported| - 1], load)
  }

  /** The I2C commands of one step of the loop: those of adding the record
      when it is new, then those of driving its speed when it is valid. */
  function VisitStepOps(subs: map<string, Subsystem>, r: ReportedSubsystem, load: CatalogLoader, io: I2cOracle): seq<I2cCommand>
  {
    (if r.name in subs then [] else AddOps(r, load, io))
    + (if Known(subs, r, load).valid then VisitOps(Known(subs, r, load), r, io) else [])
  }

  /** The I2C commands of the loop over `reported`, visit by visit. */
  function VisitsOps(subs: map<string, Subsystem>, reported: seq<ReportedSubsystem>, load: CatalogLoader, io: I2cOracle): seq<I2cCommand>
  {
    if reported == [] then []
    else
      var init := reported[..|reported| - 1];
      VisitsOps(subs, init, load, io) + VisitStepOps(Visits(subs, init, load), reported[|reported| - 1], load, io)
  }

  /** The subsystem table after a whole pass: unmark, visit, sweep. */
  function Pass(subs: map<string, Subsystem>, reported: seq<ReportedSubsystem>, load: CatalogLoader): map<string, Subsystem>
  {
    MarkedOnly(Visits(Unmarked(subs), reported, load))
  }

  /** Subsystem names are the keys of the source's subsystem table, so a pass
      sees each name once. */
  predicate NamesUnique(reported: seq<ReportedSubsystem>)
  {
    forall i, j :: 0 <= i < j < |reported| ==> reported[i].name != reported[j].name
  }

  /** A subset of disjoint namespaces is disjoint. */
  lemma NamespacesDisjointSubset(small: set<string>, big: set<string>)
    requires small <= big && NamespacesDisjoint(big)
    ensures NamespacesDisjoint(small)
  {
  }


  /** After the loop the table holds the old subsystems and the reported
      ones. */
  lemma {:induction false} VisitsKeys(subs: map<string, Subsystem>, reported: seq<ReportedSubsystem>, load: CatalogLoader)
    ensures Visits(subs, reported, load).Keys == subs.Keys + ReportedNames(reported)
  {
    if reported != [] {
      var init := reported[..|reported| - 1];
      VisitsKeys(subs, init, load);
      assert reported == init + [reported[|reported| - 1]];
      assert ReportedNames(reported) == ReportedNames(init) + {reported[|reported| - 1].name};
    }
  }

  /** The loop leaves a subsystem that is not reported alone. */
  lemma {:induction false} VisitsUntouched(subs: map<string, Subsystem>, reported: seq<ReportedSubsystem>, load: CatalogLoader, n: string)
    requires n in subs && n !in ReportedNames(reported)
    ensures n in Visits(subs, reported, load) && Visits(subs, reported, load)[n] == subs[n]
  {
    if reported != [] {
      var init := reported[..|reported| - 1];
      assert reported == init + [reported[|reported| - 1]];
      assert ReportedNames(init) <= ReportedNames(reported);
      VisitsUntouched(subs, init, load, n);
    }
  }

  /** The loop leaves each reported subsystem visited when its record is
      valid, and as found or added otherwise. */
  lemma {:induction false} VisitsReported(subs: map<string, Subsystem>, reported: seq<ReportedSubsystem>, load: CatalogLoader, i: nat)
    requires NamesUnique(reported) && i < |reported|
    ensures reported[i].name in Visits(subs, reported, load)
    ensures Visits(subs, reported, load)[reported[i].name] ==
      if Known(subs, reported[i], load).valid then Visited(Known(subs, reported[i], load), reported[i])
      else Known(subs, reported[i], load)
  {
    var init := reported[..|reported| - 1];
    var last := reported[|reported| - 1];
    assert reported == init + [last];
    if i < |init| {
      assert NamesUnique(init);
      assert init[i] == reported[i] && reported[i].name != last.name;
      VisitsReported(subs, init, load, i);
    } else {
      assert last.name !in ReportedNames(init);
      VisitsKeys(subs, init, load);
      if last.name in subs {
        VisitsUntouched(subs, init, load, last.name);
      }
    }
  }

  /** fand_reconfigure keeps exactly the reported subsystems whose record is
      valid (already valid, or added successfully now), each with the sensor
      demand, the override and the speed of this pass, and marked. */
  lemma PassOutcome(subs: map<string, Subsystem>, reported: seq<ReportedSubsystem>, load: CatalogLoader)
    requires NamesUnique(reported)
    ensures forall n :: n in Pass(subs, reported, load) <==>
      exists i :: 0 <= i < |reported| && reported[i].name == n && Known(subs, reported[i], load).valid
    ensures forall i :: 0 <= i < |reported| && Known(subs, reported[i], load).valid ==>
      Pass(subs, reported, load)[reported[i].name] == Visited(Known(subs, reported[i], load), reported[i])
  {
    var u := Unmarked(subs);
    var v := Visits(u, reported, load);
    VisitsKeys(u, reported, load);
    forall n | n in u && n !in ReportedNames(reported)
      ensures !v[n].marked
    {
      VisitsUntouched(u, reported, load, n);
    }
    forall n | n in Pass(subs, reported, load)
      ensures exists i :: 0 <= i < |reported| && reported[i].name == n && Known(subs, reported[i], load).valid
    {
      assert n in ReportedNames(reported);
      var i :| 0 <= i < |reported| && reported[i].name == n;
      VisitsReported(u, reported, load, i);
    }
    forall i | 0 <= i < |reported| && Known(subs, reported[i], load).valid
      ensures reported[i].name in Pass(subs, reported, load)
      ensures Pass(subs, reported, load)[reported[i].name] == Visited(Known(subs, reported[i], load), reported[i])
    {
      VisitsReported(u, reported, load, i);
    }
  }

  /* ---------------- reading and publishing the fans ---------------- */

  /** What fand_read_status does to one fan of `s` (fand.c:424-433): it
      takes the subsystem's speed and is read back. */
  function Refresh(f: Fan, s: Subsystem, io: I2cOracle): (g: Fan)
    requires s.catalog.info.Some?
    ensures g.name == f.name && g.subsystem == f.subsystem && g.yamlFan == f.yamlFan
    ensures g.speed == s.speed
  {
    ReadFanStatus(f.(speed := s.speed), s, io)
  }

  /** fan_data after the fans filed under `ks` have been read back. */
  function RefreshKeys(fans: map<string, Fan>, subs: map<string, Subsystem>, ks: set<string>, io: I2cOracle): map<string, Fan>
    requires Consistent(subs, fans)
  {
    map k | k in fans :: if k in ks then Refresh(fans[k], subs[fans[k].subsystem], io) else fans[k]
  }

  /** fan_data after the read loop of fand_read_status: every fan read back. */
  function Refreshed(fans: map<string, Fan>, subs: map<string, Subsystem>, io: I2cOracle): map<string, Fan>
    requires Consistent(subs, fans)
  {
    RefreshKeys(fans, subs, fans.Keys, io)
  }

  /** Two fan tables that agree on every fan's key, name, owner and
      catalog entry. */
  ghost predicate SameFans(fans: map<string, Fan>, fans2: map<string, Fan>)
  {
    && fans.Keys == fans2.Keys
    && forall k :: k in fans ==>
         fans2[k].name == fans[k].name && fans2[k].subsystem == fans[k].subsystem && fans2[k].yamlFan == fans[k].yamlFan
  }

  /** Rewriting the other fields of fans keeps the tables consistent. */
  lemma SameFansConsistent(subs: map<string, Subsystem>, fans: map<string, Fan>, fans2: map<string, Fan>)
    requires Consistent(subs, fans) && SameFans(fans, fans2)
    ensures Consistent(subs, fans2)
  {
    forall n, k | n in subs && k in subs[n].fans
      ensures k in fans2 && fans2[k].subsystem == n
    {
      assert k in fans && fans[k].subsystem == n;
    }
    forall k | k in fans2
      ensures Filed(subs, fans2[k], k)
    {
      assert Filed(subs, fans[k], k);
    }
  }

  /** Reading fans back changes only their readback fields, so the tables
      stay consistent. */
  lemma RefreshKeepsConsistent(fans: map<string, Fan>, subs: map<string, Subsystem>, ks: set<string>, io: I2cOracle)
    requires Consistent(subs, fans)
    ensures SameFans(fans, RefreshKeys(fans, subs, ks, io))
    ensures Consistent(subs, RefreshKeys(fans, subs, ks, io))
  {
    SameFansConsistent(subs, fans, RefreshKeys(fans, subs, ks, io));
  }

  /** Reading one more fan back updates that fan's entry alone. */
  lemma RefreshKeysStep(fans: map<string, Fan>, subs: map<string, Subsystem>, ks: set<string>, k: string, io: I2cOracle)
    requires Consistent(subs, fans) && k in fans
    ensures RefreshKeys(fans, subs, ks + {k}, io)
         == RefreshKeys(fans, subs, ks, io)[k := Refresh(fans[k], subs[fans[k].subsystem], io)]
  {
  }

  /** The fans a subsystem lists are the fans it owns. */
  lemma ListedAreOwned(subs: map<string, Subsystem>, fans: map<string, Fan>, n: string)
    requires Consistent(subs, fans) && n in subs
    ensures forall k :: k in subs[n].fans <==> k in fans && fans[k].subsystem == n
  {
    forall k | k in fans && fans[k].subsystem == n
      ensures k in subs[n].fans
    {
      assert Filed(subs, fans[k], k);
    }
  }

  /** The columns of a Fan row that fand_read_status compares and writes. */
  datatype FanRow = FanRow(name: string, status: string, speed: string, direction: string, rpm: Option<int>)

  /** One write of the status transaction: a column of a Fan row (by
      position), or cur_hw of a Daemon row (by position). */
  datatype DbWrite =
    | SetStatus(row: nat, status: string)
    | SetSpeed(row: nat, speed: string)
    | SetDirection(row: nat, direction: string)
    | SetRpm(row: nat, rpm: int)
    | SetCurHw(daemonRow: nat)

  /** The row a fan's cached readback calls for. */
  function Published(f: Fan): FanRow
  {
    FanRow(f.name, FanStatus.ToString(f.status), FanSpeed.ToString(f.speed), f.direction, Some(f.rpm))
  }

  /** The writes that turn row `i`, showing `row`, into `p`: each column
      that differs, in the order status, speed, direction, rpm. */
  function Diff(i: nat, row: FanRow, p: FanRow): (ws: seq<DbWrite>)
    requires p.rpm.Some?
    ensures forall w :: w in ws ==> !w.SetCurHw? && w.row == i
  {
    StatusSpeedDiff(i, row, p) + DirectionRpmDiff(i, row, p)
  }

  /** One column's write, made only when the column differs. */
  function WriteIf(changed: bool, w: DbWrite): seq<DbWrite>
  {
    if changed then [w] else []
  }

  /** The status and speed writes of a row. */
  function StatusSpeedDiff(i: nat, row: FanRow, p: FanRow): seq<DbWrite>
  {
    WriteIf(row.status != p.status, SetStatus(i, p.status))
    + WriteIf(row.speed != p.speed, SetSpeed(i, p.speed))
  }

  /** The direction and rpm writes of a row. */
  function DirectionRpmDiff(i: nat, row: FanRow, p: FanRow): seq<DbWrite>
    requires p.rpm.Some?
  {
    WriteIf(row.direction != p.direction, SetDirection(i, p.direction))
    + WriteIf(row.rpm != p.rpm, SetRpm(i, p.rpm.value))
  }

  /** The writes fand_read_status makes to row `i` (fand.c:439-463): the
      columns that differ from the cache; rpm also when it is empty. */
  function RowWrites(i: nat, row: FanRow, f: Fan): seq<DbWrite>
  {
    Diff(i, row, Published(f))
  }

  /** The writes for every row, in row order. */
  function AllRowWrites(rows: seq<FanRow>, fans: map<string, Fan>): seq<DbWrite>
    requires forall i :: 0 <= i < |rows| ==> rows[i].name in fans
  {
    if rows == [] then []
    else
      var n := |rows| - 1;
      AllRowWrites(rows[..n], fans) + RowWrites(n, rows[n], fans[rows[n].name])
  }

  /** The cur_hw write of fand_read_status (fand.c:465-475): the first
      Daemon row named "fand", once. */
  function CurHwWrites(curHwSet: bool, daemons: seq<string>): seq<DbWrite>
  {
    if curHwSet then []
    else
      match IndexOf(daemons, NameInDaemonTable)
      case Some(i) => [SetCurHw(i)]
      case None => []
  }

  /** The effect of one write on a Fan row. */
  function ApplyWrite(row: FanRow, w: DbWrite): FanRow
  {
    match w
    case SetStatus(_, v) => row.(status := v)
    case SetSpeed(_, v) => row.(speed := v)
    case SetDirection(_, v) => row.(direction := v)
    case SetRpm(_, v) => row.(rpm := Some(v))
    case SetCurHw(_) => row
  }

  /** The Fan table after a sequence of writes, applied in order. */
  function ApplyWrites(rows: seq<FanRow>, ws: seq<DbWrite>): (t: seq<FanRow>)
    ensures |t| == |rows|
  {
    if ws == [] then rows
    else
      var t := ApplyWrites(rows, ws[..|ws| - 1]);
      var w := ws[|ws| - 1];
      if !w.SetCurHw? && w.row < |t| then t[w.row := ApplyWrite(t[w.row], w)] else t
  }

  /** Writes applied in two batches are the writes applied in one. */
  lemma {:induction false} ApplyWritesAppend(rows: seq<FanRow>, a: seq<DbWrite>, b: seq<DbWrite>)
    ensures ApplyWrites(rows, a + b) == ApplyWrites(ApplyWrites(rows, a), b)
    decreases |b|
  {
    if b == [] {
      assert a + b == a;
    } else {
      assert (a + b)[..|a + b| - 1] == a + b[..|b| - 1];
      assert (a + b)[|a + b| - 1] == b[|b| - 1];
      ApplyWritesAppend(rows, a, b[..|b| - 1]);
    }
  }

  /** A column write made only when the column differs sets that column. */
  lemma WriteIfApplies(t: seq<FanRow>, i: nat, changed: bool, w: DbWrite)
    requires i < |t| && !w.SetCurHw? && w.row == i
    requires !changed ==> ApplyWrite(t[i], w) == t[i]
    ensures ApplyWrites(t, WriteIf(changed, w)) == t[i := ApplyWrite(t[i], w)]
  {
    var ws := WriteIf(changed, w);
    if changed {
      assert ws[..0] == [];
    } else {
      assert t[i := ApplyWrite(t[i], w)] == t;
    }
  }

  /** The status and speed writes set those two columns of row `i`. */
  lemma StatusSpeedApplies(rows: seq<FanRow>, i: nat, p: FanRow)
    requires i < |rows|
    ensures ApplyWrites(rows, StatusSpeedDiff(i, rows[i], p)) == rows[i := rows[i].(status := p.status, speed := p.speed)]
  {
    var row := rows[i];
    var t1 := rows[i := row.(status := p.status)];
    WriteIfApplies(rows, i, row.status != p.status, SetStatus(i, p.status));
    WriteIfApplies(t1, i, row.speed != p.speed, SetSpeed(i, p.speed));
    ApplyWritesAppend(rows, WriteIf(row.status != p.status, SetStatus(i, p.status)), WriteIf(row.speed != p.speed, SetSpeed(i, p.speed)));
    assert t1[i := row.(status := p.status, speed := p.speed)] == rows[i := row.(status := p.status, speed := p.speed)];
  }

  /** The direction and rpm writes set those two columns of row `i`. */
  lemma DirectionRpmApplies(rows: seq<FanRow>, i: nat, p: FanRow)
    requires i < |rows| && p.rpm.Some?
    ensures ApplyWrites(rows, DirectionRpmDiff(i, rows[i], p)) == rows[i := rows[i].(direction := p.direction, rpm := p.rpm)]
  {
    var row := rows[i];
    var t3 := rows[i := row.(direction := p.direction)];
    WriteIfApplies(rows, i, row.direction != p.direction, SetDirection(i, p.direction));
    WriteIfApplies(t3, i, row.rpm != p.rpm, SetRpm(i, p.rpm.value));
    ApplyWritesAppend(rows, WriteIf(row.direction != p.direction, SetDirection(i, p.direction)), WriteIf(row.rpm != p.rpm, SetRpm(i, p.rpm.value)));
    assert t3[i := row.(direction := p.direction, rpm := p.rpm)] == rows[i := row.(direction := p.direction, rpm := p.rpm)];
  }

  /** The writes of a row change that row, and only that row, into the
      target. */
  lemma DiffApplies(rows: seq<FanRow>, i: nat, p: FanRow)
    requires i < |rows| && rows[i].name == p.name && p.rpm.Some?
    ensures ApplyWrites(rows, Diff(i, rows[i], p)) == rows[i := p]
  {
    var a := StatusSpeedDiff(i, rows[i], p);
    var b := DirectionRpmDiff(i, rows[i], p);
    var mid := rows[i := rows[i].(status := p.status, speed := p.speed)];
    StatusSpeedApplies(rows, i, p);
    DirectionRpmApplies(mid, i, p);
    assert DirectionRpmDiff(i, mid[i], p) == b;
    ApplyWritesAppend(rows, a, b);
    assert mid[i].(direction := p.direction, rpm := p.rpm) == p;
    assert mid[i := p] == rows[i := p];
  }

  /** A row that already shows what the cache calls for gets no writes, and
      only such a row. */
  lemma RowWritesEmpty(i: nat, row: FanRow, f: Fan)
    requires row.name == f.name
    ensures RowWrites(i, row, f) == [] <==> row == Published(f)
  {
  }

  /** Every write for the Fan rows names one of them. */
  lemma {:induction false} AllRowWritesTargets(rows: seq<FanRow>, fans: map<string, Fan>)
    requires forall i :: 0 <= i < |rows| ==> rows[i].name in fans
    ensures forall w :: w in AllRowWrites(rows, fans) ==> !w.SetCurHw? && w.row < |rows|
  {
    if rows != [] {
      AllRowWritesTargets(rows[..|rows| - 1], fans);
    }
  }

  /** Writes that target the first rows leave a row appended after them
      alone. */
  lemma {:induction false} ApplyWritesPrefix(rows: seq<FanRow>, extra: FanRow, ws: seq<DbWrite>)
    requires forall w :: w in ws ==> !w.SetCurHw? && w.row < |rows|
    ensures ApplyWrites(rows + [extra], ws) == ApplyWrites(rows, ws) + [extra]
    decreases |ws|
  {
    if ws != [] {
      ApplyWritesPrefix(rows, extra, ws[..|ws| - 1]);
    }
  }

  /** Applying the writes of fand_read_status brings every Fan row in line
      with the cache: after the commit each row shows its fan's status,
      speed, direction and rpm. */
  lemma {:induction false} PublishMatches(rows: seq<FanRow>, fans: map<string, Fan>)
    requires forall i :: 0 <= i < |rows| ==> rows[i].name in fans && fans[rows[i].name].name == rows[i].name
    ensures forall i :: 0 <= i < |rows| ==> ApplyWrites(rows, AllRowWrites(rows, fans))[i] == Published(fans[rows[i].name])
  {
    if rows != [] {
      var n := |rows| - 1;
      var init := rows[..n];
      var f := fans[rows[n].name];
      PublishMatches(init, fans);
      var before := AllRowWrites(init, fans);
      AllRowWritesTargets(init, fans);
      assert rows == init + [rows[n]];
      ApplyWritesPrefix(init, rows[n], before);
      var t := ApplyWrites(rows, before);
      ApplyWritesAppend(rows, before, RowWrites(n, rows[n], f));
      DiffApplies(t, n, Published(f));
    }
  }

  /* ---------------- the daemon ---------------- */

  /** The daemon's tables: subsystem_data by subsystem name, fan_data by
      global fan name, the last change-sequence number seen and whether
      cur_hw has been set. */
  class FanDaemon {
    var subsystemData: map<string, Subsystem>
    var fanData: map<string, Fan>
    var idlSeqno: int
    var curHwSet: bool

    ghost predicate Valid()
      reads this
    {
      Consistent(subsystemData, fanData)
    }

    /** init_subsystems, with the sequence number the database starts at. */
    constructor (seqno: int)
      ensures Valid()
      ensures subsystemData == map[] && fanData == map[]
      ensures idlSeqno == seqno && !curHwSet
    {
      subsystemData := map[];
      fanData := map[];
      idlSeqno := seqno;
      curHwSet := false;
    }

    /** add_subsystem (fand.c:117-275): file the record for a reported
        subsystem that is not yet known, create its fans, FRU by FRU, and set
        its speed. Returns the record when it is valid. */
    method AddSubsystem(r: ReportedSubsystem, load: CatalogLoader, io: I2cOracle)
      returns (result: Option<Subsystem>, ops: seq<I2cCommand>)
      requires Valid()
      requires r.name !in subsystemData
      requires NamespacesDisjoint(subsystemData.Keys + {r.name})
      modifies this`subsystemData, this`fanData
      ensures Valid()
      ensures subsystemData == old(subsystemData)[r.name := Added(r, load)]
      ensures fanData == old(fanData) + AddedFans(r, load)
      ensures result == (if Added(r, load).valid then Some(Added(r, load)) else None)
      ensures ops == AddOps(r, load, io)
    {
      var s := ZeroSubsystem(r.name);
      var overrideValue := FanSpeed.NONE;
      var overrideString := OverrideOf(r);
      if overrideString.Some? {
        overrideValue := FanSpeed.FromString(overrideString);
      }
      s := s.(fanSpeedOverride := overrideValue, fanSpeed := FanSpeed.NORMAL);
      var loaded := load(r.name, CatalogDir(r));
      if loaded.None? {
        assert fanData + map[] == fanData;
        FileSubsystem(s, fanData, map[]);
        return None, [];
      }
      var c := loaded.value;
      s := s.(catalog := c);
      if c.info.None? {
        assert fanData + map[] == fanData;
        FileSubsystem(s, fanData, map[]);
        return None, [];
      }
      s := s.(multiplier := c.info.value.fanSpeedMultiplier);
      if |c.frus| == 0 {
        assert fanData + map[] == fanData;
        FileSubsystem(s, fanData, map[]);
        return None, [];
      }
      s := s.(valid := true);

      var keys := CreateFans(r.name, c.frus);
      s := s.(fans := keys);
      s, ops := SetFanspeed(s, io);
      FanMapEntries(r.name, AllFans(c.frus));
      FileSubsystem(s, old(fanData), FanMap(r.name, AllFans(c.frus)));
      result := Some(s);
    }

    /** The fan loops of add_subsystem (fand.c:225-265): one fan per catalog
        fan, FRU by FRU, filed in fan_data under its global name. Returns the
        names, which become subsystem_fans. */
    method CreateFans(n: string, frus: seq<YamlFanFru>) returns (keys: set<string>)
      modifies this`fanData
      ensures fanData == old(fanData) + FanMap(n, AllFans(frus))
      ensures keys == FanMap(n, AllFans(frus)).Keys
    {
      keys := {};
      for i := 0 to |frus|
        invariant fanData == old(fanData) + FanMap(n, AllFans(frus[..i]))
        invariant keys == FanMap(n, AllFans(frus[..i])).Keys
      {
        AllFansStep(frus, i);
        keys := CreateFruFans(n, AllFans(frus[..i]), frus[i].fans, keys, old(fanData));
      }
      assert frus[..|frus|] == frus;
    }

    /** The inner loop of add_subsystem (fand.c:229-264): the fans of one
        FRU, following the fans `before` it already created. */
    method CreateFruFans(n: string, ghost before: seq<YamlFan>, fans: seq<YamlFan>, keys0: set<string>,
                         ghost base: map<string, Fan>)
      returns (keys: set<string>)
      requires fanData == base + FanMap(n, before) && keys0 == FanMap(n, before).Keys
      modifies this`fanData
      ensures fanData == base + FanMap(n, before + fans)
      ensures keys == FanMap(n, before + fans).Keys
    {
      keys := keys0;
      assert before + fans[..0] == before;
      for j := 0 to |fans|
        invariant fanData == base + FanMap(n, before + fans[..j])
        invariant keys == FanMap(n, before + fans[..j]).Keys
      {
        var yf := fans[j];
        var key := FanKey(n, yf.name);
        ghost var done := before + fans[..j];
        FanMapSnoc(n, done, yf);
        UnionUpdate(base, FanMap(n, done), key, NewFan(n, yf));
        assert before + fans[..j + 1] == done + [yf];
        fanData := fanData[key := NewFan(n, yf)];
        keys := keys + {key};
      }
      assert fans[..|fans|] == fans;
    }

    /** File a new subsystem record under its name (fand.c:137), with the
        fans `m` already added to fan_data. */
    method FileSubsystem(s: Subsystem, ghost base: map<string, Fan>, ghost m: map<string, Fan>)
      requires Consistent(subsystemData, base) && fanData == base + m
      requires s.name !in subsystemData && NamespacesDisjoint(subsystemData.Keys + {s.name})
      requires s.fans == m.Keys && (s.fans != {} ==> s.catalog.info.Some?)
      requires forall k :: k in m ==> m[k].name == k && m[k].subsystem == s.name && k == FanKey(s.name, m[k].yamlFan.name)
      modifies this`subsystemData
      ensures Valid()
      ensures subsystemData == old(subsystemData)[s.name := s]
    {
      subsystemData := subsystemData[s.name := s];
      AddKeepsConsistent(old(subsystemData), base, s, m);
    }

    /** get_subsystem (fand.c:279-298): the filed record, or a new one added
        now; the record is returned only when it is valid. */
    method GetSubsystem(r: ReportedSubsystem, load: CatalogLoader, io: I2cOracle)
      returns (result: Option<Subsystem>, ops: seq<I2cCommand>)
      requires Valid()
      requires NamespacesDisjoint(subsystemData.Keys + {r.name})
      modifies this`subsystemData, this`fanData
      ensures Valid()
      ensures subsystemData == old(subsystemData)[r.name := Known(old(subsystemData), r, load)]
      ensures fanData == old(fanData) + KnownFans(old(subsystemData), r, load)
      ensures result == (if Known(old(subsystemData), r, load).valid then Some(Known(old(subsystemData), r, load)) else None)
      ensures ops == if r.name in old(subsystemData) then [] else AddOps(r, load, io)
    {
      if r.name !in subsystemData {
        result, ops := AddSubsystem(r, load, io);
      } else {
        var s := subsystemData[r.name];
        assert subsystemData[r.name := s] == subsystemData;
        assert fanData + map[] == fanData;
        ops := [];
        if s.valid {
          result := Some(s);
        } else {
          result := None;
        }
      }
    }

    /** fand_unmark_subsystems (fand.c:301-310). */
    method UnmarkSubsystems()
      requires Valid()
      modifies this`subsystemData
      ensures Valid()
      ensures subsystemData == Unmarked(old(subsystemData))
    {
      var todo := subsystemData.Keys;
      while todo != {}
        invariant todo <= subsystemData.Keys && subsystemData.Keys == old(subsystemData).Keys
        invariant forall n :: n in subsystemData ==>
          subsystemData[n] == if n in todo then old(subsystemData)[n] else old(subsystemData)[n].(marked := false)
        decreases todo
      {
        var n :| n in todo;
        subsystemData := subsystemData[n := subsystemData[n].(marked := false)];
        todo := todo - {n};
      }
      SameIndexConsistent(old(subsystemData), subsystemData, fanData);
    }

    /** fand_remove_unmarked_subsystems (fand.c:315-347): every unmarked
        subsystem is deleted together with its fans. */
    method RemoveUnmarkedSubsystems()
      requires Valid()
      modifies this`subsystemData, this`fanData
      ensures Valid()
      ensures subsystemData == MarkedOnly(old(subsystemData))
      ensures fanData == FansOf(old(fanData), subsystemData)
    {
      FansOfAll(fanData, subsystemData);
      var todo := subsystemData.Keys;
      while todo != {}
        invariant Valid()
        invariant todo <= subsystemData.Keys
        invariant subsystemData == map n | n in old(subsystemData) && (n in todo || old(subsystemData)[n].marked) :: old(subsystemData)[n]
        invariant fanData == FansOf(old(fanData), subsystemData)
        decreases todo
      {
        var n :| n in todo;
        if !subsystemData[n].marked {
          ghost var before := subsystemData;
          RemoveKeepsConsistent(subsystemData, fanData, n);
          FansOfNarrow(old(fanData), subsystemData, subsystemData - {n});
          DeleteFans(n);
          subsystemData := subsystemData - {n};
        }
        todo := todo - {n};
      }
    }

    /** The inner loop of fand_remove_unmarked_subsystems (fand.c:324-334):
        delete each fan of subsystem `n` from fan_data while emptying its
        subsystem_fans. */
    method DeleteFans(n: string)
      requires n in subsystemData
      modifies this`fanData
      ensures fanData == old(fanData) - subsystemData[n].fans
    {
      var s := subsystemData[n];
      while s.fans != {}
        invariant s.fans <= subsystemData[n].fans
        invariant fanData == old(fanData) - (subsystemData[n].fans - s.fans)
        decreases s.fans
      {
        var k :| k in s.fans;
        fanData := fanData - {k};
        s := s.(fans := s.fans - {k});
      }
    }

    /** The body of the subsystem loop of fand_reconfigure (fand.c:505-543):
        find or add the record; when it is valid, record the sensor demand
        and the override, set the speed and mark it. */
    method VisitSubsystem(r: ReportedSubsystem, load: CatalogLoader, io: I2cOracle) returns (ops: seq<I2cCommand>)
      requires Valid()
      requires NamespacesDisjoint(subsystemData.Keys + {r.name})
      modifies this`subsystemData, this`fanData
      ensures Valid()
      ensures subsystemData == old(subsystemData)[r.name :=
                if Known(old(subsystemData), r, load).valid then Visited(Known(old(subsystemData), r, load), r)
                else Known(old(subsystemData), r, load)]
      ensures fanData == old(fanData) + KnownFans(old(subsystemData), r, load)
      ensures ops == (if r.name in old(subsystemData) then [] else AddOps(r, load, io))
                     + (if Known(old(subsystemData), r, load).valid then VisitOps(Known(old(subsystemData), r, load), r, io) else [])
    {
      var subsystem, addOps := GetSubsystem(r, load, io);
      ops := addOps;
      if subsystem.Some? {
        var speedOps := UpdateSubsystem(r, subsystem.value, io);
        ops := ops + speedOps;
      }
    }

    /** The rest of that loop body for a valid record `s` of `r`
        (fand.c:511-542). */
    method UpdateSubsystem(r: ReportedSubsystem, s: Subsystem, io: I2cOracle) returns (ops: seq<I2cCommand>)
      requires Valid()
      requires r.name in subsystemData && subsystemData[r.name] == s
      modifies this`subsystemData
      ensures Valid()
      ensures subsystemData == old(subsystemData)[r.name := Visited(s, r)]
      ensures ops == VisitOps(s, r, io)
    {
      var highest := HighestSensorSpeed(r.tempSensorStates);
      var t := s.(fanSpeed := highest);
      var overrideValue := FanSpeed.FromString(OverrideOf(r));
      if t.fanSpeedOverride != overrideValue {
        t := t.(fanSpeedOverride := overrideValue);
      }
      t, ops := SetFanspeed(t, io);
      t := t.(marked := true);
      RewriteKeepsConsistent(subsystemData, fanData, r.name, t);
      subsystemData := subsystemData[r.name := t];
    }

    /** fand_reconfigure (fand.c:490-547): nothing when the sequence number
        has not moved; otherwise record it, unmark every subsystem, visit the
        reported ones in order, and sweep the unmarked ones away. */
    method Reconfigure(seqno: int, reported: seq<ReportedSubsystem>, load: CatalogLoader, io: I2cOracle)
      returns (ops: seq<I2cCommand>)
      requires Valid()
      requires NamespacesDisjoint(subsystemData.Keys + ReportedNames(reported))
      modifies this`subsystemData, this`fanData, this`idlSeqno
      ensures Valid() && idlSeqno == seqno
      ensures seqno == old(idlSeqno) ==> subsystemData == old(subsystemData) && fanData == old(fanData) && ops == []
      ensures seqno != old(idlSeqno) ==> subsystemData == Pass(old(subsystemData), reported, load)
      ensures seqno != old(idlSeqno) ==>
        fanData == FansOf(VisitFans(Unmarked(old(subsystemData)), old(fanData), reported, load), subsystemData)
      ensures seqno != old(idlSeqno) ==> ops == VisitsOps(Unmarked(old(subsystemData)), reported, load, io)
    {
      ops := [];
      if seqno == idlSeqno {
        return;
      }
      idlSeqno := seqno;
      UnmarkSubsystems();
      ops := VisitAll(reported, load, io);
      RemoveUnmarkedSubsystems();
    }

    /** The subsystem loop of fand_reconfigure (fand.c:505-543). */
    method VisitAll(reported: seq<ReportedSubsystem>, load: CatalogLoader, io: I2cOracle) returns (ops: seq<I2cCommand>)
      requires Valid()
      requires NamespacesDisjoint(subsystemData.Keys + ReportedNames(reported))
      modifies this`subsystemData, this`fanData
      ensures Valid()
      ensures subsystemData == Visits(old(subsystemData), reported, load)
      ensures fanData == VisitFans(old(subsystemData), old(fanData), reported, load)
      ensures ops == VisitsOps(old(subsystemData), reported, load, io)
    {
      ops := [];
      for i := 0 to |reported|
        invariant Valid()
        invariant subsystemData == Visits(old(subsystemData), reported[..i], load)
        invariant fanData == VisitFans(old(subsystemData), old(fanData), reported[..i], load)
        invariant subsystemData.Keys <= old(subsystemData).Keys + ReportedNames(reported)
        invariant ops == VisitsOps(old(subsystemData), reported[..i], load, io)
      {
        var r := reported[i];
        assert reported[..i + 1][..i] == reported[..i];
        NamespacesDisjointSubset(subsystemData.Keys + {r.name}, old(subsystemData).Keys + ReportedNames(reported));
        var visitOps := VisitSubsystem(r, load, io);
        ops := ops + visitOps;
      }
      assert reported[..|reported|] == reported;
    }

    /** fand_read_status (fand.c:412-482): read every fan back, compare the
        Fan rows with the cache and set cur_hw the first time through; the
        transaction is committed when it holds any write. */
    method ReadStatus(io: I2cOracle, rows: seq<FanRow>, daemons: seq<string>)
      returns (writes: seq<DbWrite>, commit: bool)
      requires Valid()
      requires forall i :: 0 <= i < |rows| ==> rows[i].name in fanData
      modifies this`fanData, this`curHwSet
      ensures Valid()
      ensures fanData == Refreshed(old(fanData), subsystemData, io)
      ensures writes == AllRowWrites(rows, fanData) + CurHwWrites(old(curHwSet), daemons)
      ensures curHwSet == (old(curHwSet) || NameInDaemonTable in daemons)
      ensures commit <==> writes != []
    {
      ReadAllFans(io);
      var fanWrites, change := PublishFans(rows);
      var hwWrites := MarkCurHw(daemons);
      writes := fanWrites + hwWrites;
      commit := change || hwWrites != [];
    }

    /** The read loop of fand_read_status (fand.c:424-433): each fan of each
        subsystem takes the subsystem's speed and is read back. */
    method ReadAllFans(io: I2cOracle)
      requires Valid()
      modifies this`fanData
      ensures Valid()
      ensures fanData == Refreshed(old(fanData), subsystemData, io)
    {
      ghost var fans0 := fanData;
      ghost var done: set<string> := {};
      ghost var doneSubs: set<string> := {};
      var todo := subsystemData.Keys;
      while todo != {}
        invariant todo + doneSubs == subsystemData.Keys && todo !! doneSubs
        invariant forall k :: k in done <==> k in fans0 && fans0[k].subsystem in doneSubs
        invariant fanData == RefreshKeys(fans0, subsystemData, done, io)
        invariant Valid()
        decreases todo
      {
        var n :| n in todo;
        ListedAreOwned(subsystemData, fans0, n);
        ReadSubsystemFans(n, io, fans0, done);
        done := done + subsystemData[n].fans;
        doneSubs := doneSubs + {n};
        todo := todo - {n};
      }
      forall k | k in fans0
        ensures k in done
      {
        assert Filed(subsystemData, fans0[k], k);
      }
      assert done == fans0.Keys;
    }

    /** The inner read loop: the fans of subsystem `n`. */
    method ReadSubsystemFans(n: string, io: I2cOracle, ghost fans0: map<string, Fan>, ghost done: set<string>)
      requires Valid() && n in subsystemData
      requires Consistent(subsystemData, fans0)
      requires fanData == RefreshKeys(fans0, subsystemData, done, io)
      requires subsystemData[n].fans !! done
      modifies this`fanData
      ensures Valid()
      ensures fanData == RefreshKeys(fans0, subsystemData, done + subsystemData[n].fans, io)
    {
      var s := subsystemData[n];
      ListedAreOwned(subsystemData, fans0, n);
      var todo := s.fans;
      ghost var read: set<string> := {};
      while todo != {}
        invariant todo + read == s.fans && todo !! read
        invariant fanData == RefreshKeys(fans0, subsystemData, done + read, io)
        decreases todo
      {
        var k :| k in todo;
        RefreshKeepsConsistent(fans0, subsystemData, done + read, io);
        var f := fanData[k];
        f := f.(speed := s.speed);
        var g := ReadFanStatus(f, s, io);
        fanData := fanData[k := g];
        RefreshKeysStep(fans0, subsystemData, done + read, k, io);
        assert done + read + {k} == done + (read + {k});
        read := read + {k};
        todo := todo - {k};
      }
      RefreshKeepsConsistent(fans0, subsystemData, done + read, io);
    }

    /** The compare loop of fand_read_status (fand.c:437-463): for each Fan
        row, write each column that differs from the cached fan. */
    method PublishFans(rows: seq<FanRow>) returns (writes: seq<DbWrite>, change: bool)
      requires forall i :: 0 <= i < |rows| ==> rows[i].name in fanData
      ensures writes == AllRowWrites(rows, fanData)
      ensures change <==> writes != []
    {
      writes := [];
      change := false;
      for i := 0 to |rows|
        invariant writes == AllRowWrites(rows[..i], fanData)
        invariant change <==> writes != []
      {
        var rowWrites := CompareRow(i, rows[i], fanData[rows[i].name]);
        writes := writes + rowWrites;
        change := change || rowWrites != [];
        assert rows[..i + 1][..i] == rows[..i];
      }
      assert rows[..|rows|] == rows;
    }

    /** The body of the compare loop (fand.c:439-463): the status, speed,
        direction and rpm columns of row `i` that differ from fan `f`, each
        with the cached value; an empty rpm column always differs. */
    static method CompareRow(i: nat, row: FanRow, f: Fan) returns (ws: seq<DbWrite>)
      ensures ws == RowWrites(i, row, f)
    {
      ws := [];
      var status := FanStatus.ToString(f.status);
      if row.status != status {
        ws := ws + [SetStatus(i, status)];
      }
      var speed := FanSpeed.ToString(f.speed);
      if row.speed != speed {
        ws := ws + [SetSpeed(i, speed)];
      }
      assert ws == StatusSpeedDiff(i, row, Published(f));
      ghost var half := ws;
      if row.direction != f.direction {
        ws := ws + [SetDirection(i, f.direction)];
      }
      if row.rpm.None? || row.rpm.value != f.rpm {
        ws := ws + [SetRpm(i, f.rpm)];
      }
      assert ws == half + DirectionRpmDiff(i, row, Published(f));
    }

    /** The cur_hw step of fand_read_status (fand.c:465-475): the first time
        through, set cur_hw on the first Daemon row named "fand"; the flag is
        raised only when such a row exists. */
    method MarkCurHw(daemons: seq<string>) returns (writes: seq<DbWrite>)
      modifies this`curHwSet
      ensures writes == CurHwWrites(old(curHwSet), daemons)
      ensures curHwSet == (old(curHwSet) || NameInDaemonTable in daemons)
    {
      writes := [];
      if !curHwSet {
        var i := 0;
        while i < |daemons|
          invariant 0 <= i <= |daemons|
          invariant forall j :: 0 <= j < i ==> daemons[j] != NameInDaemonTable
          invariant !curHwSet && writes == []
        {
          if daemons[i] == NameInDaemonTable {
            writes := [SetCurHw(i)];
            curHwSet := true;
            break;
          }
          i := i + 1;
        }
      }
    }
  }
}
