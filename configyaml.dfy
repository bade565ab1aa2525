/** The read-only hardware description the daemon consults (the YAML
    catalog) and the I2C transport it drives. Both are external to the
    daemon: the catalog is an immutable value per subsystem, loading it is a
    fallible oracle, and `i2c_execute` is a fallible oracle answering one
    register read. The header that declares them (config-yaml.h) is not part
    of this model; field names follow their uses in src/physfan.c and fand.c. */
module ConfigYaml {
  import opened Tables

  /** i2c_bit_op: one bit field of one device register. */
  datatype BitOp = BitOp(
    device: string,
    registerAddress: int,
    registerSize: int,     // bytes; only 1, 2 and 4 are usable
    bitMask: bv32,
    negativePolarity: bool)

  /** The raw register code for each speed level (fan_speed_settings). */
  datatype SpeedSettings = SpeedSettings(slow: int, normal: int, medium: int, fast: int, max: int)

  /** What a set direction bit means (direction_values). */
  datatype DirectionValues = DirectionValues(f2b: int, b2f: int)

  /** YamlFanInfo: subsystem-wide fan information. */
  datatype YamlFanInfo = YamlFanInfo(
    fanSpeedControl: Option<BitOp>,
    fanSpeedSettings: SpeedSettings,
    fanSpeedMultiplier: int,
    directionValues: DirectionValues)

  /** YamlFan: one fan with its tachometer and fault registers. */
  datatype YamlFan = YamlFan(name: string, fanSpeed: BitOp, fanFault: BitOp)

  /** YamlFanFru: a replaceable unit holding fans, with an optional
      direction-detect register. */
  datatype YamlFanFru = YamlFanFru(number: int, fans: seq<YamlFan>, fanDirectionDetect: Option<BitOp>)

  /** What the catalog answers for one subsystem: yaml_get_fan_info,
      yaml_get_fan_fru_count/yaml_get_fan_fru, and the device names that
      yaml_find_device resolves. */
  datatype SubsystemCatalog = SubsystemCatalog(info: Option<YamlFanInfo>, frus: seq<YamlFanFru>, devices: set<string>)

  /** The answers for a subsystem whose description was never loaded. */
  const EmptyCatalog: SubsystemCatalog := SubsystemCatalog(None, [], {})

  /** Loading and parsing a subsystem's description from a directory
      (yaml_add_subsystem, yaml_parse_devices, yaml_parse_fans); None when any
      of them fails. */
  type CatalogLoader = (string, string) -> Option<SubsystemCatalog>

  /** The catalog fans of all FRUs, FRU by FRU, in catalog order. */
  function AllFans(frus: seq<YamlFanFru>): seq<YamlFan>
  {
    if frus == [] then [] else AllFans(frus[..|frus| - 1]) + frus[|frus| - 1].fans
  }

  /** No fan of the sequence shares its name with a fan before it. */
  ghost predicate DistinctNames(fans: seq<YamlFan>)
  {
    fans == []
    || (DistinctNames(fans[..|fans| - 1])
        && forall f :: f in fans[..|fans| - 1] ==> f.name != fans[|fans| - 1].name)
  }

  /** A catalog whose fans all have different names. */
  ghost predicate FanNamesDistinct(c: SubsystemCatalog)
  {
    DistinctNames(AllFans(c.frus))
  }

  /** Distinct names stay distinct in a prefix. */
  lemma {:induction false} DistinctNamesPrefix(fans: seq<YamlFan>, k: nat)
    requires DistinctNames(fans) && k <= |fans|
    ensures DistinctNames(fans[..k])
    decreases |fans|
  {
    if k < |fans| {
      var init := fans[..|fans| - 1];
      assert init[..k] == fans[..k];
      DistinctNamesPrefix(init, k);
    } else {
      assert fans[..k] == fans;
    }
  }

  /** Two positions of a sequence with distinct names hold different names. */
  lemma DistinctNamesAt(fans: seq<YamlFan>, p: nat, q: nat)
    requires DistinctNames(fans) && p < q < |fans|
    ensures fans[p].name != fans[q].name
  {
    DistinctNamesPrefix(fans, q + 1);
    var pre := fans[..q + 1];
    assert pre[..|pre| - 1] == fans[..q];
    assert fans[p] in fans[..q];
  }

  /** One register read handed to i2c_execute: subsystem, device, register
      address and byte count. */
  datatype I2cRequest = I2cRequest(subsystem: string, device: string, registerAddress: int, byteCount: int)

  /** The outcome of i2c_execute: rc == 0 with the bytes read (little-endian,
      at most four), or a non-zero rc. */
  datatype I2cResult = Done(data: bv32) | Failed(rc: int)

  /** A command issued to the bus. */
  datatype I2cCommand = Read(req: I2cRequest) | Write(req: I2cRequest, value: bv32)

  /** i2c_execute seen as a fallible oracle for reads. */
  type I2cOracle = I2cRequest -> I2cResult
}
