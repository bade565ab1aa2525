/** The speed policy and the register-level control and readback of
    src/physfan.c, as functions of the catalog and of the answers of the I2C
    oracle. The two procedures there that update daemon records,
    fand_set_fanspeed and fand_read_fan_status, are modelled in module Fand
    (SetFanspeed and ReadFanStatus) on top of the functions below. */
module PhysFan {
  import opened Tables
  import opened ConfigYaml
  import FanSpeed
  import FanStatus
  import FanDirection

  /* ---------------- speed policy ---------------- */

  /** The speed to drive: the override when one is configured, except that
      a sensor demand of MAX always wins; NORMAL if nothing concrete is left. */
  function ResolveSpeed(sensor: int, override: int): (r: int)
    ensures r != FanSpeed.NONE
    ensures sensor == FanSpeed.MAX ==> r == FanSpeed.MAX
    ensures sensor != FanSpeed.MAX && override != FanSpeed.NONE ==> r == override
    ensures override == FanSpeed.NONE && sensor != FanSpeed.NONE ==> r == sensor
    ensures override == FanSpeed.NONE && sensor == FanSpeed.NONE ==> r == FanSpeed.NORMAL
    ensures ((sensor == FanSpeed.NONE || FanSpeed.IsLevel(sensor))
             && (override == FanSpeed.NONE || FanSpeed.IsLevel(override))) ==> FanSpeed.IsLevel(r)
  {
    var speed := if override == FanSpeed.NONE || sensor == FanSpeed.MAX then sensor else override;
    if speed == FanSpeed.NONE then FanSpeed.NORMAL else speed
  }

  /** The resolved speed never falls below what the sensors demand when no
      override is configured, and is at least the override below MAX. */
  lemma ResolveIsMaxOfSafety(sensor: int, override: int)
    requires FanSpeed.IsLevel(sensor)
    requires override == FanSpeed.NONE || FanSpeed.IsLevel(override)
    ensures FanSpeed.IsLevel(ResolveSpeed(sensor, override))
    ensures ResolveSpeed(sensor, override) == sensor || ResolveSpeed(sensor, override) == override
  {
  }

  /** Conversion of a catalog number to `unsigned char` (hw_speed_val):
      reduction modulo 256. */
  function ToByte(x: int): bv8
  {
    (x % 256) as bv8
  }

  /** The catalog setting for a level, in enum order. */
  function SettingsTable(s: SpeedSettings): (t: seq<int>)
    ensures |t| == |FanSpeed.Names|
  {
    [s.slow, s.normal, s.medium, s.fast, s.max]
  }

  /** The raw code written for a resolved speed: each level selects its own
      setting; anything else, NONE included, selects the NORMAL setting. */
  function SpeedCode(s: SpeedSettings, speed: int): (code: bv8)
    ensures FanSpeed.IsLevel(speed) ==> code == ToByte(SettingsTable(s)[speed])
    ensures !FanSpeed.IsLevel(speed) ==> code == ToByte(s.normal)
  {
    if speed == FanSpeed.SLOW then ToByte(s.slow)
    else if speed == FanSpeed.MEDIUM then ToByte(s.medium)
    else if speed == FanSpeed.FAST then ToByte(s.fast)
    else if speed == FanSpeed.MAX then ToByte(s.max)
    else ToByte(s.normal)
  }

  /* ---------------- registers ---------------- */

  /** The byte counts for which a buffer exists (byte, word, dword). */
  predicate ValidSize(size: int)
  {
    size == 1 || size == 2 || size == 4
  }

  /** The bits a buffer of `size` bytes can hold. */
  function WidthMask(size: int): (m: bv32)
    requires ValidSize(size)
    ensures (m & 0xFF) == 0xFF
  {
    if size == 1 then 0xFF else if size == 2 then 0xFFFF else 0xFFFF_FFFF
  }

  /** The readers fall back to a one-byte read for any other size. */
  function EffectiveSize(size: int): (s: int)
    ensures ValidSize(s)
    ensures ValidSize(size) ==> s == size
    ensures !ValidSize(size) ==> s == 1
  {
    if ValidSize(size) then size else 1
  }

  /** The request a reader hands to i2c_execute for a bit field. */
  function ReadRequest(subsystem: string, op: BitOp): I2cRequest
  {
    I2cRequest(subsystem, op.device, op.registerAddress, EffectiveSize(op.registerSize))
  }

  /** Read one bit field: None when i2c_execute fails; otherwise the bytes
      received in the zero-initialised buffer of the effective size, masked
      with the field's mask. */
  function ReadField(subsystem: string, op: BitOp, io: I2cOracle): (r: Option<bv32>)
    ensures r.None? <==> io(ReadRequest(subsystem, op)).Failed?
    ensures r.Some? ==> r.value == ((io(ReadRequest(subsystem, op)).data & WidthMask(EffectiveSize(op.registerSize)))
                                     & op.bitMask)
  {
    match io(ReadRequest(subsystem, op))
    case Failed(_) => None
    case Done(data) => Some((data & WidthMask(EffectiveSize(op.registerSize))) & op.bitMask)
  }

  /** A field value has no bit outside the field's mask. */
  lemma ReadFieldWithinMask(subsystem: string, op: BitOp, io: I2cOracle)
    requires ReadField(subsystem, op, io).Some?
    ensures (ReadField(subsystem, op, io).value & !op.bitMask) == 0
  {
  }

  /** A field value is at most the field's mask. */
  lemma ReadFieldBelowMask(subsystem: string, op: BitOp, io: I2cOracle)
    requires ReadField(subsystem, op, io).Some?
    ensures ReadField(subsystem, op, io).value <= op.bitMask
  {
  }

  /** A field value fits the buffer it was read into. */
  lemma ReadFieldBelowWidth(subsystem: string, op: BitOp, io: I2cOracle)
    requires ReadField(subsystem, op, io).Some?
    ensures ReadField(subsystem, op, io).value <= WidthMask(EffectiveSize(op.registerSize))
  {
  }

  /** The value written back by the read-modify-write of a register read
      as `data` into a buffer whose bits are `w`: the masked bits of the
      buffer are cleared, the code is OR-ed in, and the value keeps to the
      buffer's width. */
  function ReadModifyWrite(data: bv32, mask: bv32, code: bv8, w: bv32): (v: bv32)
    ensures (v & !w) == 0
  {
    (((data & w) & !mask) | code as bv32) & w
  }

  /** Every bit outside the mask keeps the value it was read with, unless the
      code itself sets it. */
  lemma ReadModifyWriteOutside(data: bv32, mask: bv32, code: bv8, w: bv32)
    requires (w & 0xFF) == 0xFF  // the code fits the buffer
    ensures (ReadModifyWrite(data, mask, code, w) & !mask) == (((data & w) & !mask) | (code as bv32 & !mask))
  {
  }

  /** A code inside the mask is what the field holds after the write. */
  lemma ReadModifyWriteInside(data: bv32, mask: bv32, code: bv8, w: bv32)
    requires (w & 0xFF) == 0xFF
    requires (code as bv32 & !mask) == 0
    ensures (ReadModifyWrite(data, mask, code, w) & mask) == code as bv32
  {
  }

  /** The I2C commands fand_set_fanspeed issues for a resolved speed: nothing
      without fan info, a speed-control field, a known device or a usable
      register size; otherwise a read, followed by a write of the
      read-modify-write value when the read succeeds. */
  function SpeedControlOps(subsystem: string, c: SubsystemCatalog, speed: int, io: I2cOracle): (ops: seq<I2cCommand>)
    ensures |ops| <= 2
    ensures ops != [] <==>
      && c.info.Some? && c.info.value.fanSpeedControl.Some?
      && ValidSize(c.info.value.fanSpeedControl.value.registerSize)
      && c.info.value.fanSpeedControl.value.device in c.devices
    ensures ops != [] ==> ops[0] == Read(ReadRequest(subsystem, c.info.value.fanSpeedControl.value))
    ensures |ops| == 2 <==> ops != [] && io(ops[0].req).Done?
    ensures |ops| == 2 ==> ops[1].Write? && ops[1].req == ops[0].req
    ensures |ops| == 2 ==>
      var op := c.info.value.fanSpeedControl.value;
      ops[1].value == ReadModifyWrite(io(ops[0].req).data, op.bitMask,
                                      SpeedCode(c.info.value.fanSpeedSettings, speed), WidthMask(op.registerSize))
  {
    if c.info.None? || c.info.value.fanSpeedControl.None? then []
    else
      var op := c.info.value.fanSpeedControl.value;
      var code := SpeedCode(c.info.value.fanSpeedSettings, speed);
      if op.device !in c.devices || !ValidSize(op.registerSize) then []
      else
        var req := ReadRequest(subsystem, op);
        match io(req)
        case Failed(_) => [Read(req)]
        case Done(data) =>
          [Read(req), Write(req, ReadModifyWrite(data, op.bitMask, code, WidthMask(op.registerSize)))]
  }

  /** The speed write leaves every register bit outside the speed-control
      mask as it was read, except bits the configured code itself sets. */
  lemma SpeedWriteKeepsOtherBits(subsystem: string, c: SubsystemCatalog, speed: int, io: I2cOracle)
    requires |SpeedControlOps(subsystem, c, speed, io)| == 2
    ensures
      var ops := SpeedControlOps(subsystem, c, speed, io);
      var op := c.info.value.fanSpeedControl.value;
      var code := SpeedCode(c.info.value.fanSpeedSettings, speed) as bv32;
      var before := io(ops[0].req).data & WidthMask(op.registerSize);
      (ops[1].value & !op.bitMask) == ((before & !op.bitMask) | (code & !op.bitMask))
  {
    var op := c.info.value.fanSpeedControl.value;
    ReadModifyWriteOutside(io(ReadRequest(subsystem, op)).data, op.bitMask,
                           SpeedCode(c.info.value.fanSpeedSettings, speed), WidthMask(op.registerSize));
  }

  /** When the configured code lies inside the speed-control mask, the field
      holds exactly that code after the write. */
  lemma SpeedWriteSetsField(subsystem: string, c: SubsystemCatalog, speed: int, io: I2cOracle)
    requires |SpeedControlOps(subsystem, c, speed, io)| == 2
    requires (SpeedCode(c.info.value.fanSpeedSettings, speed) as bv32 & !c.info.value.fanSpeedControl.value.bitMask) == 0
    ensures
      var ops := SpeedControlOps(subsystem, c, speed, io);
      (ops[1].value & c.info.value.fanSpeedControl.value.bitMask)
        == SpeedCode(c.info.value.fanSpeedSettings, speed) as bv32
  {
    var op := c.info.value.fanSpeedControl.value;
    ReadModifyWriteInside(io(ReadRequest(subsystem, op)).data, op.bitMask,
                          SpeedCode(c.info.value.fanSpeedSettings, speed), WidthMask(op.registerSize));
  }

  /* ---------------- readback ---------------- */

  /** The conversion of the masked 32-bit value to the C `int` returned by
      fand_read_rpm (two's complement). */
  function ToCInt(v: bv32): int
  {
    if v < 0x8000_0000 then v as int else v as int - 0x1_0000_0000
  }

  /** fand_read_rpm: the masked tachometer field as a C int, 0 when the read
      fails. */
  function ReadRpm(subsystem: string, fan: YamlFan, io: I2cOracle): (rpm: int)
    ensures ReadField(subsystem, fan.fanSpeed, io).None? ==> rpm == 0
    ensures ReadField(subsystem, fan.fanSpeed, io).Some? ==>
              var v := ReadField(subsystem, fan.fanSpeed, io).value;
              (v < 0x8000_0000 ==> rpm == v as int) && (v >= 0x8000_0000 ==> rpm == v as int - 0x1_0000_0000)
  {
    match ReadField(subsystem, fan.fanSpeed, io)
    case None => 0
    case Some(v) => ToCInt(v)
  }

  /** A tachometer mask without the sign bit never yields a negative speed. */
  lemma ReadRpmNonNegative(subsystem: string, fan: YamlFan, io: I2cOracle)
    requires fan.fanSpeed.bitMask < 0x8000_0000
    ensures ReadRpm(subsystem, fan, io) >= 0
  {
    if ReadField(subsystem, fan.fanSpeed, io).Some? {
      ReadFieldBelowMask(subsystem, fan.fanSpeed, io);
    }
  }

  /** fand_read_status (the fault register): UNINITIALIZED when the read
      fails; otherwise FAULT exactly when the masked value is non-zero,
      the test being inverted for a negative-polarity field. */
  function ReadStatus(subsystem: string, fan: YamlFan, io: I2cOracle): (s: int)
    ensures FanStatus.IsStatus(s)
    ensures s == FanStatus.UNINITIALIZED <==> ReadField(subsystem, fan.fanFault, io).None?
    ensures s == FanStatus.FAULT <==>
      ReadField(subsystem, fan.fanFault, io).Some? &&
      (ReadField(subsystem, fan.fanFault, io).value != 0) != fan.fanFault.negativePolarity
  {
    match ReadField(subsystem, fan.fanFault, io)
    case None => FanStatus.UNINITIALIZED
    case Some(raw) =>
      var value := if fan.fanFault.negativePolarity then (if raw == 0 then 1 else 0) else raw;
      if value != 0 then FanStatus.FAULT else FanStatus.OK
  }

  /** fand_read_fan_fru_direction: F2B exactly when the read fails or the
      direction bit is set iff the catalog declares a set bit to mean F2B. */
  function ReadFruDirection(subsystem: string, fru: YamlFanFru, info: YamlFanInfo, io: I2cOracle): (d: int)
    requires fru.fanDirectionDetect.Some?
    ensures FanDirection.IsDirection(d)
    ensures d == FanDirection.F2B <==>
      ReadField(subsystem, fru.fanDirectionDetect.value, io).None? ||
      ((ReadField(subsystem, fru.fanDirectionDetect.value, io).value != 0) == (info.directionValues.f2b != 0))
  {
    match ReadField(subsystem, fru.fanDirectionDetect.value, io)
    case None => FanDirection.F2B
    case Some(value) =>
      if value != 0 then
        (if info.directionValues.f2b != 0 then FanDirection.F2B else FanDirection.B2F)
      else
        (if info.directionValues.f2b != 0 then FanDirection.B2F else FanDirection.F2B)
  }

  /** The inner loop of fan_fru_get: is `fan` among the FRU's fans, searching
      from slot `k`. */
  function FruHolds(fans: seq<YamlFan>, fan: YamlFan, k: nat): (found: bool)
    requires k <= |fans|
    ensures found <==> exists j :: k <= j < |fans| && fans[j] == fan
    decreases |fans| - k
  {
    if k == |fans| then false else fans[k] == fan || FruHolds(fans, fan, k + 1)
  }

  /** fan_fru_get from FRU `idx` on: the index of the first FRU whose fan list
      holds the fan, or None. */
  function FanFruSearch(frus: seq<YamlFanFru>, fan: YamlFan, idx: nat): (r: Option<nat>)
    requires idx <= |frus|
    ensures r.Some? ==> idx <= r.value < |frus| && fan in frus[r.value].fans
    ensures r.Some? ==> forall j :: idx <= j < r.value ==> fan !in frus[j].fans
    ensures r.None? <==> forall j :: idx <= j < |frus| ==> fan !in frus[j].fans
    decreases |frus| - idx
  {
    if idx == |frus| then None
    else if FruHolds(frus[idx].fans, fan, 0) then Some(idx)
    else FanFruSearch(frus, fan, idx + 1)
  }

  /** fan_fru_get. */
  function FanFruGet(frus: seq<YamlFanFru>, fan: YamlFan): (r: Option<nat>)
    ensures r.Some? ==> r.value < |frus| && fan in frus[r.value].fans
    ensures r.Some? ==> forall j :: 0 <= j < r.value ==> fan !in frus[j].fans
    ensures r.None? <==> forall j :: 0 <= j < |frus| ==> fan !in frus[j].fans
  {
    FanFruSearch(frus, fan, 0)
  }

  /** The fan's FRU declares a direction-detect register, so that
      fand_read_direction will dereference the fan info. */
  predicate HasDirectionDetect(c: SubsystemCatalog, fan: YamlFan)
  {
    FanFruGet(c.frus, fan).Some? && c.frus[FanFruGet(c.frus, fan).value].fanDirectionDetect.Some?
  }

  /** fand_read_direction: "b2f" only when the fan's FRU has a direction
      register, the read succeeds, and the bit disagrees with the catalog's
      F2B polarity; "f2b" in every other case. The source dereferences the
      fan info without a check, so a caller must have it when it is used. */
  function ReadDirection(subsystem: string, c: SubsystemCatalog, fan: YamlFan, io: I2cOracle): (s: string)
    requires HasDirectionDetect(c, fan) ==> c.info.Some?
    ensures s == "f2b" || s == "b2f"
    ensures s == "b2f" <==>
      && HasDirectionDetect(c, fan)
      && var op := c.frus[FanFruGet(c.frus, fan).value].fanDirectionDetect.value;
         ReadField(subsystem, op, io).Some?
         && (ReadField(subsystem, op, io).value != 0) != (c.info.value.directionValues.f2b != 0)
  {
    match FanFruGet(c.frus, fan)
    case None => FanDirection.ToString(FanDirection.F2B)
    case Some(i) =>
      if c.frus[i].fanDirectionDetect.Some? then
        FanDirection.ToString(ReadFruDirection(subsystem, c.frus[i], c.info.value, io))
      else
        FanDirection.ToString(FanDirection.F2B)
  }
}
