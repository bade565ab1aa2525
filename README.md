# ops-fand: a verified model of the fan daemon's core

ops-fand is the OpenSwitch fan daemon. It keeps its own table of the
hardware subsystems the database reports. For each subsystem it loads a YAML
hardware description, creates one fan per described fan, and drives the
subsystem's fan-speed register over I2C. The speed comes from the
temperature sensors' demand and an administrator's override. Every poll it
reads each fan's tachometer, fault and airflow-direction registers back and
publishes the values that changed into the database's Fan rows.

This project models that core in Dafny and proves properties of it:

- `tables.dfy` (module `Tables`): an `Option` for possibly-NULL pointers and
  the first-match table search of the string-to-enum conversions.
- `fanspeed.dfy`, `fanstatus.dfy`, `fandirection.dfy`: the three enums and
  their string conversions, with round trips.
- `configyaml.dfy` (module `ConfigYaml`): the YAML catalog as an immutable
  value, its loader as a fallible oracle, and `i2c_execute` as a fallible
  oracle `I2cRequest -> I2cResult`.
- `physfan.dfy` (module `PhysFan`): the speed policy, the read-modify-write
  of the speed-control register, and the tachometer, fault and direction
  readers, as functions of the catalog and the I2C oracle's answers.
- `fand.dfy` (module `Fand`): the daemon's state as the class `FanDaemon`.
  - `subsystemData` is the subsystem table (subsystem_data).
  - `fanData` is the global fan index (fan_data).
  - `idlSeqno` is the last change-sequence number seen; `curHwSet` is the
    one-shot cur_hw flag.
  - The methods follow the C procedures loop by loop. Each is proved
    against specification functions (`Added`, `Pass`, `Refreshed`,
    `AllRowWrites`, …), and lemmas state what those functions promise.

A subsystem record (`struct locl_subsystem`) and a fan record (`struct
locl_fan`) are values filed in the two maps. A subsystem's `fans` field
holds the global names of its fans; the fan values live in `fanData`. The
invariant `Consistent` ties the two tables together:

- every fan is filed under its own name, "<subsystem>-<fan>";
- its owner is filed and lists it;
- every listed fan is in the index;
- a subsystem with fans has fan information.

Every operation that changes the tables keeps `Consistent`.

The database is abstract. A reconfiguration pass receives the subsystems
it reports, as `ReportedSubsystem` values. The status pass receives the
Fan rows (`FanRow`) and the names of the Daemon rows. It returns the column
writes of its transaction (`DbWrite`) and whether it commits. `ApplyWrites`
gives those writes a meaning.

The temperature-sensor aggregation starts from SLOW (fand.c:511) and raises
the demand to the highest sensor state.

## Model

| member | source | states |
|---|---|---|
| Tables.IndexOf | src/fanspeed.c:48-52 | the first index holding the name, with no earlier match; None exactly when the name is absent |
| FanSpeed.NamesDistinct | src/fanspeed.c:28-36 | the five speed names are pairwise different |
| FanSpeed.FromString | src/fanspeed.c:38-55 | NULL and unknown names give NONE; any other result is the level whose name was given |
| FanSpeed.ToString | src/fanspeed.c:57-66 | a level prints as its own name; NONE and out-of-range values print as "normal"; the result is always one of the five names |
| FanSpeed.RoundTrip | src/fanspeed.c:28-66 | printing a level and parsing it back gives the level |
| FanSpeed.PrintParsed | src/fanspeed.c:28-66 | parsing a recognised name and printing the level gives the name back |
| FanStatus.NamesDistinct | src/fanstatus.c:29-35 | the three status names are pairwise different |
| FanStatus.FromString | src/fanstatus.c:37-54 | NULL and unknown names give UNINITIALIZED; a known name gives the status of that name |
| FanStatus.ToString | src/fanstatus.c:56-62 | a status prints as its name; any other value, negatives included, prints as "uninitialized" |
| FanStatus.RoundTrip | src/fanstatus.c:29-62 | printing a status and parsing it back gives the status |
| FanDirection.NamesDistinct | fandirection.c:29-34 | "f2b" and "b2f" differ |
| FanDirection.FromString | fandirection.c:36-52 | NULL and unknown names give F2B; a known name gives its direction |
| FanDirection.ToString | fandirection.c:54-63 | a direction prints as its name; anything else prints as "f2b" |
| FanDirection.RoundTrip | fandirection.c:29-63 | printing a direction and parsing it back gives the direction |
| PhysFan.ResolveSpeed | src/physfan.c:67-80 | MAX from the sensors always wins; otherwise a configured override; otherwise the sensor demand; NORMAL when neither gives one; never NONE, and a level when its inputs are levels or NONE |
| PhysFan.ResolveIsMaxOfSafety | src/physfan.c:69-77 | with a sensor level and an override level or NONE, the result is a level and is one of the two inputs |
| PhysFan.SpeedCode | src/physfan.c:97-130 | each level selects its own catalog setting; any other value, NONE included, selects the NORMAL setting (the `default:` arm) |
| PhysFan.EffectiveSize | src/physfan.c:239-257 | sizes 1, 2 and 4 are kept; any other size falls back to a one-byte read |
| PhysFan.ReadField | src/physfan.c:229-287 | None exactly when i2c_execute fails; otherwise the received bytes, cut to the buffer width, masked with the field's mask |
| PhysFan.ReadFieldWithinMask | src/physfan.c:273-287 | a field value has no bit outside the field's mask |
| PhysFan.ReadFieldBelowMask | src/physfan.c:273-287 | a field value is at most the field's mask |
| PhysFan.ReadFieldBelowWidth | src/physfan.c:273-287 | a field value fits the buffer it was read into |
| PhysFan.ReadModifyWrite | src/physfan.c:184-198 | the value written has no bit outside the buffer's width |
| PhysFan.ReadModifyWriteOutside | src/physfan.c:184-198 | every bit outside the mask keeps the value it was read with, unless the code sets it |
| PhysFan.ReadModifyWriteInside | src/physfan.c:184-198 | a code inside the mask is exactly what the field holds after the write |
| PhysFan.SpeedControlOps | src/physfan.c:82-214 | no command without fan info, a speed-control field, a known device and a register size of 1, 2 or 4; otherwise a read of that register, then a write of the read-modify-write value to the same register exactly when the read succeeds |
| PhysFan.SpeedWriteKeepsOtherBits | src/physfan.c:145-198 | the speed write preserves every register bit outside the speed-control mask, except bits the configured code sets |
| PhysFan.SpeedWriteSetsField | src/physfan.c:97-198 | when the configured code lies inside the mask, the field holds exactly that code after the write |
| PhysFan.ReadRpm | src/physfan.c:217-288 | 0 when the read fails; otherwise the masked field as a two's-complement C int |
| PhysFan.ReadRpmNonNegative | src/physfan.c:273-287 | a tachometer mask without the sign bit never yields a negative rpm |
| PhysFan.ReadStatus | src/physfan.c:290-374 | UNINITIALIZED exactly when the read fails; FAULT exactly when the masked value is non-zero, inverted for a negative-polarity field; always a valid status |
| PhysFan.ReadFruDirection | src/physfan.c:376-470 | F2B exactly when the read fails or the bit's being set agrees with the catalog's f2b polarity; B2F otherwise |
| PhysFan.FruHolds | src/physfan.c:486-490 | true exactly when the fan appears in the FRU's list from the given slot on |
| PhysFan.FanFruSearch | src/physfan.c:480-492 | the first FRU, from the given one on, whose list holds the fan; None exactly when no such FRU exists |
| PhysFan.FanFruGet | src/physfan.c:472-493 | the first FRU whose list holds the fan, or None when no FRU holds it |
| PhysFan.ReadDirection | src/physfan.c:495-518 | "b2f" exactly when the fan's FRU has a direction register, the read succeeds and the bit disagrees with the f2b polarity; "f2b" in every other case |
| Fand.FanKey | fand.c:239 | the global fan name is the subsystem name, a dash and the catalog name, in that order |
| Fand.FanKeyInjective | fand.c:239-246 | subsystems whose names are not dash-prefixes of each other never produce the same global fan name for different fans |
| Fand.SensorDemandIsMax | fand.c:511-530 | the demand is a level, at least every sensor's parsed state, and either SLOW or one of those states |
| Fand.UnknownStateIgnored | fand.c:521-528 | a sensor whose fan_state is not recognised never changes the demand |
| Fand.HighestSensorSpeed | fand.c:511-530 | the loop over the temperature sensors computes the demand |
| Fand.ZeroSubsystem | fand.c:135-142 | the zero-filled record carries the name, is unmarked, is not valid and has no fans |
| Fand.NewFan | fand.c:239-243 | a created fan carries its global name, its owner and its catalog fan |
| Fand.FanMapEntries | fand.c:226-265 | every fan created is filed under its own name, is a fresh fan of the subsystem and comes from a catalog fan |
| Fand.FanMapSnoc | fand.c:230-246 | creating one more fan files it under its global name |
| Fand.FanMapHolds | fand.c:226-265 | when the catalog names its fans distinctly, every catalog fan gets a fan of its own |
| Fand.CatalogDir | fand.c:154-159 | hw_desc_dir when it is set and not empty; the default directory otherwise |
| Fand.OverrideOf | fand.c:143 | the other_config entry for "fan_speed_override", None exactly when the key is absent |
| Fand.AddKeepsConsistent | fand.c:137-246 | filing a new subsystem with the fans made for it keeps the two tables consistent when its name opens a namespace of its own |
| Fand.SetFanspeed | src/physfan.c:55-214 | the record's speed becomes the resolved speed, nothing else in it changes, and the commands issued are those of the speed-control policy |
| Fand.ReadFanStatus | src/physfan.c:520-528 | identity and speed unchanged; rpm is the tachometer reading times the multiplier; status is the fault read from the FRU (a valid status); direction is the direction read from the FRU ("f2b" or "b2f") |
| Fand.AddedFans | fand.c:226-246 | the fans filed for a new subsystem are exactly the ones its record lists |
| Fand.AddedRecord | fand.c:117-275 | the record is valid exactly when the catalog loads with fan info and at least one fan FRU; an invalid record has no fans and speed 0; a valid one drives a concrete level, the override when one is configured, and gets one fresh fan per distinctly named catalog fan |
| Fand.SameIndexConsistent | fand.c:301-310 | rewriting marks, demand, override and speed keeps the tables consistent |
| Fand.RewriteKeepsConsistent | fand.c:529-542 | rewriting those fields of one record keeps the tables consistent |
| Fand.RemoveKeepsConsistent | fand.c:322-341 | deleting a subsystem with the fans it lists keeps the tables consistent and leaves exactly the other subsystems' fans |
| Fand.FansOfNarrow | fand.c:322-346 | restricting the fans to a table and then to a smaller one equals restricting to the smaller one |
| Fand.FansOfAll | fand.c:315-347 | a consistent index holds only fans whose owner is filed |
| Fand.VisitedSpeed | fand.c:529-539 | a visited record is marked and drives a level: MAX whenever a sensor asks for it, else a recognised override, else the sensor demand |
| Fand.NamespacesDisjointSubset | fand.c:388-391 | fewer subsystem names keep disjoint namespaces |
| Fand.VisitsKeys | fand.c:506-543 | after the loop the table holds the old subsystems and the reported ones |
| Fand.VisitsUntouched | fand.c:506-543 | the loop leaves a subsystem that is not reported unchanged |
| Fand.VisitsReported | fand.c:506-543 | each reported subsystem ends visited when its found or added record is valid, and as found or added otherwise |
| Fand.PassOutcome | fand.c:490-547 | after a pass a subsystem is kept exactly when it was reported and its record is valid; each kept record carries this pass's demand, override, speed and mark |
| Fand.Refresh | fand.c:426-430 | a read-back fan keeps its identity and takes its subsystem's speed |
| Fand.SameFansConsistent | fand.c:424-433 | rewriting only the readback fields of fans keeps the tables consistent |
| Fand.RefreshKeepsConsistent | fand.c:424-433 | reading fans back changes no fan's name, owner or catalog fan, and keeps the tables consistent |
| Fand.RefreshKeysStep | fand.c:426-432 | reading one more fan back changes that fan's entry alone |
| Fand.ListedAreOwned | fand.c:424-426 | the fans a subsystem lists are exactly the fans it owns |
| Fand.Diff | fand.c:439-463 | every write for a row targets that row and is a Fan column write |
| Fand.ApplyWritesAppend | fand.c:437-463 | applying two batches of writes in turn is applying their concatenation |
| Fand.WriteIfApplies | fand.c:444-462 | a column write made only when the column differs leaves that column at the target value |
| Fand.StatusSpeedApplies | fand.c:444-453 | the status and speed writes set exactly those columns of the row |
| Fand.DirectionRpmApplies | fand.c:454-462 | the direction and rpm writes set exactly those columns of the row |
| Fand.DiffApplies | fand.c:439-463 | the writes for a row turn that row into the cached values and leave every other row alone |
| Fand.RowWritesEmpty | fand.c:439-463 | a row gets no writes exactly when it already shows the cached status, speed, direction and rpm |
| Fand.AllRowWritesTargets | fand.c:437-463 | every write of the compare loop targets one of the Fan rows |
| Fand.ApplyWritesPrefix | fand.c:437-463 | writes to the first rows leave a row after them alone |
| Fand.PublishMatches | fand.c:437-463 | after the writes of the compare loop, every Fan row shows its fan's cached status, speed, direction and rpm |
| Fand.FanDaemon.constructor | fand.c:93-99 | both tables start empty, cur_hw is unset, and the invariant holds |
| Fand.FanDaemon.AddSubsystem | fand.c:117-275 | the record of `Added` is filed and its fans join fan_data; the record is returned exactly when valid; a valid record drives its speed register; the invariant is kept |
| Fand.FanDaemon.CreateFans | fand.c:225-265 | the fans of all FRUs, FRU by FRU, join fan_data, and their names are returned as subsystem_fans |
| Fand.FanDaemon.CreateFruFans | fand.c:229-264 | the fans of one FRU join fan_data after those already created |
| Fand.FanDaemon.FileSubsystem | fand.c:137 | the new record is filed under its name and the invariant holds |
| Fand.FanDaemon.GetSubsystem | fand.c:279-298 | a known record is returned when valid and nothing is issued; an unknown one is added first and the commands are add_subsystem's; the invariant is kept |
| Fand.FanDaemon.UnmarkSubsystems | fand.c:301-310 | every record is unmarked and nothing else changes |
| Fand.FanDaemon.RemoveUnmarkedSubsystems | fand.c:315-347 | exactly the marked records stay, and fan_data keeps exactly the fans of those records |
| Fand.FanDaemon.DeleteFans | fand.c:324-337 | the fans the subsystem lists leave fan_data and no other fan does |
| Fand.FanDaemon.VisitSubsystem | fand.c:513-542 | the reported subsystem is found or added and, when valid, visited; fans of an added subsystem join fan_data; the commands are add_subsystem's for a new subsystem, then the speed-control commands of the visit when the record is valid |
| Fand.FanDaemon.UpdateSubsystem | fand.c:520-542 | the record takes this pass's demand, override, speed and mark, and its speed register is driven |
| Fand.FanDaemon.Reconfigure | fand.c:490-547 | an unchanged sequence number changes nothing and issues nothing; otherwise the table becomes `Pass` (see PassOutcome), fan_data keeps the fans of kept subsystems, new ones included, and the commands are those of the visits in order; the invariant is kept |
| Fand.FanDaemon.VisitAll | fand.c:506-543 | the loop over the reported subsystems, visit by visit; the commands are those of the visits in order |
| Fand.FanDaemon.ReadStatus | fand.c:412-482 | every fan is read back; the writes are the differing Fan columns (see PublishMatches) and the cur_hw write; cur_hw is flagged once a "fand" Daemon row exists; the transaction commits exactly when it holds a write |
| Fand.FanDaemon.ReadAllFans | fand.c:424-433 | every fan of every subsystem takes its subsystem's speed and is read back |
| Fand.FanDaemon.ReadSubsystemFans | fand.c:426-432 | the fans of one subsystem are read back and no other fan changes |
| Fand.FanDaemon.PublishFans | fand.c:437-463 | the writes are those the rows call for, in row order; the change flag is set exactly when there is a write |
| Fand.FanDaemon.CompareRow | fand.c:441-462 | the writes for one row are its differing columns, in order status, speed, direction, rpm; an empty rpm always differs |
| Fand.FanDaemon.MarkCurHw | fand.c:465-475 | the first time through, cur_hw is written on the first Daemon row named "fand", and the flag is raised exactly when such a row exists |

## Left out

- The OVSDB IDL is abstract. The model leaves out the connection, locking, change notifications and transaction objects. It also leaves out lookup_fan and the Fan-row creation that add_subsystem commits (fand.c:101-113, 248-270). A pass sees the database as the values handed to it.
- YAML parsing is a loader oracle. The header config-yaml.h and the YAML library are not part of this model; the catalog is an immutable value.
- i2c_execute is a deterministic oracle. Each request gets one answer, and a register read twice gives the same answer.
- Logging, i2c_debug, the unixctl dump, the CLI, the main loop and daemon plumbing are left out.
- Fand.ReadFanStatus: the product rpm times multiplier is not wrapped to a 32-bit int. An overflow there is undefined behaviour in C.
- Fand.FanDaemon.ReadStatus: requires every Fan row to name a fan in fan_data. The source dereferences the lookup without a check (fand.c:441-442).
- Fand.VisitsReported: assumes the reported subsystem names are unique. They are the key of the Subsystem table (fand.c:388-391). Fand.FanDaemon.Reconfigure itself takes any list.
- Fand.PassOutcome: assumes unique reported names, for the same reason.
- Fand.FanDaemon.AddSubsystem: like the invariant Fand.Consistent, excludes every pair of subsystem names where one, followed by a dash, starts the other (NamespacesDisjoint), whether or not their fan names actually collide. The source handles a pair such as "base" and "base-2" correctly unless a fan of "base" is named "2-…"; only such a real key collision would file two fans under one name in fan_data, and the model captures neither the harmless pairs nor the collision.
- Fand.FanDaemon.GetSubsystem: excludes the same pairs, for the same reason.
- Fand.FanDaemon.VisitSubsystem: excludes the same pairs, for the same reason.
- Fand.FanDaemon.VisitAll: excludes the same pairs, for the same reason.
- Fand.FanDaemon.Reconfigure: excludes the same pairs, for the same reason.
- PhysFan.FruHolds: compares catalog fans by value where the source compares pointers (src/physfan.c:487). When two FRUs list fully equal fan entries, the model returns the first such FRU, the source the FRU owning that pointer. Equal entries share a name, so this arises only with duplicate catalog fan names (see Fand.AddedRecord).
- PhysFan.FanFruSearch: compares fans by value, as PhysFan.FruHolds does.
- PhysFan.FanFruGet: compares fans by value, as PhysFan.FruHolds does.
- Fand.AddedRecord: the one-fan-per-catalog-fan promise needs distinctly named catalog fans. With duplicate names, the source keeps both entries in its hash while the model keeps one.
- The source shares one locl_fan between subsystem_fans and fan_data. The model stores it once, in fan_data, and lists names in the subsystem, so pointer aliasing is not modelled.
- parent_subsystem is always NULL (fand.c:141) and is not modelled.
- On a 4-byte register, the source's `unsigned long` buffer may hold bits above the 32 it reads. The model keeps 32 bits.
- The second size switch in fand_set_fanspeed (src/physfan.c:199-203) cannot be reached after the first, so it is not modelled.
- PhysFan.ToByte and PhysFan.ToCInt: the C conversions to `unsigned char` and `int`. They are written out without a contract of their own.
- A fan's readback fields start at the values add_subsystem writes to the fan's row. The source leaves them unset until the first status pass.
- The return codes of the speed-register write and of the transaction commit are ignored, as in the source.
- The removal of a subsystem's YAML data is not modelled (marked HALON_TODO at fand.c:343-344).
