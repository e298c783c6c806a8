# Neasmart 2.0 gateway core, modelled in Dafny

The gateway sits between a Rehau Neasmart 2.0 heating bus and a REST facade.
The bus is a fixed map of 65536 sixteen-bit holding registers. This project
models the register-level core of that gateway and proves its properties.

- **`Dpt9001`:** the KNX 2-octet float codec (DPT 9.001, section 3.10 of KNX
  System Specification 03.07.02 *Datapoint Types*). Values are integer
  hundredths. `Pack` keeps the source's halving loop and its OR-ed two-byte
  buffer (an `array`).
- **`Const`:** the register address map, i.e. zone, mixed-group,
  dehumidifier, pump and global registers. It also holds the mode and zone
  status tables with their reverse tables.
- **`ModbusManager`:** the three-state circuit breaker (a class proved
  against the pure step `CallStep`), the thread-safe data block, and the
  manager's read, write and bus-sync operations. The database is an abstract
  register map.
- **`Database`:** the locking persistent data block. It mirrors every block
  write into a key/value store, and `create_lpdb` fills and reloads that
  store.
- **`ModbusClient`:** the write-through client. It has the enable rule driven
  by configuration, the consecutive-error counter, the connection flags and
  the bounded retry loop. It also has the zone state write and the setpoint
  read, which use Modbus function codes 6 and 3 (sections 6.6 and 6.3 of the
  Modbus Application Protocol Specification V1.1b3).
- **Register services:** `ZoneService`, `DeviceService`,
  `TemperatureService`, `OperationService` and `NotificationService`.
- **Converters and models:** `StateConverter`, `DataTransformer` (with the
  laws about it in `RenameLaws`), `ZoneModels` and `OperationModels`.
- **Traffic and configuration:**
  - `Monitor`: an append-only operation log with filters and statistics.
  - `Config`: `ServerConfig` validation, the `int()`/`str()` field
    conversions between loading and saving, and the manager's cache.

`Wrappers`, `PyData` and `Registers` are shared helpers:

- `Wrappers` has Option and Result.
- `PyData` has a JSON-like value together with Python's insertion-ordered
  dict semantics, where `bool` counts as `int`.
- `Registers` has the scalar-or-list write argument and the overwrite of a
  register window.

Python integers are unbounded, and so are Dafny's. Python floats are exact
`real`s. Time, bus outcomes, store faults and file contents are parameters.

Where the code and its tests or prose disagree, the code is followed:

- `temperature_service.py` compares readings with `dpt_9001.DPT9001_MAX_VALUE`
  and `DPT9001_MIN_VALUE`, which `src/dpt_9001.py` does not define. The
  extremes are therefore an `Option` parameter: `None` is the code as
  written, and `Some(CodecExtremes)` is the evident intent (see Findings).
- `state_converter.py` looks up `MODE_MAPPING`, `STATE_MAPPING`,
  `ZONE_STATE_MAPPING` and their reverse tables, none of which `src/const.py`
  defines. Those tables are parameters. The round trips require only that
  the two tables are mutual inverses (`Const.InverseMaps`).
- No state table is chosen. The unit tests disagree on the name of state 1:
  `tests/unit/test_state_converter.py:29` says "presence", and
  `tests/unit/test_constants_refactoring.py:56` says "normal". The one
  concrete table that exists, `GLOBAL_OP_MODE_MAPPING`, is shown to qualify
  (`StateConverter.GlobalModeTableQualifies`).

## Model

| member | source | states |
|---|---|---|
| Dpt9001.Encode | src/dpt_9001.py:9-49 | pack fails exactly for a non-number or a value outside [-671088.64, 670760.96], with a type error only for a non-number; otherwise it yields a 16-bit word |
| Dpt9001.Pack | src/dpt_9001.py:9-49 | the halving loop and the OR-ed two-byte buffer compute exactly the word (or error) that `Encode` specifies |
| Dpt9001.PackWord | src/dpt_9001.py:38-49 | ORing sign, exponent and mantissa bytes into the buffer yields the word with exponent masked to 4 bits |
| Dpt9001.Normalize | src/dpt_9001.py:29-35 | the normalised mantissa always fits the 11-bit range [-2048, 2047] |
| Dpt9001.NormalizeIsLeastShift | src/dpt_9001.py:29-35 | after k halvings the mantissa is floor(c / 2^k), and k is the least shift that brings it into [-2048, 2047] |
| Dpt9001.EncodeExponentFits | src/dpt_9001.py:26-39 | over the accepted range the exponent is at most 15, so the 4-bit mask never truncates it |
| Dpt9001.Word | src/dpt_9001.py:38-49 | the packed word lies in [0, 65535] |
| Dpt9001.WordFields | src/dpt_9001.py:38-75 | unpack's mantissa and exponent fields recover exactly the sign/mantissa and exponent that pack laid out |
| Dpt9001.Mantissa | src/dpt_9001.py:66-72 | the decoded mantissa lies in [-2048, 2047] |
| Dpt9001.Exponent | src/dpt_9001.py:66-75 | the decoded exponent lies in [0, 15] |
| Dpt9001.Unpack | src/dpt_9001.py:52-78 | unpack rejects exactly the non-integer inputs, with a type error |
| Dpt9001.DecodeWord | src/dpt_9001.py:70-78 | decoding a word gives mantissa * 2^exponent hundredths |
| Dpt9001.DecodeLow16 | src/dpt_9001.py:66-67 | unpack uses only the low 16 bits of its input |
| Dpt9001.DecodeRange | src/dpt_9001.py:66-78 | every word decodes within the range pack accepts |
| Dpt9001.TruncationError | src/dpt_9001.py:29-35 | the truncation error of normalisation is at most 1/1024 of the value |
| Dpt9001.RoundTrip | src/dpt_9001.py:29-78 | unpack(pack(c)) is floor(c / 2^e) * 2^e: at most c, less than 2^e below it, within 1/1024 of it, and exact when c fits the mantissa |
| Dpt9001.TruncToInt | src/dpt_9001.py:29 | `int(value*100)` truncates toward zero for both signs |
| Dpt9001.EncodeTemperature | src/dpt_9001.py:29-49 | 21.5 packs to 3123, which decodes to 2150 hundredths |
| Dpt9001.DecodeExtremeWords | tests/unit/test_dpt_9001.py:30-34 | 0xFFFF decodes to -327.68, inside (-400, 400), and 0x7FFF decodes to the maximum 670760.96 |
| Dpt9001.EncodeRejects | src/test_dpt_9001.py:16-28 | 700000.0 and -700000.0 are out of range, and a string is rejected by both pack and unpack |
| Dpt9001.EncodeZero | tests/unit/test_dpt_9001.py:23-28 | zero packs to word 0, which decodes to 0 |
| Const.ReverseIsInverse | src/const.py:176 | a table built from an enumerated list and its reverse comprehension are mutual inverses over exactly the list's indices |
| Const.ModeMappingReverseIsInverse | src/const.py:168-176 | `GLOBAL_OP_MODE_MAPPING_REVERSE` is the exact inverse of `GLOBAL_OP_MODE_MAPPING` over modes 0-5, with "auto" at 1 |
| Const.ZoneOpStatusFinalBinding | src/const.py:146-166 | the final binding maps off, presence, away, standby and scheduled to 0-4, and the names of the first binding such as "party" are gone |
| Const.DeprecatedAliasesAgree | src/const.py:18-27 | the deprecated zone multipliers give the same address as the new ones, and zone (1,5) is register 500 |
| Const.ZoneAddressBounds | src/const.py:90-91 | every valid zone's base register lies in [100, 4800] |
| Const.ZoneAddressesApart | src/const.py:90-91 | distinct valid zones have base registers at least 100 apart |
| Const.ZoneRegistersDisjoint | src/const.py:90-94 | the state, setpoint, temperature and humidity registers of distinct zones are disjoint and lie in [100, 4810] |
| Const.MixedGroupBlocksDisjoint | src/const.py:97-107 | the mixed-group blocks 10-13, 14-17 and 18-21 are pairwise disjoint |
| Const.DeviceRangesDisjoint | src/const.py:97-134 | dehumidifiers 1-9 occupy 22-30 and pumps 1-5 occupy 31-35, disjoint from each other and from the mixed groups |
| Const.GlobalRegistersDistinct | src/const.py:110-130 | the global registers 1, 2, 3, 5, 6, 7 and 8 are pairwise distinct |
| ModbusManager.InitialBreakerInv | src/modbus_manager.py:67-73 | a fresh breaker satisfies the breaker invariant |
| ModbusManager.CallPreservesInv | src/modbus_manager.py:64-127 | every call preserves the invariant: CLOSED has fewer failures than the threshold, OPEN has a failure time, and HALF_OPEN has fewer calls than its maximum |
| ModbusManager.RejectedExactly | src/modbus_manager.py:78-102 | a call is rejected exactly when the breaker is OPEN and the reset test fails, and then no field changes |
| ModbusManager.AdmittedOutcome | src/modbus_manager.py:79-127 | an admitted call enters HALF_OPEN with zero calls when resetting; a success then closes or counts, and a failure counts, stamps the time, and opens from HALF_OPEN or at the threshold |
| ModbusManager.ThresholdFailuresOpen | src/modbus_manager.py:115-127 | enough consecutive failures from CLOSED with no recorded failure open the breaker |
| ModbusManager.ThresholdFailuresOpenTimed | src/modbus_manager.py:115-127 | the same holds when a failure time is already recorded |
| ModbusManager.OpenRejectsUntilTimeout | src/modbus_manager.py:78-102 | an OPEN breaker rejects every call until strictly more than `recovery_timeout` has passed since the last failure |
| ModbusManager.CircuitBreaker.constructor | src/modbus_manager.py:67-73 | the breaker starts CLOSED with zero counters and no failure time |
| ModbusManager.CircuitBreaker.ShouldAttemptReset | src/modbus_manager.py:96-102 | a reset is due when no failure is recorded or the timeout has strictly elapsed |
| ModbusManager.CircuitBreaker.OnSuccess | src/modbus_manager.py:104-113 | the fields change as the success step specifies |
| ModbusManager.CircuitBreaker.OnFailure | src/modbus_manager.py:115-127 | the fields change as the failure step specifies |
| ModbusManager.CircuitBreaker.Call | src/modbus_manager.py:75-94 | the new fields and the outcome (rejected, failed, succeeded) are those of `CallStep` |
| ModbusManager.RegisterDatabase.GetRegisters | src/modbus_manager.py:151-152 | the database's registers for the requested window |
| ModbusManager.RegisterDatabase.SetRegisters | src/modbus_manager.py:164-165 | when the write succeeds the window is overwritten; otherwise nothing changes and it raises |
| ModbusManager.ThreadSafeDataBlock.constructor | src/modbus_manager.py:141-152 | the block starts with the database's values |
| ModbusManager.ThreadSafeDataBlock.SetValues | src/modbus_manager.py:154-168 | a scalar is wrapped; the block always takes the values, and the database takes them only when its write succeeds |
| ModbusManager.ThreadSafeDataBlock.GetValues | src/modbus_manager.py:170-173 | the block's values for the window |
| ModbusManager.ModbusManager.constructor | src/modbus_manager.py:181-227 | a fresh breaker and a block loaded from the database |
| ModbusManager.ModbusManager.ReadRegisters | src/modbus_manager.py:246-272 | an open breaker returns the database values; a bus error propagates; a success returns the block values and persists them only when `update_db` is set; the block is never changed |
| ModbusManager.ModbusManager.WriteRegisters | src/modbus_manager.py:274-300 | when the breaker admits the write the block takes the values and the database holds them if either the block's swallowed persisting write or the direct write went through, while the direct write alone decides success or `ModbusWriteError` (so the database can be updated and the call still fail); when the breaker is open only the database takes them and `CircuitBreakerOpen` is raised again, or the database's error |
| ModbusManager.ModbusManager.ReadRegister | src/modbus_manager.py:302-304 | a one-register read: the breaker steps as for the range read; an open breaker gives the database value and a bus error the read error, the database unchanged; an admitted read gives the block value, stored in the database when `update_db` (or DatabaseError when that store raises) |
| ModbusManager.ModbusManager.WriteRegister | src/modbus_manager.py:306-308 | a one-register write: the database takes the value when the direct write, or (breaker not open) the block's own persisting write, goes through; the block takes it unless the breaker is open; the result is CircuitBreakerOpen (or the database error) when open, the write error when the guarded call fails, success otherwise |
| ModbusManager.ModbusManager.Persist | src/modbus_manager.py:283-289 | the block takes the values, and the database holds them when either the block's persisting write or the direct write goes through |
| ModbusManager.ModbusManager.SyncFromBus | src/modbus_manager.py:310-331 | the batches run in order through the breaker; `synced` counts exactly the batches that did not raise, and the database takes the block's values over exactly the batches whose read returned and whose `update_db` write went through, counted or not |
| ModbusManager.ModbusManager.SyncBatch | src/modbus_manager.py:318-329 | one batch is a read through the breaker that updates the database when it returns, then a second store of the values: a returned read whose second store raises leaves the database updated but the batch uncounted, and a cached read counts when its second store goes through |
| ModbusManager.BatchFacts | src/modbus_manager.py:316-320 | each batch starts inside the range with length min(100, remaining), and only the last batch is short |
| ModbusManager.BatchesPartition | src/modbus_manager.py:310-331 | the batches start at `start`, are contiguous and end at start+count, so they partition the range |
| ModbusManager.Merge | src/modbus_manager.py:318-329 | the database after a sync holds block values on synced windows and its old values elsewhere |
| Database.RegisterStore.Store | src/database.py:34 | one key is written and no other changes |
| Database.RegisterStore.StoreValues | src/database.py:33-34 | the keys are written in order until the first faulting write |
| Database.StoreAll | src/database.py:33-34 | after writing, `reg_dict[a+k] = vs[k]` for every k, and no other key changes |
| Database.Written | src/database.py:33-34 | the number of writes done before a fault: all of them when nothing faults, none without a store |
| Database.LpdbClass.constructor | src/database.py:19-20 | the shared store starts absent |
| Database.LockingPersistentDataBlock.constructor | src/database.py:84 | the block starts at its address with the given values |
| Database.LockingPersistentDataBlock.SetValues | src/database.py:22-35 | a scalar is wrapped; the store is written first, and a faulting store write leaves the block untouched; otherwise block and store stay in step |
| Database.LockingPersistentDataBlock.WriteBlock | src/database.py:35 | the block window is overwritten with the values |
| Database.LockingPersistentDataBlock.GetValues | src/database.py:37-50 | n consecutive block values and nothing changed |
| Database.WriteKeepsInStep | src/database.py:33-35 | writing the same values to block and store keeps them in step |
| Database.SortedKeys | src/database.py:82 | the store's keys in strictly increasing order |
| Database.OrderedValues | src/database.py:82-84 | the store's values ordered by integer key |
| Database.SortedKeysRange | src/database.py:82-84 | the sorted keys of 0..n-1 are 0, 1, ..., n-1 |
| Database.LoadedBlockMatchesStore | src/database.py:82-84 | when the keys are 0..n-1, `block[i] == reg_dict[i]` |
| Database.CreateLpdb | src/database.py:52-84 | a missing store is created with exactly the keys 0..65535 set to 0; the block starts at 0 with the store's values in key order |
| Database.InitialStore | src/database.py:63-73 | the fill loop creates exactly the keys 0..65535, each with 0 |
| Database.LoadedInStep | src/database.py:82-84 | a block loaded from a store over 0..n-1 starts in step with it |
| Database.FreshStoreLoadsZeros | src/database.py:63-84 | a freshly created store loads as 65536 zeros |
| ModbusClient.EnabledRule | src/modbus_client.py:65-77 | disabled when `enabled` is false, or when disable-on-error is set and the errors reach the maximum; enabled otherwise |
| ModbusClient.DefaultsNeverDisable | src/modbus_client.py:52-77 | with the default configuration the gateway is enabled at any error count |
| ModbusClient.FlagOnDisablesAtThree | src/modbus_client.py:60-77 | with only disable-on-error set, the gateway disables at three errors |
| ModbusClient.SetpointAddr | src/modbus_client.py:155-156 | the setpoint target is (base-1)*1200 + zone*100 + 1 |
| ModbusClient.FirstAccepted | src/modbus_client.py:168-194 | the index of the first accepted attempt, with every earlier attempt failing, or none |
| ModbusClient.AttemptsMade | src/modbus_client.py:168-220 | at most `max_retries` attempts are made |
| ModbusClient.AttemptsStopAtFirstSuccess | src/modbus_client.py:168-194 | the attempts stop right after the first accepted one, or run out |
| ModbusClient.FirstAcceptedStable | src/modbus_client.py:168-194 | the first accepted attempt does not depend on how many attempts follow it |
| ModbusClient.NoRoundsMeansFailure | src/modbus_client.py:222-224 | with `max_retries` 0 no attempt is made and the call fails |
| ModbusClient.NeasmartModbusClient.constructor | src/modbus_client.py:30-50 | no client, not connected, zero errors |
| ModbusClient.NeasmartModbusClient.IsGatewayEnabled | src/modbus_client.py:65-77 | the enable rule on the current error count |
| ModbusClient.NeasmartModbusClient.RecordError | src/modbus_client.py:79-83 | one more error, stamped with the time |
| ModbusClient.NeasmartModbusClient.RecordSuccess | src/modbus_client.py:85-89 | the error count is reset to 0 |
| ModbusClient.NeasmartModbusClient.Connect | src/modbus_client.py:91-122 | a no-op success when already connected; otherwise a client is created and connected exactly when the attempt succeeds; errors untouched |
| ModbusClient.NeasmartModbusClient.Disconnect | src/modbus_client.py:124-134 | disconnected with no client; errors untouched |
| ModbusClient.NeasmartModbusClient.WriteZoneSetpoint | src/modbus_client.py:136-224 | disabled: False with nothing done; connect failure: one error, a client kept but not connected; otherwise writes to the setpoint register until the first success with sleeps only between attempts, where success resets the count and failure adds exactly one |
| ModbusClient.NeasmartModbusClient.WriteZoneState | src/modbus_client.py:226-272 | writes the state register, with no enable check and no error counting |
| ModbusClient.NeasmartModbusClient.ReadZoneSetpoint | src/modbus_client.py:274-319 | reads the setpoint register, with no enable check and no error counting |
| ZoneService.ValidateZoneParams | src/services/zone_service.py:26-43 | accepts exactly base 1-4 with zone 1-12, reporting the base before the zone |
| ZoneService.ValidZoneInRange | src/services/zone_service.py:56 | a valid zone's registers up to humidity lie inside the register map, at the address of either constant set |
| ZoneService.GetZoneData | src/services/zone_service.py:45-91 | state from the zone register, decoded setpoint from +1, decoded temperature from +2 and raw humidity from +10 |
| ZoneService.UpdateOutcome | src/services/zone_service.py:93-130 | success is (True, the fixed message, the packed setpoint or None); a pack error or a store fault raises instead |
| ZoneService.UpdateZoneData | src/services/zone_service.py:93-130 | state written first if given, then the packed setpoint if given; the result is `UpdateOutcome`, and block and store stay in step |
| ZoneService.ReadBack | src/services/zone_service.py:64-128 | after an update, the setpoint read back is unpack(pack(s)), the state is the one given (or unchanged), and temperature and humidity are unchanged |
| ZoneService.UpdateTouchesOnlyZone | src/services/zone_service.py:108-128 | no register other than the zone's state and setpoint changes |
| ZoneService.PackFailureKeepsStateWrite | src/services/zone_service.py:108-118 | a setpoint that fails to pack raises after the state has already been written |
| DeviceService.ValidateDehumidifierId | src/services/device_service.py:26-38 | accepts exactly ids 1-9 |
| DeviceService.ValidatePumpId | src/services/device_service.py:40-52 | accepts exactly ids 1-5 |
| DeviceService.ValidateMixedGroupId | src/services/device_service.py:54-66 | rejects only 0 and ids above 3 |
| DeviceService.GetDehumidifierState | src/services/device_service.py:68-84 | the state of register id+21 |
| DeviceService.GetPumpState | src/services/device_service.py:86-102 | the state of register id+30 |
| DeviceService.GetMixedGroupData | src/services/device_service.py:104-149 | valve and pump raw at base+0 and +1, flow and return decoded at +2 and +3; a key error for ids not in the table |
| DeviceService.NegativeGroupIdsPassThenFail | src/services/device_service.py:64-114 | negative group ids pass validation and then fail the table lookup; ids 1-3 are the only ones that pass both |
| DeviceService.DeviceReadsSeparate | src/services/device_service.py:68-149 | each device read depends on its own registers only |
| TemperatureService.ValidateTemperature | src/services/temperature_service.py:29-69 | outside [-50.00, 60.00] is None; within the range, a missing extremes constant raises, and a value within 0.01 of an extreme is None; otherwise the value |
| TemperatureService.ReadTemperatureRegister | src/services/temperature_service.py:71-113 | raw 0x7FFF, raw 0 and any raised error give None; a result is the decoded register within the reasonable range |
| TemperatureService.GetOutsideTemperatureData | src/services/temperature_service.py:115-150 | registers 7 and 8 are read and validated each on its own |
| TemperatureService.ReadingsIndependent | src/services/temperature_service.py:125-150 | changing one of the two temperature registers does not change the other reading |
| TemperatureService.AsWrittenAlwaysNone | src/services/temperature_service.py:55-113 | as written, every reading is None |
| TemperatureService.AsWrittenDropsValidReading | src/services/temperature_service.py:55-113 | as written, the 21.50 degree reading 3123 is dropped, while with the codec's extremes it is returned |
| TemperatureService.CodecExtremesFarOff | src/services/temperature_service.py:46-67 | the codec's extremes lie far outside the reasonable range |
| TemperatureService.CorrectedAccepts | src/services/temperature_service.py:46-109 | with the extremes defined, a reading is returned exactly when the raw value is neither 0x7FFF nor 0 and decodes inside the reasonable range |
| TemperatureService.ExtremeDropped | src/services/temperature_service.py:55-67 | a reading near a defined extreme is None |
| OperationService.GetMode | src/services/operation_service.py:32-39 | register 1 |
| OperationService.GetState | src/services/operation_service.py:53-60 | register 2 |
| OperationService.GetModeName | src/services/operation_service.py:41-42 | the mode register's name, or the converter's error for an unknown code |
| OperationService.GetStateName | src/services/operation_service.py:62-63 | the state register's name, or the converter's error for an unknown code |
| OperationService.SetMode | src/services/operation_service.py:44-50 | a scalar is wrapped and written from register 1 on; the store holds every value written before a raise, the block takes all of them only when none raised, and a block in step with the store stays so; afterwards the mode reads back as the value and the state is unchanged |
| OperationService.SetState | src/services/operation_service.py:65-71 | the same for register 2 (store, block and the in-step invariant), leaving the mode unchanged |
| OperationService.ModeListSpillsIntoState | src/services/operation_service.py:44-50 | a two-value list written as the mode overwrites the state register |
| OperationService.ModeNameAfterSet | src/services/operation_service.py:41-50 | setting a mode by name and reading its name back gives the normalised name |
| NotificationService.GetNotificationData | src/services/notification_service.py:24-53 | each flag holds exactly when its register (6 hints, 5 warnings, 3 errors) equals 1 |
| NotificationService.OnlyOneIsPresent | src/services/notification_service.py:31-47 | any value other than 1, including 2, reads as absent |
| NotificationService.FlagsDependOnThreeRegisters | src/services/notification_service.py:24-53 | no register other than 3, 5 and 6 affects the flags |
| StateConverter.NormalizeIdempotent | src/utils/state_converter.py:12-15 | normalising a key twice is the same as once |
| StateConverter.NormalizedShape | src/utils/state_converter.py:12-15 | a normalised key is lower-case words separated by single spaces, with no dash or underscore |
| StateConverter.NormalizeTwoWords | src/utils/state_converter.py:12-15 | blanks, dashes and underscores between two words collapse to one space |
| StateConverter.ManualHeatingNormal | src/utils/state_converter.py:12-15 | "manual heating" is already normal |
| StateConverter.ManualHeatingUnderscore | src/utils/state_converter.py:12-15 | "manual_heating" normalises to "manual heating" |
| StateConverter.ManualHeatingModes | tests/unit/test_state_converter.py:19 | both spellings map to the same mode |
| StateConverter.AutoNormalizes | src/utils/state_converter.py:12-15 | "AUTO" normalises to "auto" |
| StateConverter.CodeToName | src/utils/state_converter.py:18-25 | the table's name for a known int, an "unknown" error for other ints, and a type error for non-ints |
| StateConverter.NameToCode | src/utils/state_converter.py:28-38 | ints pass through unchanged; a string is normalised and looked up, with an error when unknown; anything else is an error |
| StateConverter.CodeNameRoundTrip | src/utils/state_converter.py:18-38 | with inverse tables, name_to(to_name(m)) == m |
| StateConverter.NameCodeRoundTrip | src/utils/state_converter.py:18-38 | with inverse tables, to_name(name_to(n)) is n normalised |
| StateConverter.SpellingsAgree | src/utils/state_converter.py:32-36 | two names with the same normal form map to the same code |
| StateConverter.GlobalModeTableQualifies | src/const.py:168-176 | the global mode tables are inverse, "AUTO" maps to 1 and 1 names "auto" |
| DataTransformer.SplitUnderscores | src/utils/data_transformer.py:24 | the pieces contain no underscore and join back to the input |
| DataTransformer.Capitalize | src/utils/data_transformer.py:25 | first letter upper, rest lower, same length |
| DataTransformer.ToCamelCase | src/utils/data_transformer.py:14-25 | the first piece verbatim, then each later piece capitalised |
| DataTransformer.CamelCaseShape | src/utils/data_transformer.py:14-25 | the result has no underscore, starts with the first piece, and a key without underscores is unchanged |
| DataTransformer.SplitJoin | src/utils/data_transformer.py:24 | splitting joined pieces gives the pieces back |
| DataTransformer.ToSnakeCase | src/utils/data_transformer.py:28-40 | the result has no upper-case letter |
| DataTransformer.CaseRoundTrip | src/utils/data_transformer.py:14-40 | for lower-case words, camel case of the snake key is first + Capitalized rest, and snake case of that gives the snake key back |
| DataTransformer.TwoWordKey | src/utils/data_transformer.py:14-40 | the two conversions are inverse on two-word keys |
| DataTransformer.ThreeWordKey | src/utils/data_transformer.py:14-40 | the two conversions are inverse on three-word keys |
| DataTransformer.OperationModeKey | tests/unit/test_constants_refactoring.py:96-103 | "operation_mode" and "operationMode" convert into each other |
| DataTransformer.OutsideTemperatureKey | tests/unit/test_constants_refactoring.py:97-104 | "outside_temperature" and "outsideTemperature" convert into each other |
| DataTransformer.FilteredOutsideTemperatureKey | tests/unit/test_constants_refactoring.py:98-105 | "filtered_outside_temperature" and "filteredOutsideTemperature" convert into each other |
| DataTransformer.RelativeHumidityKey | tests/unit/test_constants_refactoring.py:99-106 | "relative_humidity" and "relativeHumidity" convert into each other |
| DataTransformer.NestedDataKey | tests/unit/test_constants_refactoring.py:113-134 | "nested_data" and "nestedData" convert into each other |
| DataTransformer.RenameKeys | src/utils/data_transformer.py:43-69 | non-dict input is returned unchanged, and a dict comes back as a dict with distinct keys |
| DataTransformer.RenameEntries | src/utils/data_transformer.py:56-69 | the renamed entries have distinct keys and are no more than the originals |
| DataTransformer.RenameValue | src/utils/data_transformer.py:58-69 | scalars are kept, and lists keep their length |
| DataTransformer.RenameItem | src/utils/data_transformer.py:62-65 | list items that are not dicts are kept |
| DataTransformer.TransformDict | src/utils/data_transformer.py:43-98 | the loop-and-recursion transformer computes the recursive renaming |
| DataTransformer.TransformValue | src/utils/data_transformer.py:58-98 | the same for a value |
| DataTransformer.TransformApiResponse | src/utils/data_transformer.py:101-119 | dicts are renamed by the chosen direction, lists element-wise, and the rest is unchanged |
| DataTransformer.ReverseOf | src/utils/data_transformer.py:162 | for an injective table, the reverse maps each value back to its key |
| DataTransformer.FieldMappingsInvolution | src/utils/data_transformer.py:123-144 | `FIELD_MAPPINGS` maps every name to a name that maps back to it |
| DataTransformer.BackendNameMapsBack | src/utils/data_transformer.py:125-144 | each backend name maps to a frontend name that maps back |
| DataTransformer.FrontendNameMapsBack | src/utils/data_transformer.py:125-144 | each frontend name maps to a backend name that maps back |
| DataTransformer.InvolutionReverse | src/utils/data_transformer.py:162 | the reverse of an involution is the involution itself |
| DataTransformer.ReverseIsForward | src/utils/data_transformer.py:162 | the reverse table built at line 162 equals `FIELD_MAPPINGS` |
| DataTransformer.MapFieldProperties | src/utils/data_transformer.py:162-174 | unknown keys keep their name, known keys are mapped, and mapping twice gives the key back |
| RenameLaws.RenameEntriesKeys | src/utils/data_transformer.py:56-69 | a key is present exactly when some original key renames to it |
| RenameLaws.RenameEntriesLastWins | src/utils/data_transformer.py:56-69 | when two keys rename alike, the later entry's value wins |
| RenameLaws.RenameEntriesDistinct | src/utils/data_transformer.py:56-69 | with distinct renamed keys the entries are renamed in place |
| RenameLaws.RenameKeysTwice | src/utils/data_transformer.py:43-98 | renaming with a function and then its inverse restores the dict, over the whole tree |
| RenameLaws.RenameValueTwice | src/utils/data_transformer.py:58-98 | the same for any value |
| RenameLaws.FieldMappingsInvert | src/utils/data_transformer.py:147-176 | forward and reverse field mappings are inverse key functions |
| RenameLaws.FieldMappingsRoundTrip | src/utils/data_transformer.py:147-176 | `apply_field_mappings` with reverse=True after reverse=False restores the dict |
| RenameLaws.NestedListKept | src/utils/data_transformer.py:61-65 | a list inside a list is left untouched |
| RenameLaws.ApiResponseNestedList | src/utils/data_transformer.py:112-117 | `transform_api_response` goes one list deeper before the dict transformer starts |
| RenameLaws.SnakeWordKeysUndone | src/utils/data_transformer.py:43-98 | snake_case keys made of lower-case words survive camel then snake |
| RenameLaws.CamelWordKeysUndone | src/utils/data_transformer.py:43-98 | camelCase keys of that shape survive snake then camel |
| RenameLaws.CaseTransformRoundTrip | src/utils/data_transformer.py:43-98 | the two dict transformers undo each other on such trees |
| RenameLaws.CamelCaseExample | tests/unit/test_constants_refactoring.py:108-127 | the nested example dict converts to its camel-case form |
| RenameLaws.SnakeCaseExample | tests/unit/test_constants_refactoring.py:129-148 | the nested example dict converts back to its snake-case form |
| RenameLaws.OperationModeMapped | src/utils/data_transformer.py:125 | "operation_mode" maps to "operationMode" |
| RenameLaws.OutsideTemperatureMapped | src/utils/data_transformer.py:127 | "outside_temperature" maps to "outsideTemperature" |
| RenameLaws.ZoneIdMapped | src/utils/data_transformer.py:123-144 | "zone_id" maps to "zoneId" |
| RenameLaws.FieldMappingsExample | tests/unit/test_constants_refactoring.py:150-165 | the example dict maps to its frontend names |
| RenameLaws.FieldMappingsReverseExample | tests/unit/test_constants_refactoring.py:167-182 | and back with reverse=True |
| ZoneModels.ZoneDataToDict | src/models/zone_models.py:16-23 | the four fields in order, with only `relative_humidity` renamed and temperatures in degrees |
| ZoneModels.PlainFieldNames | src/models/zone_models.py:16-23 | the unrenamed field names are already camel case |
| ZoneModels.ZoneDataKeysAreCamelCase | src/models/zone_models.py:16-23 | every output key is the camel case of its field name |
| ZoneModels.ZoneRequestFromDict | src/models/zone_models.py:33-39 | "state" and "setpoint" are copied, with missing keys becoming None |
| ZoneModels.ValidateZoneRequest | src/models/zone_models.py:41-59 | checks emptiness, then an int state that is neither 0 nor above 6, then a numeric setpoint, returning the first failing message |
| ZoneModels.ValidationGaps | src/models/zone_models.py:51-57 | negative states, unbounded setpoints and `True` as a state pass, while `False` does not |
| ZoneModels.EmptyBodyRejected | src/models/zone_models.py:34-49 | a body with neither key is rejected with the "state or setpoint" message |
| OperationModels.ValidateMode | src/models/operation_models.py:27-40 | 0 is "missing mode", values above 5 are "invalid mode", and everything else, negatives included, passes |
| OperationModels.ValidateState | src/models/operation_models.py:61-74 | the same with bound 6 |
| OperationModels.ModeFromDict | src/models/operation_models.py:20-25 | the value goes through `name_to_mode`, so a missing key fails before validation |
| OperationModels.StateFromDict | src/models/operation_models.py:54-59 | the same through `name_to_state` |
| OperationModels.ModeToDict | src/models/operation_models.py:15-18 | `{'mode': mode}`, or the mode's name when readable (an error for an unknown code) |
| OperationModels.StateToDict | src/models/operation_models.py:49-52 | the same for state |
| OperationModels.MissingKeyFailsEarly | src/models/operation_models.py:21-25 | a dict lacking the key fails in the converter |
| OperationModels.ModeRoundTrip | src/models/operation_models.py:15-25 | `from_dict(to_dict(m))` gives m back, readable or not, with inverse tables |
| OperationModels.StateRoundTrip | src/models/operation_models.py:49-59 | the same for state |
| OperationModels.NegativeCodesPass | src/models/operation_models.py:34-74 | -1 passes as a mode and -7 as a state; 6 fails as a mode but passes as a state |
| Monitor.Select | src/modbus_monitor.py:100-106 | keeps only records that match and loses none that do |
| Monitor.SelectCounts | src/modbus_monitor.py:100-106 | each record that matches occurs in the result as often as in the log, no other record occurs; with SelectEmbeds (log order kept) this fixes the result |
| Monitor.Filtered | src/modbus_monitor.py:97-106 | the successive filters never grow the log |
| Monitor.FilteredFused | src/modbus_monitor.py:97-106 | the successive filters equal one filter by all given criteria |
| Monitor.LastN | src/modbus_monitor.py:108-110 | the last n records; None or 0 keep all, following Python slice semantics |
| Monitor.QuerySubsequence | src/modbus_monitor.py:86-112 | a query result is a subsequence of the log in log order |
| Monitor.FindSource | src/modbus_monitor.py:130 | the position of a source's counters, or none when it is new |
| Monitor.CountOneSums | src/modbus_monitor.py:129-137 | counting one record adds one read or one write to the per-source sums |
| Monitor.BySourceSums | src/modbus_monitor.py:128-137 | per-source reads sum to the reads and per-source writes to the non-reads |
| Monitor.BySourceKeys | src/modbus_monitor.py:128-131 | each source appears once, and exactly the sources in the log appear |
| Monitor.AddressesExact | src/modbus_monitor.py:133-141 | an address is listed exactly when a record of that kind has it |
| Monitor.StatisticsAddresses | src/modbus_monitor.py:133-141 | the address lists are sorted, duplicate-free and exact |
| Monitor.StatisticsTotals | src/modbus_monitor.py:114-137 | total is the log length, reads and writes count their types, and per-source counts sum to the total |
| Monitor.ReadsAndWrites | src/modbus_monitor.py:120-122 | when only reads and writes are logged, they add up to the total |
| Monitor.OtherTypeCountsAsWrite | src/modbus_monitor.py:121-137 | a record of another type is not counted in `writes`, yet counts as a write for its source |
| Monitor.ModbusMonitor.constructor | src/modbus_monitor.py:48-54 | empty log, enabled |
| Monitor.ModbusMonitor.LogOperation | src/modbus_monitor.py:56-62 | exactly one record appended when enabled, none otherwise |
| Monitor.ModbusMonitor.LogRead | src/modbus_monitor.py:76-79 | logs a "read" record with the given address, count and source |
| Monitor.ModbusMonitor.LogWrite | src/modbus_monitor.py:81-84 | logs a "write" record with the given address, values and source |
| Monitor.ModbusMonitor.GetOperations | src/modbus_monitor.py:86-112 | exactly the records matching every filter, in log order, cut to the last `last_n` of them when `last_n` is positive (Python's `ops[-last_n:]`, so a negative `last_n` drops that many from the front), all of them when it is None or 0; a subsequence of the log; the whole log without filters; the log is not changed |
| Monitor.ModbusMonitor.GetStatistics | src/modbus_monitor.py:114-143 | the counting loop computes the statistics of the log |
| Monitor.ModbusMonitor.Clear | src/modbus_monitor.py:145-148 | the log is empty afterwards |
| Monitor.Tally | src/modbus_monitor.py:129-137 | the per-source loop step counts one record |
| Config.MakeServerConfig | src/config.py:22-29 | accepted exactly when the server type is "tcp" or "serial", slave id is 1-255 and listen port is 1-65535, with the first failing check's error; the server port is not checked |
| Config.DefaultsValid | src/config.py:16-20 | the defaults pass validation, whatever the server port |
| Config.ParseInt | src/config.py:61-63 | a result needs a non-blank string |
| Config.ParseUnsigned | src/config.py:61-63 | a digit string parses to its value |
| Config.ParseNegative | src/config.py:61-63 | a minus sign negates it |
| Config.IntStringRoundTrip | src/config.py:93-99 | `int(str(n)) == n` for every integer |
| Config.LettersDoNotParse | src/config.py:61-63 | a word of letters does not parse |
| Config.ToInt | src/config.py:61-63 | ints pass, strings parse or raise ValueError, and None, lists and dicts raise TypeError |
| Config.Recover | src/config.py:69-72 | only a ValueError falls back to the defaults |
| Config.ConvertField | src/config.py:61-63 | a converted field holds the int it was converted to |
| Config.Construct | src/config.py:65-72 | a loaded configuration is valid, and one that is not from the file is the default |
| Config.LoadEntries | src/config.py:60-72 | the same for a decoded dict |
| Config.Load | src/config.py:52-72 | a missing or undecodable file gives the defaults, a non-dict raises, and anything loaded is valid |
| Config.SaveConfig | src/config.py:85-99 | the saved dict has the five fields in order |
| Config.ConvertSaved | src/config.py:61-63 | converting a saved string field gives back its number |
| Config.LoadShaped | src/config.py:60-72 | a dict of the saved shape loads as its configuration when valid, and as the defaults otherwise |
| Config.SaveLoadRoundTrip | src/config.py:52-99 | loading a saved valid configuration rebuilds it, and an invalid one gives the defaults |
| Config.UnknownKeyEscapes | src/config.py:65-69 | an unknown key raises a TypeError that the except clause does not catch |
| Config.BadNumberGivesDefaults | src/config.py:61-72 | a field that does not parse as a number gives the defaults |
| Config.ConfigManager.constructor | src/config.py:35-43 | the path defaults to "./data/options.json", and nothing is cached |
| Config.ConfigManager.LoadConfig | src/config.py:45-72 | the loaded or default configuration, cached only when read from the file |
| Config.ConfigManager.GetConfig | src/config.py:74-83 | loads at most once and afterwards returns the cached object |
| Registers.AsList | src/database.py:31-32 | a scalar is wrapped into a one-element list, and a list is kept |
| Registers.Overwrite | src/modbus_manager.py:161 | the window takes the values and the rest is unchanged |
| PyData.Get | src/config.py:61-63 | a dict lookup that finds exactly the keys present |
| PyData.Put | src/utils/data_transformer.py:56-67 | a dict store: the key takes the value, others stay, an existing key keeps its position and a new one is appended |
| PyData.FromPairsLastWins | src/utils/data_transformer.py:56-69 | building a dict from pairs keeps the last value of each key |

## Left out

- Threads and asyncio: the locks in `modbus_manager.py`, `database.py` and `modbus_client.py`, and `asyncio.sleep`. Everything is sequential, and a sleep is counted (`sleeps`) rather than taken.
- Wall-clock time: `time.time()` and `datetime.now()` are a `now` parameter.
- Real I/O: TCP connects and Modbus attempts, the bus read behind `read_registers`, store writes and JSON files. Each outcome is an input, as are the decoded contents of a file.
- JSON text: encoding and decoding are not modelled. A file is missing, undecodable, or a decoded value.
- The pymodbus data block: `ModbusSequentialDataBlock` has plain array semantics. The slave context's address shift is not modelled, and operations require an in-range window.
- `DatabaseManager`, `InMemoryFallback` and `get_database_manager`: their source is not part of this model, so the database is an abstract register map whose writes succeed or raise; every database write of a call has its own outcome.
- `last_known_setpoints` in `ModbusManager`: it is never used.
- Slave 241: the server shares one data block between the configured slave and slave 241 (`src/modbus_server.py`). This model has one block per manager.
- Floating point: `value*100` and `round(..., 2)` are exact reals. Truncation toward zero is modelled, but binary rounding is not.
- Dpt9001.Pack: covers integer and real inputs; Python's `inf` and `nan` are not modelled.
- Config.ParseInt: covers an optional sign and ASCII digits with surrounding blanks. Underscores, other bases and non-ASCII digits, which Python's `int()` also accepts, are not modelled.
- Config.BadNumberGivesDefaults: stated only for a word of letters in one field, not for every unparsable string.
- Case mapping: ASCII only, in `_normalize_key`, `to_camel_case` and `to_snake_case`.
- Python `bool`: counts as `int`, as it does in Python.
- RenameLaws.CaseTransformRoundTrip: stated for keys made of lower-case words of at least two letters. Other keys, such as ones with digits or single-letter words, are not covered by a round-trip lemma.
- StateConverter: no lemma covers mixed-case spellings with dashes such as "Manual-Heating". The normalisation function models them all the same.
- `request.state` in `update_zone_data`: rebinding it to a list is not modelled, since the wrapped value is written the same way.
- The monitor's timestamps, `ModbusOperationLog.__str__`, `print_summary`, its log files and the `get_monitor` singleton.
- Logging throughout, including the logger setup module.
- The HTTP API, the application factory, the entry points, gunicorn, OpenAPI and option generation, and the response and device models: these are plumbing.
- Status, identity and lifecycle helpers: `CircuitBreaker.get_status`, `ModbusManager.get_status`, `get_context`, `get_identity`, `close`, `get_modbus_manager`, `close_modbus_manager` and `get_client`.
- The mode, state and zone state tables that `state_converter.py` reads, and the DPT extremes that `temperature_service.py` reads, are not defined in the source and are parameters here.
- The Modbus function codes 3 and 6 in `src/const.py`: constants only, with no property to prove beyond their values.

## Findings

| source | as written | input that shows it | evidently intended | confidence | as-written member | corrected member |
|---|---|---|---|---|---|---|
| src/services/temperature_service.py:55 | the extremes test reads `dpt_9001.DPT9001_MAX_VALUE` and `DPT9001_MIN_VALUE`, which the codec module does not define; the resulting AttributeError is caught at lines 111-113, so every in-range reading becomes None | raw 3123 in register 7 (21.50 degrees) | the reading 21.50 is returned, and only values at the codec's extremes are dropped | not executed | TemperatureService.AsWrittenDropsValidReading | TemperatureService.CorrectedAccepts |
