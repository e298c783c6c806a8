/**
 * The zone service: four registers per zone, at the zone address and at
 * offsets 1 (setpoint, DPT 9.001), 2 (temperature, DPT 9.001) and 10
 * (relative humidity).  Reads decode the register map; an update writes
 * the state and then the packed setpoint through the persistent block.
 */
module ZoneService {
  import opened Wrappers
  import opened PyData
  import opened Registers
  import opened Const
  import opened Dpt9001
  import opened ZoneModels
  import opened Database

  const InvalidBaseId := "invalid base id"
  const InvalidZoneId := "invalid zone id"
  const ZoneUpdated := "Zone updated successfully"

  /** `validate_zone_params`: the base is checked before the zone. */
  function ValidateZoneParams(base: int, zone: int): (r: (bool, string))
    ensures r.0 <==> ValidBase(base) && ValidZoneId(zone)
    ensures !ValidBase(base) ==> r == (false, InvalidBaseId)
    ensures ValidBase(base) && !ValidZoneId(zone) ==> r == (false, InvalidZoneId)
    ensures r.0 ==> r.1 == ""
  {
    if base > 4 || base < 1 then (false, InvalidBaseId)
    else if zone > 12 || zone < 1 then (false, InvalidZoneId)
    else (true, "")
  }

  /** Validated parameters put every register of the zone inside the register space. */
  lemma ValidZoneInRange(base: int, zone: int)
    requires ValidateZoneParams(base, zone).0
    ensures 100 <= ZoneAddress(base, zone) && ZoneAddress(base, zone) + ZoneRhAddrOffset < RegisterCount
    ensures ZoneAddress(base, zone) == ZoneAddressNew(base, zone)
  {
    ZoneAddressBounds(base, zone);
    DeprecatedAliasesAgree(base, zone);
  }

  /** `get_zone_data` over the register map the slave context serves (first address 0). */
  function GetZoneData(regs: seq<int>, base: int, zone: int): (z: ZoneData)
    requires ValidateZoneParams(base, zone).0 && |regs| == RegisterCount
    ensures var a := ZoneAddress(base, zone);
      && z.state == regs[a] && z.relativeHumidity == regs[a + ZoneRhAddrOffset]
      && z.setpoint == DecodeHundredths(regs[a + ZoneSetpointAddrOffset])
      && z.temperature == DecodeHundredths(regs[a + ZoneTempAddrOffset])
    ensures MinHundredths <= z.setpoint <= MaxHundredths && MinHundredths <= z.temperature <= MaxHundredths
  {
    ValidZoneInRange(base, zone);
    var a := ZoneAddress(base, zone);
    DecodeRange(regs[a + ZoneSetpointAddrOffset]);
    DecodeRange(regs[a + ZoneTempAddrOffset]);
    ZoneData(regs[a], DecodeHundredths(regs[a + ZoneSetpointAddrOffset]),
             DecodeHundredths(regs[a + ZoneTempAddrOffset]), regs[a + ZoneRhAddrOffset])
  }

  /** Why an update raises: the setpoint does not pack, or a store write fails. */
  datatype UpdateError = PackFailed(e: DptError) | StoreFailed

  /** A store write of one value: it raises before writing, or goes through. */
  function StoreFault(ok: bool): Option<nat>
  {
    if ok then None else Some(0)
  }

  /**
   * What `update_zone_data` returns for a validated request, given whether
   * the state write and the setpoint write reach the store.
   */
  function UpdateOutcome(req: ZoneRequest, stateOk: bool, setpointOk: bool): (r: Result<(bool, string, Option<seq<int>>), UpdateError>)
    requires ValidateZoneRequest(req).0
    ensures r.Success? ==> r.value.0 && r.value.1 == ZoneUpdated
    ensures r.Success? ==> (r.value.2.None? <==> req.setpoint == VNone)
    ensures r.Success? && r.value.2.Some? ==> Encode(req.setpoint).Success? && r.value.2 == Some([Encode(req.setpoint).value])
    ensures r == Failure(StoreFailed) <==> (req.state != VNone && !stateOk) || (req.setpoint != VNone && Encode(req.setpoint).Success? && !setpointOk)
    ensures r.Failure? && r.error.PackFailed? <==> (req.state == VNone || stateOk) && req.setpoint != VNone && Encode(req.setpoint).Failure?
  {
    if req.state != VNone && !stateOk then Failure(StoreFailed)
    else if req.setpoint == VNone then Success((true, ZoneUpdated, None))
    else match Encode(req.setpoint)
      case Failure(e) => Failure(PackFailed(e))
      case Success(w) => if setpointOk then Success((true, ZoneUpdated, Some([w]))) else Failure(StoreFailed)
  }

  /** The register map after the state write, if there is one and it goes through. */
  function StateWritten(regs: seq<int>, a: int, req: ZoneRequest, stateOk: bool): seq<int>
    requires ValidateZoneRequest(req).0 && InRange(regs, a, 1)
  {
    if req.state != VNone && stateOk then Overwrite(regs, a, [AsInt(req.state)]) else regs
  }

  /** The register map after both writes, each happening only if the one before went through. */
  function Updated(regs: seq<int>, a: int, req: ZoneRequest, stateOk: bool, setpointOk: bool): seq<int>
    requires ValidateZoneRequest(req).0 && InRange(regs, a, 2)
  {
    var s := StateWritten(regs, a, req, stateOk);
    if req.state != VNone && !stateOk then regs
    else if req.setpoint != VNone && Encode(req.setpoint).Success? && setpointOk then
      Overwrite(s, a + ZoneSetpointAddrOffset, [Encode(req.setpoint).value])
    else s
  }

  /**
   * `update_zone_data` on the block the slave context serves.  Each write
   * goes through `setValues` of the persistent block, so it reaches the
   * store first; the two store outcomes are inputs.
   */
  method UpdateZoneData(block: LockingPersistentDataBlock, base: int, zone: int, req: ZoneRequest,
                        stateOk: bool, setpointOk: bool)
    returns (r: Result<(bool, string, Option<seq<int>>), UpdateError>)
    requires ValidateZoneParams(base, zone).0 && ValidateZoneRequest(req).0
    requires block.address == RegsStartingAddr && block.values.Length == RegisterCount && block.cls.regDict != null
    modifies block.cls.regDict, block.values
    ensures r == UpdateOutcome(req, stateOk, setpointOk)
    ensures block.values[..] == Updated(old(block.values[..]), ZoneAddress(base, zone), req, stateOk, setpointOk)
    ensures old(InStep(block.values[..], block.address, block.cls.regDict.entries)) ==>
      InStep(block.values[..], block.address, block.cls.regDict.entries)
  {
    ValidZoneInRange(base, zone);
    var a := ZoneAddress(base, zone);
    ghost var regs := block.values[..];
    if req.state != VNone {
      var raised := block.SetValues(a, Scalar(AsInt(req.state)), StoreFault(stateOk));
      if raised {
        StoreUnchangedByFault(old(block.cls.regDict.entries), a, [AsInt(req.state)]);
        return Failure(StoreFailed);
      }
    }
    assert block.values[..] == StateWritten(regs, a, req, stateOk);
    if req.setpoint == VNone {
      return Success((true, ZoneUpdated, None));
    }
    var packed := Pack(req.setpoint);
    if packed.Failure? {
      return Failure(PackFailed(packed.error));
    }
    ghost var store := block.cls.regDict.entries;
    var raised := block.SetValues(a + ZoneSetpointAddrOffset, List([packed.value]), StoreFault(setpointOk));
    if raised {
      StoreUnchangedByFault(store, a + ZoneSetpointAddrOffset, [packed.value]);
      return Failure(StoreFailed);
    }
    return Success((true, ZoneUpdated, Some([packed.value])));
  }

  /** A write that stores nothing leaves the store as it was. */
  lemma StoreUnchangedByFault(m: map<int, int>, address: int, vs: seq<int>)
    ensures StoreAll(m, address, vs[..0]) == m
  {
    assert vs[..0] == [];
    var r := StoreAll(m, address, []);
    assert r.Keys == m.Keys;
  }

  /**
   * Reading the zone back after an update: the state is the one written,
   * the setpoint is the packed setpoint decoded, which is the requested
   * value truncated to hundredths and rounded down to a multiple of 2^e
   * (exact for mantissas that fit 11 bits); the temperature and the
   * humidity are untouched.
   */
  lemma ReadBack(regs: seq<int>, base: int, zone: int, req: ZoneRequest)
    requires ValidateZoneParams(base, zone).0 && ValidateZoneRequest(req).0 && |regs| == RegisterCount
    requires req.setpoint != VNone && Encode(req.setpoint).Success?
    ensures var after := GetZoneData(Updated(regs, ZoneAddress(base, zone), req, true, true), base, zone);
      var before := GetZoneData(regs, base, zone);
      var c := Hundredths(req.setpoint);
      var e := Normalize(c).1;
      && after.setpoint == (c / Pow2(e)) * Pow2(e)
      && after.setpoint <= c < after.setpoint + Pow2(e)
      && (FitsMantissa(c) ==> after.setpoint == c)
      && after.state == (if req.state != VNone then AsInt(req.state) else before.state)
      && after.temperature == before.temperature
      && after.relativeHumidity == before.relativeHumidity
  {
    ValidZoneInRange(base, zone);
    var a := ZoneAddress(base, zone);
    var s := StateWritten(regs, a, req, true);
    var u := Updated(regs, a, req, true, true);
    var w := Encode(req.setpoint).value;
    OverwriteAt(s, a + 1, [w], a);
    OverwriteAt(s, a + 1, [w], a + 1);
    OverwriteAt(s, a + 1, [w], a + 2);
    OverwriteAt(s, a + 1, [w], a + 10);
    if req.state != VNone {
      OverwriteAt(regs, a, [AsInt(req.state)], a);
      OverwriteAt(regs, a, [AsInt(req.state)], a + 2);
      OverwriteAt(regs, a, [AsInt(req.state)], a + 10);
    }
    RoundTrip(req.setpoint);
  }

  /** An update changes at most the state and setpoint registers of its zone. */
  lemma UpdateTouchesOnlyZone(regs: seq<int>, base: int, zone: int, req: ZoneRequest, stateOk: bool, setpointOk: bool, i: int)
    requires ValidateZoneParams(base, zone).0 && ValidateZoneRequest(req).0 && |regs| == RegisterCount
    requires 0 <= i < RegisterCount && i != ZoneAddress(base, zone) && i != ZoneAddress(base, zone) + ZoneSetpointAddrOffset
    ensures Updated(regs, ZoneAddress(base, zone), req, stateOk, setpointOk)[i] == regs[i]
  {
    ValidZoneInRange(base, zone);
    var a := ZoneAddress(base, zone);
    var s := StateWritten(regs, a, req, stateOk);
    if req.state != VNone && stateOk {
      OverwriteAt(regs, a, [AsInt(req.state)], i);
    }
    if req.setpoint != VNone && Encode(req.setpoint).Success? {
      OverwriteAt(s, a + 1, [Encode(req.setpoint).value], i);
    }
  }

  /** A setpoint that does not pack raises after the state has been written. */
  lemma PackFailureKeepsStateWrite(regs: seq<int>, base: int, zone: int, req: ZoneRequest)
    requires ValidateZoneParams(base, zone).0 && ValidateZoneRequest(req).0 && |regs| == RegisterCount
    requires req.state != VNone && req.setpoint != VNone && Encode(req.setpoint).Failure?
    ensures UpdateOutcome(req, true, true) == Failure(PackFailed(Encode(req.setpoint).error))
    ensures var after := Updated(regs, ZoneAddress(base, zone), req, true, true);
      after[ZoneAddress(base, zone)] == AsInt(req.state) &&
      after[ZoneAddress(base, zone) + ZoneSetpointAddrOffset] == regs[ZoneAddress(base, zone) + ZoneSetpointAddrOffset]
  {
    ValidZoneInRange(base, zone);
    var a := ZoneAddress(base, zone);
    OverwriteAt(regs, a, [AsInt(req.state)], a);
    OverwriteAt(regs, a, [AsInt(req.state)], a + 1);
  }
}
