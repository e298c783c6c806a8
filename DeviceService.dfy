/**
 * The device service: dehumidifiers and extra pumps are one state register
 * each; a mixed circuit is a block of four registers (valve opening, pump
 * state, and the flow and return temperatures in DPT 9.001).
 */
module DeviceService {
  import opened Wrappers
  import opened Registers
  import opened Const
  import opened Dpt9001

  const InvalidDehumidifierId := "invalid dehumidifier id"
  const InvalidPumpId := "invalid pump id"
  const InvalidMixedGroupId := "invalid mixed group id"

  /** `validate_dehumidifier_id`: exactly 1 to 9. */
  function ValidateDehumidifierId(id: int): (r: (bool, string))
    ensures r.0 <==> 1 <= id <= 9
    ensures r == if r.0 then (true, "") else (false, InvalidDehumidifierId)
  {
    if id > 9 || id < 1 then (false, InvalidDehumidifierId) else (true, "")
  }

  /** `validate_pump_id`: exactly 1 to 5. */
  function ValidatePumpId(id: int): (r: (bool, string))
    ensures r.0 <==> 1 <= id <= 5
    ensures r == if r.0 then (true, "") else (false, InvalidPumpId)
  {
    if id > 5 || id < 1 then (false, InvalidPumpId) else (true, "")
  }

  /** `validate_mixed_group_id`: only 0 and ids above 3 are refused. */
  function ValidateMixedGroupId(id: int): (r: (bool, string))
    ensures r.0 <==> id != 0 && id <= 3
    ensures r == if r.0 then (true, "") else (false, InvalidMixedGroupId)
  {
    if id == 0 || id > 3 then (false, InvalidMixedGroupId) else (true, "")
  }

  /** `get_dehumidifier_data`: the state register of a validated dehumidifier. */
  function GetDehumidifierState(regs: seq<int>, id: int): (state: int)
    requires ValidateDehumidifierId(id).0 && |regs| == RegisterCount
    ensures state == regs[DehumidifierRegister(id)]
    ensures 22 <= DehumidifierRegister(id) <= 30
  {
    regs[id + DehumidifiersAddrOffset]
  }

  /** `get_pump_data`: the state register of a validated pump. */
  function GetPumpState(regs: seq<int>, id: int): (state: int)
    requires ValidatePumpId(id).0 && |regs| == RegisterCount
    ensures state == regs[PumpRegister(id)]
    ensures 31 <= PumpRegister(id) <= 35
  {
    regs[id + ExtraPumpsAddrOffset]
  }

  /** `MixedGroupData`, temperatures in hundredths. */
  datatype MixedGroupData = MixedGroupData(pumpState: int, valveOpening: int, flowTemperature: int, returnTemperature: int)

  /** The lookup `MIXEDGROUP_BASE_REG[group_id]` raises `KeyError` for ids outside the table. */
  datatype DeviceError = KeyError(id: int)

  /** `get_mixed_group_data`: pump at base+1, valve at base+0, then the two temperatures. */
  function GetMixedGroupData(regs: seq<int>, id: int): (r: Result<MixedGroupData, DeviceError>)
    requires |regs| == RegisterCount
    ensures r.Failure? <==> id !in MixedGroupBaseReg
    ensures r.Failure? ==> r.error == KeyError(id)
    ensures r.Success? ==> var b := MixedGroupBaseReg[id];
      && r.value.valveOpening == regs[b + MixedGroupValveOpeningOffset]
      && r.value.pumpState == regs[b + MixedGroupPumpStateOffset]
      && r.value.flowTemperature == DecodeHundredths(regs[b + MixedGroupFlowTempOffset])
      && r.value.returnTemperature == DecodeHundredths(regs[b + MixedGroupReturnTempOffset])
  {
    if id !in MixedGroupBaseReg then Failure(KeyError(id))
    else
      var b := MixedGroupBaseReg[id];
      Success(MixedGroupData(regs[b + MixedGroupPumpStateOffset], regs[b + MixedGroupValveOpeningOffset],
                             DecodeHundredths(regs[b + MixedGroupFlowTempOffset]),
                             DecodeHundredths(regs[b + MixedGroupReturnTempOffset])))
  }

  /**
   * The validator and the table disagree: every negative id passes the
   * check and then fails the lookup; ids 1 to 3 are exactly those the
   * table knows.
   */
  lemma NegativeGroupIdsPassThenFail(regs: seq<int>, id: int)
    requires |regs| == RegisterCount
    ensures id < 0 ==> ValidateMixedGroupId(id).0 && GetMixedGroupData(regs, id) == Failure(KeyError(id))
    ensures 1 <= id <= 3 <==> ValidateMixedGroupId(id).0 && GetMixedGroupData(regs, id).Success?
  {
  }

  /** The registers a device read looks at belong to that device only. */
  lemma DeviceReadsSeparate(regs: seq<int>, d: int, p: int, g: int, i: int, v: int)
    requires |regs| == RegisterCount && ValidateDehumidifierId(d).0 && ValidatePumpId(p).0
    requires g in MixedGroupBaseReg && 0 <= i < RegisterCount
    ensures i != DehumidifierRegister(d) ==> GetDehumidifierState(regs[i := v], d) == GetDehumidifierState(regs, d)
    ensures i != PumpRegister(p) ==> GetPumpState(regs[i := v], p) == GetPumpState(regs, p)
    ensures i !in MixedGroupRegisters(g) ==> GetMixedGroupData(regs[i := v], g) == GetMixedGroupData(regs, g)
    ensures DehumidifierRegister(d) !in MixedGroupRegisters(g) && PumpRegister(p) !in MixedGroupRegisters(g)
  {
    DeviceRangesDisjoint(d, p, g);
  }
}
