/**
 * The Neasmart 2.0 register map and the name tables of src/const.py, and
 * the address formulas the services build from them.
 */
module Const {
  import opened PyData

  // Deprecated names, still used by the zone service.
  const NeasmartBaseSlaveAddr := 1200
  const BaseZoneId := 100

  // Zones: register (base - 1) * 1200 + zone * 100 and three offsets from it.
  const ZoneBaseIdMultiplier := 1200
  const ZoneIdMultiplier := 100
  const ZoneSetpointAddrOffset := 1
  const ZoneTempAddrOffset := 2
  const ZoneRhAddrOffset := 10

  // Mixed circuits: a base register per group and four offsets from it.
  const MixedGroupBaseReg: map<int, int> := map[1 := 10, 2 := 14, 3 := 18]
  const MixedGroupValveOpeningOffset := 0
  const MixedGroupPumpStateOffset := 1
  const MixedGroupFlowTempOffset := 2
  const MixedGroupReturnTempOffset := 3

  // Global readings and flags.
  const GlobalOpModeAddr := 1
  const GlobalOpStateAddr := 2
  const ErrorsPresentAddr := 3
  const WarningsPresentAddr := 5
  const HintsPresentAddr := 6
  const OutsideTemperatureAddr := 7
  const FilteredOutsideTemperatureAddr := 8

  const DehumidifiersAddrOffset := 21
  const ExtraPumpsAddrOffset := 30

  /** Modbus function codes 03 and 06 (sections 6.3 and 6.6 of the Modbus Application Protocol Specification V1.1b3). */
  const ReadHrCode := 3
  const WriteHrCode := 6

  const SlaveAddressPrimary := 240
  const SlaveAddressSecondary := 241
  const RegsStartingAddr := 0

  // ---------------------------------------------------------------------
  // The name tables, as the ordered entries of their dict literals.

  const GlobalOpStatusItems: seq<(int, string)> :=
    [(0, "off"), (1, "presence"), (2, "away"), (3, "standby"), (4, "scheduled"), (5, "party"), (6, "holiday")]

  const ZoneOpStatusItems: seq<(int, string)> :=
    [(0, "off"), (1, "presence"), (2, "away"), (3, "standby"), (4, "scheduled")]

  const GlobalOpModeItems: seq<(int, string)> :=
    [(0, "off"), (1, "auto"), (2, "heating"), (3, "cooling"), (4, "manual heating"), (5, "manual cooling")]

  /** A dict literal: a repeated key keeps the last value. */
  function TableOf(items: seq<(int, string)>): map<int, string>
  {
    if items == [] then map[]
    else TableOf(items[..|items| - 1])[items[|items| - 1].0 := items[|items| - 1].1]
  }

  /** `{v: k for k, v in table.items()}`: a repeated value keeps the last key. */
  function Reverse(items: seq<(int, string)>): map<string, int>
  {
    if items == [] then map[]
    else Reverse(items[..|items| - 1])[items[|items| - 1].1 := items[|items| - 1].0]
  }

  const GlobalOpStatusMapping: map<int, string> := TableOf(GlobalOpStatusItems)
  /** The first binding of ZONE_OP_STATUS_MAPPING, the reverse of the global table. */
  const ZoneOpStatusMappingFirst: map<string, int> := Reverse(GlobalOpStatusItems)
  /** The binding that stays: the reverse of the five-entry zone table. */
  const ZoneOpStatusMapping: map<string, int> := Reverse(ZoneOpStatusItems)
  const GlobalOpModeMapping: map<int, string> := TableOf(GlobalOpModeItems)
  const GlobalOpModeMappingReverse: map<string, int> := Reverse(GlobalOpModeItems)

  /** The codes of the table are 0, 1, 2, ... in order, as in all three tables. */
  predicate Enumerated(items: seq<(int, string)>)
  {
    forall i :: 0 <= i < |items| ==> items[i].0 == i
  }

  predicate DistinctNames(items: seq<(int, string)>)
  {
    forall i, j :: 0 <= i < j < |items| ==> items[i].1 != items[j].1
  }

  /** Two maps that undo each other, in both directions. */
  predicate InverseMaps(names: map<int, string>, codes: map<string, int>)
  {
    && (forall k :: k in names ==> names[k] in codes && codes[names[k]] == k)
    && (forall n :: n in codes ==> codes[n] in names && names[codes[n]] == n)
  }

  /**
   * For a table whose codes are 0..n-1 and whose names are distinct, the
   * comprehension builds the exact inverse of the table.
   */
  lemma {:induction false} ReverseIsInverse(items: seq<(int, string)>)
    requires Enumerated(items) && DistinctNames(items)
    ensures forall k :: k in TableOf(items) <==> 0 <= k < |items|
    ensures forall k :: 0 <= k < |items| ==> TableOf(items)[k] == items[k].1
    ensures InverseMaps(TableOf(items), Reverse(items))
  {
    if items != [] {
      var init := items[..|items| - 1];
      var last := items[|items| - 1];
      assert Enumerated(init) && DistinctNames(init);
      ReverseIsInverse(init);
      var t, r := TableOf(items), Reverse(items);
      assert t == TableOf(init)[|init| := last.1];
      assert r == Reverse(init)[last.1 := |init|];
      forall k | 0 <= k < |items| ensures t[k] == items[k].1 {
        if k < |init| {
          assert items[k] == init[k];
        }
      }
      forall k | k in t ensures t[k] in r && r[t[k]] == k {
        if k < |init| {
          assert items[k] == init[k];
          assert t[k] != last.1;
        }
      }
      forall n | n in r ensures r[n] in t && t[r[n]] == n {
        if n != last.1 {
          assert Reverse(init)[n] in TableOf(init);
        }
      }
    }
  }

  /** GLOBAL_OP_MODE_MAPPING_REVERSE is the exact inverse of GLOBAL_OP_MODE_MAPPING over modes 0-5. */
  lemma ModeMappingReverseIsInverse()
    ensures forall k :: k in GlobalOpModeMapping <==> 0 <= k <= 5
    ensures InverseMaps(GlobalOpModeMapping, GlobalOpModeMappingReverse)
    ensures GlobalOpModeMapping[1] == "auto" && GlobalOpModeMappingReverse["manual heating"] == 4
    ensures "auto" in GlobalOpModeMappingReverse && GlobalOpModeMappingReverse["auto"] == 1
  {
    assert Enumerated(GlobalOpModeItems) && DistinctNames(GlobalOpModeItems);
    ReverseIsInverse(GlobalOpModeItems);
    assert GlobalOpModeItems[1] == (1, "auto");
    assert GlobalOpModeItems[4] == (4, "manual heating");
  }

  /**
   * The binding of ZONE_OP_STATUS_MAPPING that stays maps the five zone
   * names to 0-4; party and holiday, present in the overwritten binding, are gone.
   */
  lemma ZoneOpStatusFinalBinding()
    ensures forall i :: 0 <= i < 5 ==> ZoneOpStatusItems[i].1 in ZoneOpStatusMapping && ZoneOpStatusMapping[ZoneOpStatusItems[i].1] == i
    ensures forall n :: n in ZoneOpStatusMapping ==> 0 <= ZoneOpStatusMapping[n] <= 4
    ensures ZoneOpStatusMapping["scheduled"] == 4
    ensures "party" in ZoneOpStatusMappingFirst && "party" !in ZoneOpStatusMapping
    ensures "holiday" in ZoneOpStatusMappingFirst && "holiday" !in ZoneOpStatusMapping
  {
    assert Enumerated(ZoneOpStatusItems) && DistinctNames(ZoneOpStatusItems);
    ReverseIsInverse(ZoneOpStatusItems);
    assert ZoneOpStatusItems[4].1 == "scheduled";
    assert GlobalOpStatusItems[5].1 == "party" && GlobalOpStatusItems[6].1 == "holiday";
    assert forall i :: 0 <= i < |ZoneOpStatusItems| ==> ZoneOpStatusItems[i].1 != "party" && ZoneOpStatusItems[i].1 != "holiday";
  }

  // ---------------------------------------------------------------------
  // The address map.

  /** The zone register as the zone service computes it, from the deprecated names. */
  function ZoneAddress(base: int, zone: int): int
  {
    (base - 1) * NeasmartBaseSlaveAddr + zone * BaseZoneId
  }

  /** The same address from the new names, as the Modbus client computes it. */
  function ZoneAddressNew(base: int, zone: int): int
  {
    (base - 1) * ZoneBaseIdMultiplier + zone * ZoneIdMultiplier
  }

  predicate ValidBase(base: int) { 1 <= base <= 4 }
  predicate ValidZoneId(zone: int) { 1 <= zone <= 12 }

  /** The deprecated and the new constants give the same register for every zone. */
  lemma DeprecatedAliasesAgree(base: int, zone: int)
    ensures ZoneAddress(base, zone) == ZoneAddressNew(base, zone)
    ensures ZoneAddress(1, 5) == 500
  {
  }

  /** Every valid zone lies in [100, 4800]. */
  lemma ZoneAddressBounds(base: int, zone: int)
    requires ValidBase(base) && ValidZoneId(zone)
    ensures 100 <= ZoneAddress(base, zone) <= 4800
  {
  }

  /** Distinct valid zones are at least 100 registers apart. */
  lemma ZoneAddressesApart(b1: int, z1: int, b2: int, z2: int)
    requires ValidBase(b1) && ValidZoneId(z1) && ValidBase(b2) && ValidZoneId(z2)
    requires (b1, z1) != (b2, z2)
    ensures Abs(ZoneAddress(b1, z1) - ZoneAddress(b2, z2)) >= 100
  {
    var d := (b1 - b2) * 12 + (z1 - z2);
    assert ZoneAddress(b1, z1) - ZoneAddress(b2, z2) == 100 * d;
  }

  /** The registers a zone occupies: state, setpoint, temperature, humidity. */
  function ZoneRegisters(base: int, zone: int): set<int>
  {
    var a := ZoneAddress(base, zone);
    {a, a + ZoneSetpointAddrOffset, a + ZoneTempAddrOffset, a + ZoneRhAddrOffset}
  }

  /** The registers of distinct valid zones never overlap, and none lies below 100. */
  lemma ZoneRegistersDisjoint(b1: int, z1: int, b2: int, z2: int)
    requires ValidBase(b1) && ValidZoneId(z1) && ValidBase(b2) && ValidZoneId(z2)
    requires (b1, z1) != (b2, z2)
    ensures ZoneRegisters(b1, z1) !! ZoneRegisters(b2, z2)
    ensures forall r :: r in ZoneRegisters(b1, z1) ==> 100 <= r <= 4810
  {
    ZoneAddressesApart(b1, z1, b2, z2);
    ZoneAddressBounds(b1, z1);
  }

  /** The four registers of a mixed circuit. */
  function MixedGroupRegisters(group: int): set<int>
    requires group in MixedGroupBaseReg
  {
    var b := MixedGroupBaseReg[group];
    {b + MixedGroupValveOpeningOffset, b + MixedGroupPumpStateOffset,
     b + MixedGroupFlowTempOffset, b + MixedGroupReturnTempOffset}
  }

  /** The blocks 10-13, 14-17 and 18-21 are disjoint. */
  lemma MixedGroupBlocksDisjoint(g1: int, g2: int)
    requires g1 in MixedGroupBaseReg && g2 in MixedGroupBaseReg && g1 != g2
    ensures MixedGroupRegisters(g1) !! MixedGroupRegisters(g2)
    ensures forall r :: r in MixedGroupRegisters(g1) ==> 10 <= r <= 21
  {
  }

  function DehumidifierRegister(id: int): int { id + DehumidifiersAddrOffset }

  function PumpRegister(id: int): int { id + ExtraPumpsAddrOffset }

  /**
   * Dehumidifiers 1-9 use 22-30 and pumps 1-5 use 31-35: the two ranges are
   * disjoint and lie above the mixed circuits and the global registers.
   */
  lemma DeviceRangesDisjoint(d: int, p: int, g: int)
    requires 1 <= d <= 9 && 1 <= p <= 5 && g in MixedGroupBaseReg
    ensures 22 <= DehumidifierRegister(d) <= 30 && 31 <= PumpRegister(p) <= 35
    ensures DehumidifierRegister(d) != PumpRegister(p)
    ensures DehumidifierRegister(d) !in MixedGroupRegisters(g) && PumpRegister(p) !in MixedGroupRegisters(g)
  {
  }

  const GlobalRegisters: seq<int> :=
    [GlobalOpModeAddr, GlobalOpStateAddr, ErrorsPresentAddr, WarningsPresentAddr,
     HintsPresentAddr, OutsideTemperatureAddr, FilteredOutsideTemperatureAddr]

  /** The seven global registers are pairwise distinct and below the mixed circuits. */
  lemma GlobalRegistersDistinct()
    ensures forall i, j :: 0 <= i < j < |GlobalRegisters| ==> GlobalRegisters[i] != GlobalRegisters[j]
    ensures forall i :: 0 <= i < |GlobalRegisters| ==> 1 <= GlobalRegisters[i] <= 8
  {
  }
}
