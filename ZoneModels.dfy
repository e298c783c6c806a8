/**
 * The zone request and response records: a request carries an optional
 * state and an optional setpoint from the JSON body; the zone data is what
 * a zone read reports, with setpoint and temperature in hundredths of a
 * degree.
 */
module ZoneModels {
  import opened Wrappers
  import opened PyData
  import opened DataTransformer

  /** A zone as the API reports it. */
  datatype ZoneData = ZoneData(state: int, setpoint: int, temperature: int, relativeHumidity: int)

  /** Hundredths as the float the API renders. */
  function Degrees(hundredths: int): real
  {
    hundredths as real / 100.0
  }

  /** Lookups in a four-entry dict with distinct keys. */
  lemma GetFour(e: seq<(string, Value)>, other: string)
    requires |e| == 4
    requires forall i, j :: 0 <= i < j < 4 ==> |e[i].0| != |e[j].0|
    requires forall i :: 0 <= i < 4 ==> |e[i].0| != |other|
    ensures Get(e, e[0].0) == Some(e[0].1) && Get(e, e[1].0) == Some(e[1].1)
    ensures Get(e, e[2].0) == Some(e[2].1) && Get(e, e[3].0) == Some(e[3].1)
    ensures Get(e, other) == None
  {
    GetAt(e, 0, e[0].0);
    GetAt(e, 1, e[1].0);
    GetAt(e, 2, e[2].0);
    GetAt(e, 3, e[3].0);
  }

  /** `ZoneData.to_dict`: the humidity key is the only camel-case one. */
  function ZoneDataToDict(z: ZoneData): (r: Value)
    ensures r.VDict? && Keys(r.entries) == ["state", "setpoint", "temperature", "relativeHumidity"]
    ensures Get(r.entries, "state") == Some(VInt(z.state))
    ensures Get(r.entries, "setpoint") == Some(VFloat(Degrees(z.setpoint)))
    ensures Get(r.entries, "temperature") == Some(VFloat(Degrees(z.temperature)))
    ensures Get(r.entries, "relativeHumidity") == Some(VInt(z.relativeHumidity))
    ensures Get(r.entries, "relative_humidity") == None
  {
    var e := [("state", VInt(z.state)), ("setpoint", VFloat(Degrees(z.setpoint))),
              ("temperature", VFloat(Degrees(z.temperature))), ("relativeHumidity", VInt(z.relativeHumidity))];
    assert |"state"| == 5 && |"setpoint"| == 8 && |"temperature"| == 11 && |"relativeHumidity"| == 16;
    assert |"relative_humidity"| == 17;
    GetFour(e, "relative_humidity");
    VDict(e)
  }

  lemma PlainFieldNames()
    ensures ToCamelCase("state") == "state" && ToCamelCase("setpoint") == "setpoint"
    ensures ToCamelCase("temperature") == "temperature"
  {
    assert '_' !in "state" && '_' !in "setpoint" && '_' !in "temperature";
    CamelCaseShape("state");
    CamelCaseShape("setpoint");
    CamelCaseShape("temperature");
  }

  /** The keys of `to_dict` are the camelCase forms of the record's field names, in field order. */
  lemma ZoneDataKeysAreCamelCase(z: ZoneData)
    ensures Keys(ZoneDataToDict(z).entries) ==
      [ToCamelCase("state"), ToCamelCase("setpoint"), ToCamelCase("temperature"), ToCamelCase("relative_humidity")]
  {
    PlainFieldNames();
    RelativeHumidityKey();
  }

  /** A request; JSON null and a missing key are both `VNone`. */
  datatype ZoneRequest = ZoneRequest(state: Value, setpoint: Value)

  /** `ZoneRequest.from_dict`: `data.get('state')` and `data.get('setpoint')`. */
  function ZoneRequestFromDict(data: Value): (r: ZoneRequest)
    requires data.VDict?
    ensures Get(data.entries, "state").Some? ==> r.state == Get(data.entries, "state").value
    ensures Get(data.entries, "state").None? ==> r.state == VNone
    ensures Get(data.entries, "setpoint").Some? ==> r.setpoint == Get(data.entries, "setpoint").value
    ensures Get(data.entries, "setpoint").None? ==> r.setpoint == VNone
  {
    ZoneRequest(GetOrNone(data.entries, "state"), GetOrNone(data.entries, "setpoint"))
  }

  /** The messages `validate` can return. */
  const NeedStateOrSetpoint := "one of state or setpoint need to be specified"
  const InvalidState := "invalid state"
  const InvalidSetpoint := "invalid setpoint"

  /** The state test: an int (a bool counts) that is neither 0 nor above 6. */
  predicate AcceptableState(v: Value)
  {
    IsInt(v) && AsInt(v) != 0 && AsInt(v) <= 6
  }

  /**
   * `ZoneRequest.validate`: emptiness first, then the state, then the
   * setpoint; the first failing check gives the message.
   */
  function ValidateZoneRequest(req: ZoneRequest): (r: (bool, string))
    ensures r.0 <==> (req.state != VNone || req.setpoint != VNone) &&
                     (req.state != VNone ==> AcceptableState(req.state)) &&
                     (req.setpoint != VNone ==> IsNumber(req.setpoint))
    ensures req.state == VNone && req.setpoint == VNone ==> r == (false, NeedStateOrSetpoint)
    ensures req.state != VNone && !AcceptableState(req.state) ==> r == (false, InvalidState)
    ensures (req.state != VNone ==> AcceptableState(req.state)) && req.setpoint != VNone && !IsNumber(req.setpoint) ==>
      r == (false, InvalidSetpoint)
    ensures r.0 ==> r.1 == ""
  {
    if req.state == VNone && req.setpoint == VNone then (false, NeedStateOrSetpoint)
    else if req.state != VNone && !AcceptableState(req.state) then (false, InvalidState)
    else if req.setpoint != VNone && !IsNumber(req.setpoint) then (false, InvalidSetpoint)
    else (true, "")
  }

  /** Negative states pass, and so does any number as a setpoint: there is no range check. */
  lemma ValidationGaps()
    ensures ValidateZoneRequest(ZoneRequest(VInt(-3), VNone)).0
    ensures ValidateZoneRequest(ZoneRequest(VNone, VFloat(-1000.0))).0
    ensures ValidateZoneRequest(ZoneRequest(VBool(true), VNone)).0
    ensures !ValidateZoneRequest(ZoneRequest(VBool(false), VNone)).0
    ensures ValidateZoneRequest(ZoneRequest(VInt(7), VStr("x"))) == (false, InvalidState)
  {
  }

  /** A body with neither key, or with both null, is rejected as empty. */
  lemma EmptyBodyRejected(data: Value)
    requires data.VDict?
    requires GetOrNone(data.entries, "state") == VNone && GetOrNone(data.entries, "setpoint") == VNone
    ensures ValidateZoneRequest(ZoneRequestFromDict(data)) == (false, NeedStateOrSetpoint)
  {
  }
}
