/**
 * The operation mode and state records of the REST payloads.  A payload
 * value goes through the name-to-code converter, so both a code and a name
 * are accepted; the tables are parameters.
 */
module OperationModels {
  import opened Wrappers
  import opened PyData
  import Const
  import opened StateConverter

  datatype OperationMode = OperationMode(mode: int)
  datatype OperationState = OperationState(state: int)

  const MissingMode := "missing mode key in payload"
  const InvalidMode := "invalid mode"
  const MissingState := "missing state key in payload"
  const InvalidState := "invalid state"

  /** `OperationMode.validate`: 0 is "missing", above 5 "invalid"; negatives pass. */
  function ValidateMode(m: OperationMode): (r: (bool, string))
    ensures r.0 <==> m.mode != 0 && m.mode <= 5
    ensures m.mode == 0 ==> r == (false, MissingMode)
    ensures m.mode > 5 ==> r == (false, InvalidMode)
    ensures r.0 ==> r.1 == ""
  {
    if m.mode == 0 then (false, MissingMode)
    else if m.mode > 5 then (false, InvalidMode)
    else (true, "")
  }

  /** `OperationState.validate`: the same shape with bound 6. */
  function ValidateState(s: OperationState): (r: (bool, string))
    ensures r.0 <==> s.state != 0 && s.state <= 6
    ensures s.state == 0 ==> r == (false, MissingState)
    ensures s.state > 6 ==> r == (false, InvalidState)
    ensures r.0 ==> r.1 == ""
  {
    if s.state == 0 then (false, MissingState)
    else if s.state > 6 then (false, InvalidState)
    else (true, "")
  }

  /** `OperationMode.from_dict`: the "mode" entry through `name_to_mode`. */
  function ModeFromDict(codes: map<string, int>, data: Value): (r: Result<OperationMode, ConversionError>)
    requires data.VDict?
    ensures Get(data.entries, "mode").None? ==> r == Failure(NotStringOrInteger(Mode))
    ensures Get(data.entries, "mode").Some? && IsInt(Get(data.entries, "mode").value) ==>
      r == Success(OperationMode(AsInt(Get(data.entries, "mode").value)))
    ensures r.Success? ==>
      Get(data.entries, "mode").Some? && NameToCode(Mode, codes, Get(data.entries, "mode").value) == Success(r.value.mode)
  {
    match NameToCode(Mode, codes, GetOrNone(data.entries, "mode"))
    case Success(m) => Success(OperationMode(m))
    case Failure(e) => Failure(e)
  }

  /** `OperationState.from_dict`: the "state" entry through `name_to_state`. */
  function StateFromDict(codes: map<string, int>, data: Value): (r: Result<OperationState, ConversionError>)
    requires data.VDict?
    ensures Get(data.entries, "state").None? ==> r == Failure(NotStringOrInteger(State))
    ensures Get(data.entries, "state").Some? && IsInt(Get(data.entries, "state").value) ==>
      r == Success(OperationState(AsInt(Get(data.entries, "state").value)))
    ensures r.Success? ==>
      Get(data.entries, "state").Some? && NameToCode(State, codes, Get(data.entries, "state").value) == Success(r.value.state)
  {
    match NameToCode(State, codes, GetOrNone(data.entries, "state"))
    case Success(s) => Success(OperationState(s))
    case Failure(e) => Failure(e)
  }

  /** `OperationMode.to_dict`: the code, or its name when `readable`. */
  function ModeToDict(names: map<int, string>, m: OperationMode, readable: bool): (r: Result<Value, ConversionError>)
    ensures !readable ==> r == Success(VDict([("mode", VInt(m.mode))]))
    ensures readable && m.mode in names ==> r == Success(VDict([("mode", VStr(names[m.mode]))]))
    ensures readable && m.mode !in names ==> r == Failure(UnknownCode(Mode, m.mode))
  {
    if readable then
      match CodeToName(Mode, names, VInt(m.mode))
      case Success(n) => Success(VDict([("mode", VStr(n))]))
      case Failure(e) => Failure(e)
    else Success(VDict([("mode", VInt(m.mode))]))
  }

  /** `OperationState.to_dict`. */
  function StateToDict(names: map<int, string>, s: OperationState, readable: bool): (r: Result<Value, ConversionError>)
    ensures !readable ==> r == Success(VDict([("state", VInt(s.state))]))
    ensures readable && s.state in names ==> r == Success(VDict([("state", VStr(names[s.state]))]))
    ensures readable && s.state !in names ==> r == Failure(UnknownCode(State, s.state))
  {
    if readable then
      match CodeToName(State, names, VInt(s.state))
      case Success(n) => Success(VDict([("state", VStr(n))]))
      case Failure(e) => Failure(e)
    else Success(VDict([("state", VInt(s.state))]))
  }

  /** A payload without the key fails in the converter, before validation could run. */
  lemma MissingKeyFailsEarly(modeCodes: map<string, int>, stateCodes: map<string, int>)
    ensures ModeFromDict(modeCodes, VDict([])) == Failure(NotStringOrInteger(Mode))
    ensures StateFromDict(stateCodes, VDict([("mode", VInt(1))])) == Failure(NotStringOrInteger(State))
  {
    assert Get([("mode", VInt(1))], "state") == None;
  }

  /** Serialising and parsing back a mode gives the same record, in both renderings. */
  lemma ModeRoundTrip(names: map<int, string>, codes: map<string, int>, m: OperationMode, readable: bool)
    requires Const.InverseMaps(names, codes) && NormalNames(codes)
    requires readable ==> m.mode in names
    ensures ModeToDict(names, m, readable).Success?
    ensures ModeFromDict(codes, ModeToDict(names, m, readable).value) == Success(m)
  {
    var d := ModeToDict(names, m, readable).value;
    assert d.entries[0].0 == "mode";
    assert IndexOf(d.entries, "mode") == Some(0);
    if readable {
      CodeNameRoundTrip(Mode, names, codes, m.mode);
    }
  }

  /** The same for the state record. */
  lemma StateRoundTrip(names: map<int, string>, codes: map<string, int>, s: OperationState, readable: bool)
    requires Const.InverseMaps(names, codes) && NormalNames(codes)
    requires readable ==> s.state in names
    ensures StateToDict(names, s, readable).Success?
    ensures StateFromDict(codes, StateToDict(names, s, readable).value) == Success(s)
  {
    var d := StateToDict(names, s, readable).value;
    assert d.entries[0].0 == "state";
    assert IndexOf(d.entries, "state") == Some(0);
    if readable {
      CodeNameRoundTrip(State, names, codes, s.state);
    }
  }

  /** Validation lets negative codes through: there is no lower bound. */
  lemma NegativeCodesPass()
    ensures ValidateMode(OperationMode(-1)).0 && ValidateState(OperationState(-7)).0
    ensures !ValidateMode(OperationMode(6)).0 && ValidateState(OperationState(6)).0
  {
  }
}
