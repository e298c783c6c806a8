/**
 * The server configuration: its five fields and their checks, the options
 * file it is loaded from and saved to, and the manager that loads it once
 * and keeps it.
 *
 * The file is an input here: whether it exists, whether it decodes as
 * JSON, and the value it decodes to.  A saved file holds the value that
 * was dumped; the JSON text itself is not modelled.
 */
module Config {
  import opened Wrappers
  import opened PyData
  import StateConverter
  import Dpt9001

  /**
   * `ServerConfig`.  The dataclass checks no field types: after loading,
   * the three numeric fields are ints, but the address and the server type
   * are whatever the file held.
   */
  datatype ServerConfig = ServerConfig(listenAddress: Value, listenPort: int, serverType: Value,
                                       slaveId: int, serverPort: int)

  /** The field defaults. */
  const DefaultConfig := ServerConfig(VStr("0.0.0.0"), 502, VStr("tcp"), 240, 5001)

  /** The three `ValueError`s of `__post_init__`. */
  datatype ConfigError = InvalidServerType(serverType: Value) | InvalidSlaveId(slaveId: int) | InvalidListenPort(listenPort: int)

  /** What `__post_init__` accepts; `server_port` is not checked. */
  predicate ValidConfig(c: ServerConfig)
  {
    && (c.serverType == VStr("tcp") || c.serverType == VStr("serial"))
    && 1 <= c.slaveId <= 255
    && 1 <= c.listenPort <= 65535
  }

  /** Building a `ServerConfig`: the three checks in order, the first that fails raises. */
  function MakeServerConfig(c: ServerConfig): (r: Result<ServerConfig, ConfigError>)
    ensures r.Success? <==> ValidConfig(c)
    ensures r.Success? ==> r.value == c
    ensures c.serverType != VStr("tcp") && c.serverType != VStr("serial") ==> r == Failure(InvalidServerType(c.serverType))
    ensures r == Failure(InvalidSlaveId(c.slaveId)) <==>
      (c.serverType == VStr("tcp") || c.serverType == VStr("serial")) && !(1 <= c.slaveId <= 255)
    ensures r == Failure(InvalidListenPort(c.listenPort)) <==>
      (c.serverType == VStr("tcp") || c.serverType == VStr("serial")) && 1 <= c.slaveId <= 255 && !(1 <= c.listenPort <= 65535)
  {
    if c.serverType != VStr("tcp") && c.serverType != VStr("serial") then Failure(InvalidServerType(c.serverType))
    else if c.slaveId < 1 || c.slaveId > 255 then Failure(InvalidSlaveId(c.slaveId))
    else if c.listenPort < 1 || c.listenPort > 65535 then Failure(InvalidListenPort(c.listenPort))
    else Success(c)
  }

  /** The defaults pass the checks, and the server port is never refused. */
  lemma DefaultsValid(port: int)
    ensures MakeServerConfig(DefaultConfig) == Success(DefaultConfig)
    ensures MakeServerConfig(DefaultConfig.(serverPort := port)).Success?
  {
  }

  // ---------------------------------------------------------------------
  // `int()` and `str()` on the numeric fields.

  function DigitChar(d: nat): (c: char)
    requires d < 10
    ensures IsDigit(c)
  {
    "0123456789"[d]
  }

  function DigitValue(c: char): nat
    requires IsDigit(c)
  {
    c as int - '0' as int
  }

  /** The decimal digits of `n`, most significant first. */
  function NatToString(n: nat): (s: string)
    ensures s != [] && forall i :: 0 <= i < |s| ==> IsDigit(s[i])
    decreases n
  {
    if n < 10 then [DigitChar(n)] else NatToString(n / 10) + [DigitChar(n % 10)]
  }

  /** `str(n)`. */
  function IntToString(n: int): string
  {
    if n < 0 then "-" + NatToString(-n) else NatToString(n)
  }

  predicate AllDigits(s: string) { forall i :: 0 <= i < |s| ==> IsDigit(s[i]) }

  function DigitsValue(s: string): nat
    requires AllDigits(s)
  {
    if s == [] then 0 else DigitsValue(s[..|s| - 1]) * 10 + DigitValue(s[|s| - 1])
  }

  /** `int(s)`: surrounding whitespace, an optional sign, then one or more decimal digits. */
  function ParseInt(s: string): (r: Option<int>)
    ensures r.Some? ==> StateConverter.Strip(s) != []
  {
    var t := StateConverter.Strip(s);
    if t == [] then None
    else
      var negative := t[0] == '-';
      var body := if t[0] == '-' || t[0] == '+' then t[1..] else t;
      if body == [] || !AllDigits(body) then None
      else
        var d: int := DigitsValue(body);
        Some(if negative then -d else d)
  }

  lemma {:induction false} DigitsRoundTrip(n: nat)
    ensures AllDigits(NatToString(n)) && DigitsValue(NatToString(n)) == n
    decreases n
  {
    if n >= 10 {
      DigitsRoundTrip(n / 10);
      var s := NatToString(n);
      assert s[..|s| - 1] == NatToString(n / 10);
      assert DigitValue(DigitChar(n % 10)) == n % 10;
    } else {
      assert DigitValue(DigitChar(n)) == n;
    }
  }

  /** `int()` on unsigned decimal digits. */
  lemma ParseUnsigned(d: string)
    requires d != [] && AllDigits(d)
    ensures ParseInt(d) == Some(DigitsValue(d))
  {
    assert IsDigit(d[0]) && IsDigit(d[|d| - 1]);
    StateConverter.StripNoSpaces(d);
  }

  /** `int()` on a minus sign and decimal digits. */
  lemma ParseNegative(d: string)
    requires d != [] && AllDigits(d)
    ensures ParseInt("-" + d) == Some(-(DigitsValue(d) as int))
  {
    var s := "-" + d;
    assert IsDigit(d[|d| - 1]);
    assert s[0] == '-' && s[|s| - 1] == d[|d| - 1] && s[1..] == d;
    StateConverter.StripNoSpaces(s);
  }

  /** `int(str(n)) == n` for every integer. */
  lemma IntStringRoundTrip(n: int)
    ensures ParseInt(IntToString(n)) == Some(n)
  {
    if n < 0 {
      var m: nat := -n;
      var d := NatToString(m);
      DigitsRoundTrip(m);
      assert IntToString(n) == "-" + d;
      ParseNegative(d);
      assert DigitsValue(d) == m;
    } else {
      var d := NatToString(n);
      DigitsRoundTrip(n);
      assert IntToString(n) == d;
      ParseUnsigned(d);
    }
  }

  // ---------------------------------------------------------------------
  // Loading and saving.

  /** The exceptions of `load_config`: a `ValueError` is caught, the other two escape. */
  datatype PyError = ValueError | TypeError | AttributeError

  /** `int(v)` on a value the file may hold. */
  function ToInt(v: Value): (r: Result<int, PyError>)
    ensures v.VInt? ==> r == Success(v.i)
    ensures v.VStr? ==> (r.Success? <==> ParseInt(v.s).Some?) && (r.Failure? ==> r.error == ValueError)
    ensures v.VNone? || v.VList? || v.VDict? ==> r == Failure(TypeError)
  {
    match v
    case VBool(b) => Success(if b then 1 else 0)
    case VInt(i) => Success(i)
    case VFloat(x) => Success(Dpt9001.TruncToInt(x))
    case VStr(s) => if ParseInt(s).Some? then Success(ParseInt(s).value) else Failure(ValueError)
    case _ => Failure(TypeError)
  }

  /** `d.get(key, default)`. */
  function GetOr(entries: seq<(string, Value)>, key: string, default: Value): Value
  {
    match Get(entries, key)
    case None => default
    case Some(v) => v
  }

  const FieldNames := ["listen_address", "listen_port", "server_type", "slave_id", "server_port"]

  /** What the options file holds when `load_config` looks at it. */
  datatype ConfigFile = NoFile | Undecodable | Decoded(data: Value)

  /**
   * The outcome of `load_config`: the configuration returned and whether it
   * was read from the file (and so also stored), or the exception that
   * escapes.
   */
  datatype LoadOutcome = Loaded(config: ServerConfig, fromFile: bool) | Raised(error: PyError)

  /** A caught `ValueError` gives the defaults; any other exception escapes. */
  function Recover(e: PyError): (r: LoadOutcome)
    ensures r.Loaded? <==> e == ValueError
  {
    if e == ValueError then Loaded(DefaultConfig, false) else Raised(e)
  }

  /** `d[key] = int(d.get(key, default))`: the converted number and the updated dictionary. */
  function ConvertField(e: seq<(string, Value)>, key: string, default: int): (r: Result<(int, seq<(string, Value)>), PyError>)
    ensures r.Success? ==> Get(r.value.1, key) == Some(VInt(r.value.0))
  {
    match ToInt(GetOr(e, key, VInt(default)))
    case Failure(err) => Failure(err)
    case Success(n) => Success((n, Put(e, key, VInt(n))))
  }

  /**
   * `ServerConfig(**config_data)` after the conversions: a key that is not a
   * field raises a `TypeError`; a missing address or server type takes its
   * default; a failed check is a caught `ValueError`.
   */
  function Construct(e: seq<(string, Value)>, listenPort: int, slaveId: int, serverPort: int): (r: LoadOutcome)
    ensures r.Loaded? ==> ValidConfig(r.config)
    ensures r.Loaded? && !r.fromFile ==> r.config == DefaultConfig
  {
    if exists i :: 0 <= i < |e| && e[i].0 !in FieldNames then Raised(TypeError)
    else
      var c := ServerConfig(GetOr(e, "listen_address", VStr("0.0.0.0")), listenPort,
                            GetOr(e, "server_type", VStr("tcp")), slaveId, serverPort);
      match MakeServerConfig(c)
      case Failure(_) => Loaded(DefaultConfig, false)
      case Success(c') => Loaded(c', true)
  }

  /**
   * `load_config` on the decoded dictionary: the three numeric fields
   * converted with `int()` (by default 502, 240 and 5001) and put back,
   * then every key passed to the dataclass as a keyword argument.
   */
  function LoadEntries(e0: seq<(string, Value)>): (r: LoadOutcome)
    ensures r.Loaded? ==> ValidConfig(r.config)
    ensures r.Loaded? && !r.fromFile ==> r.config == DefaultConfig
  {
    match ConvertField(e0, "listen_port", 502)
    case Failure(err) => Recover(err)
    case Success((listenPort, e1)) =>
      match ConvertField(e1, "slave_id", 240)
      case Failure(err) => Recover(err)
      case Success((slaveId, e2)) =>
        match ConvertField(e2, "server_port", 5001)
        case Failure(err) => Recover(err)
        case Success((serverPort, e3)) => Construct(e3, listenPort, slaveId, serverPort)
  }

  /** `load_config`: a missing or undecodable file gives the defaults. */
  function Load(file: ConfigFile): (r: LoadOutcome)
    ensures file.NoFile? || file.Undecodable? ==> r == Loaded(DefaultConfig, false)
    ensures file.Decoded? && !file.data.VDict? ==> r == Raised(AttributeError)
    ensures r.Loaded? ==> ValidConfig(r.config)
    ensures r.Loaded? && !r.fromFile ==> r.config == DefaultConfig
  {
    match file
    case NoFile => Loaded(DefaultConfig, false)
    case Undecodable => Loaded(DefaultConfig, false)
    case Decoded(data) => if data.VDict? then LoadEntries(data.entries) else Raised(AttributeError)
  }

  /** The dictionary `save_config` dumps: the numeric fields as strings. */
  function SavedEntries(c: ServerConfig): seq<(string, Value)>
  {
    [("listen_address", c.listenAddress),
     ("listen_port", VStr(IntToString(c.listenPort))),
     ("server_type", c.serverType),
     ("slave_id", VStr(IntToString(c.slaveId))),
     ("server_port", VStr(IntToString(c.serverPort)))]
  }

  /** `save_config`: the file then holds the dumped dictionary. */
  function SaveConfig(c: ServerConfig): (f: ConfigFile)
    ensures f.Decoded? && f.data.VDict? && |f.data.entries| == 5
    ensures forall i :: 0 <= i < 5 ==> f.data.entries[i].0 == FieldNames[i]
  {
    Decoded(VDict(SavedEntries(c)))
  }

  /** A dictionary with exactly the five fields, in the order `save_config` writes them. */
  predicate Shaped(e: seq<(string, Value)>)
  {
    |e| == 5 && forall i :: 0 <= i < 5 ==> e[i].0 == FieldNames[i]
  }

  /** The five field names are different. */
  lemma FieldNamesDistinct()
    ensures forall i, j :: 0 <= i < j < 5 ==> FieldNames[i] != FieldNames[j]
  {
    assert FieldNames[1][7] == 'p' && FieldNames[2][7] == 't' && FieldNames[4][7] == 'p';
    assert FieldNames[1][0] == 'l' && FieldNames[4][0] == 's';
  }

  /** Looking up the five fields of a five-field dictionary. */
  lemma GetFields(e: seq<(string, Value)>)
    requires Shaped(e)
    ensures Get(e, "listen_address") == Some(e[0].1)
    ensures Get(e, "listen_port") == Some(e[1].1)
    ensures Get(e, "server_type") == Some(e[2].1)
    ensures Get(e, "slave_id") == Some(e[3].1)
    ensures Get(e, "server_port") == Some(e[4].1)
  {
    FieldNamesDistinct();
    GetAt(e, 0, "listen_address");
    GetAt(e, 1, "listen_port");
    GetAt(e, 2, "server_type");
    GetAt(e, 3, "slave_id");
    GetAt(e, 4, "server_port");
  }

  /** Putting a field back into a five-field dictionary keeps its keys. */
  lemma PutField(e: seq<(string, Value)>, i: nat, v: Value)
    requires Shaped(e) && i < 5
    ensures Put(e, FieldNames[i], v) == e[i := (FieldNames[i], v)]
  {
    GetField(e, i);
    var j := IndexOf(e, FieldNames[i]).value;
    assert j == i;
  }

  /** Looking up one field of a five-field dictionary. */
  lemma GetField(e: seq<(string, Value)>, i: nat)
    requires Shaped(e) && i < 5
    ensures Get(e, FieldNames[i]) == Some(e[i].1)
  {
    FieldNamesDistinct();
    GetAt(e, i, FieldNames[i]);
  }

  /** Converting a field of a five-field dictionary that holds `str(n)`. */
  lemma ConvertSaved(e: seq<(string, Value)>, i: nat, n: int, default: int)
    requires Shaped(e) && i < 5
    requires e[i].1 == VStr(IntToString(n))
    ensures ConvertField(e, FieldNames[i], default) == Success((n, e[i := (FieldNames[i], VInt(n))]))
    ensures Shaped(e[i := (FieldNames[i], VInt(n))])
  {
    GetField(e, i);
    IntStringRoundTrip(n);
    assert ToInt(VStr(IntToString(n))) == Success(n);
    PutField(e, i, VInt(n));
    var e' := e[i := (FieldNames[i], VInt(n))];
    assert forall j :: 0 <= j < 5 ==> e'[j].0 == FieldNames[j];
  }

  /** The dataclass on a five-field dictionary with the numbers in place. */
  lemma ConstructFields(e: seq<(string, Value)>, listenPort: int, slaveId: int, serverPort: int)
    requires Shaped(e)
    ensures var c := ServerConfig(e[0].1, listenPort, e[2].1, slaveId, serverPort);
      Construct(e, listenPort, slaveId, serverPort) == if ValidConfig(c) then Loaded(c, true) else Loaded(DefaultConfig, false)
  {
    GetFields(e);
    assert forall i :: 0 <= i < |e| ==> e[i].0 in FieldNames;
  }

  /** `load_config` on a dictionary whose three conversions go through. */
  lemma LoadEntriesConverted(e0: seq<(string, Value)>, e1: seq<(string, Value)>, e2: seq<(string, Value)>,
                             e3: seq<(string, Value)>, listenPort: int, slaveId: int, serverPort: int)
    requires ConvertField(e0, "listen_port", 502) == Success((listenPort, e1))
    requires ConvertField(e1, "slave_id", 240) == Success((slaveId, e2))
    requires ConvertField(e2, "server_port", 5001) == Success((serverPort, e3))
    ensures LoadEntries(e0) == Construct(e3, listenPort, slaveId, serverPort)
  {
  }

  /**
   * Loading a five-field dictionary that holds the address, the server
   * type and the three numbers written out with `str()`.
   */
  lemma LoadShaped(e: seq<(string, Value)>, c: ServerConfig)
    requires Shaped(e) && e[0].1 == c.listenAddress && e[2].1 == c.serverType
    requires e[1].1 == VStr(IntToString(c.listenPort)) && e[3].1 == VStr(IntToString(c.slaveId))
    requires e[4].1 == VStr(IntToString(c.serverPort))
    ensures LoadEntries(e) == if ValidConfig(c) then Loaded(c, true) else Loaded(DefaultConfig, false)
  {
    var e1 := e[1 := ("listen_port", VInt(c.listenPort))];
    ConvertSaved(e, 1, c.listenPort, 502);
    var e2 := e1[3 := ("slave_id", VInt(c.slaveId))];
    ConvertSaved(e1, 3, c.slaveId, 240);
    var e3 := e2[4 := ("server_port", VInt(c.serverPort))];
    ConvertSaved(e2, 4, c.serverPort, 5001);
    LoadEntriesConverted(e, e1, e2, e3, c.listenPort, c.slaveId, c.serverPort);
    ConstructFields(e3, c.listenPort, c.slaveId, c.serverPort);
    assert ServerConfig(e3[0].1, c.listenPort, e3[2].1, c.slaveId, c.serverPort) == c;
  }

  /**
   * Saving and loading again: a valid configuration comes back unchanged
   * and is read from the file; an invalid one gives the defaults.
   */
  lemma SaveLoadRoundTrip(c: ServerConfig)
    ensures ValidConfig(c) ==> Load(SaveConfig(c)) == Loaded(c, true)
    ensures !ValidConfig(c) ==> Load(SaveConfig(c)) == Loaded(DefaultConfig, false)
  {
    LoadShaped(SavedEntries(c), c);
  }

  /** A key that is not a field makes the dataclass raise a `TypeError`, which escapes. */
  lemma UnknownKeyEscapes(e: seq<(string, Value)>, listenPort: int, slaveId: int, serverPort: int, extra: Value)
    ensures Construct(e + [("log_level", extra)], listenPort, slaveId, serverPort) == Raised(TypeError)
  {
    var e' := e + [("log_level", extra)];
    assert e'[|e|].0 == "log_level";
    assert "log_level" !in FieldNames;
  }

  /** A word of letters is not a number. */
  lemma LettersDoNotParse(t: string)
    requires t != [] && forall i :: 0 <= i < |t| ==> IsLower(t[i]) || IsUpper(t[i])
    ensures ParseInt(t) == None
  {
    assert IsLower(t[0]) || IsUpper(t[0]);
    assert IsLower(t[|t| - 1]) || IsUpper(t[|t| - 1]);
    StateConverter.StripNoSpaces(t);
  }

  /** A port that is a word of letters makes the whole file give the defaults. */
  lemma BadNumberGivesDefaults(e: seq<(string, Value)>, t: string)
    requires Get(e, "listen_port") == Some(VStr(t))
    requires t != [] && forall i :: 0 <= i < |t| ==> IsLower(t[i]) || IsUpper(t[i])
    ensures LoadEntries(e) == Loaded(DefaultConfig, false)
  {
    LettersDoNotParse(t);
  }

  // ---------------------------------------------------------------------
  // The manager.

  /** `ConfigManager`: the options path and the configuration once loaded. */
  class ConfigManager {
    const configPath: string
    var config: Option<ServerConfig>

    /** Only a configuration that passed the checks is ever stored. */
    predicate Valid()
      reads this
    {
      config.Some? ==> ValidConfig(config.value)
    }

    /** An absent or empty path means "./data/options.json". */
    constructor (path: Option<string>)
      ensures configPath == if path.None? || path.value == "" then "./data/options.json" else path.value
      ensures config == None && Valid()
    {
      configPath := if path.None? || path.value == "" then "./data/options.json" else path.value;
      config := None;
    }

    /** `load_config`: a configuration read from the file is also stored. */
    method LoadConfig(file: ConfigFile) returns (r: Result<ServerConfig, PyError>)
      requires Valid()
      modifies this
      ensures Valid()
      ensures r == match Load(file) case Loaded(c, _) => Success(c) case Raised(e) => Failure(e)
      ensures config == if Load(file).Loaded? && Load(file).fromFile then Some(Load(file).config) else old(config)
    {
      match Load(file)
      case Raised(e) =>
        r := Failure(e);
      case Loaded(c, fromFile) =>
        if fromFile {
          config := Some(c);
        }
        r := Success(c);
    }

    /**
     * `get_config`: the file is loaded only while nothing is stored; after
     * that the stored configuration is returned whatever the file holds.
     */
    method GetConfig(file: ConfigFile) returns (r: Result<ServerConfig, PyError>)
      requires Valid()
      modifies this
      ensures Valid()
      ensures old(config).Some? ==> r == Success(old(config).value) && config == old(config)
      ensures old(config).None? && Load(file).Loaded? ==> r == Success(Load(file).config) && config == Some(Load(file).config)
      ensures old(config).None? && Load(file).Raised? ==> r == Failure(Load(file).error) && config == None
      ensures r.Success? ==> ValidConfig(r.value)
    {
      if config.None? {
        var loaded := LoadConfig(file);
        if loaded.Failure? {
          return loaded;
        }
        config := Some(loaded.value);
      }
      r := Success(config.value);
    }
  }
}
