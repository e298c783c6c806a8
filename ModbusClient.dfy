/**
 * The write-through client: writes zone setpoints and states to the
 * physical controller through a Modbus TCP gateway, with a bounded retry
 * loop and a rule that disables write-through after repeated errors.
 *
 * Each bus interaction is an input: how a connection attempt ends, and how
 * each write or read attempt ends.  The event-loop clock is the `now`
 * argument.
 */
module ModbusClient {
  import opened Wrappers
  import opened PyData
  import Const

  /**
   * The settings read from the gateway configuration file: `gateway.enabled`,
   * `fallback.disable_write_through_on_error` and
   * `fallback.max_consecutive_errors`; an absent setting is `None`.
   */
  datatype GatewayConfig = GatewayConfig(enabled: Option<Value>, disableOnError: Option<Value>, maxConsecutiveErrors: Option<int>)

  /** The configuration used when the file is missing or is not valid JSON. */
  const FallbackConfig := GatewayConfig(Some(VBool(true)), Some(VBool(false)), Some(3))

  /** `config.get(..., default)` for the three settings. */
  function EnabledSetting(cfg: GatewayConfig): Value
  {
    if cfg.enabled.Some? then cfg.enabled.value else VBool(true)
  }

  function DisableOnErrorSetting(cfg: GatewayConfig): Value
  {
    if cfg.disableOnError.Some? then cfg.disableOnError.value else VBool(false)
  }

  function MaxErrorsSetting(cfg: GatewayConfig): int
  {
    if cfg.maxConsecutiveErrors.Some? then cfg.maxConsecutiveErrors.value else 3
  }

  /** `is_gateway_enabled` as a rule over the configuration and the error count. */
  predicate GatewayEnabled(cfg: GatewayConfig, consecutiveErrors: int)
  {
    Truthy(EnabledSetting(cfg)) &&
    !(Truthy(DisableOnErrorSetting(cfg)) && consecutiveErrors >= MaxErrorsSetting(cfg))
  }

  /**
   * Write-through is off exactly when it is switched off, or when the
   * disable-on-error flag is set and the error count reached the maximum.
   */
  lemma EnabledRule(cfg: GatewayConfig, errors: int)
    ensures !Truthy(EnabledSetting(cfg)) ==> !GatewayEnabled(cfg, errors)
    ensures Truthy(DisableOnErrorSetting(cfg)) && errors >= MaxErrorsSetting(cfg) ==> !GatewayEnabled(cfg, errors)
    ensures Truthy(EnabledSetting(cfg)) && !Truthy(DisableOnErrorSetting(cfg)) ==> GatewayEnabled(cfg, errors)
    ensures Truthy(EnabledSetting(cfg)) && errors < MaxErrorsSetting(cfg) ==> GatewayEnabled(cfg, errors)
  {
  }

  /** With the fallback configuration, or none at all, write-through is never disabled. */
  lemma DefaultsNeverDisable(errors: int)
    ensures GatewayEnabled(FallbackConfig, errors)
    ensures GatewayEnabled(GatewayConfig(None, None, None), errors)
  {
  }

  /** By the defaults, three errors disable write-through once the flag is set. */
  lemma FlagOnDisablesAtThree(errors: int)
    ensures GatewayEnabled(GatewayConfig(None, Some(VBool(true)), None), errors) <==> errors < 3
  {
  }

  /** `(base_id - 1) * 1200 + zone_id * 100`, and the setpoint one register above it. */
  function ZoneAddr(baseId: int, zoneId: int): int
  {
    (baseId - 1) * Const.ZoneBaseIdMultiplier + zoneId * Const.ZoneIdMultiplier
  }

  function SetpointAddr(baseId: int, zoneId: int): (a: int)
    ensures a == (baseId - 1) * 1200 + zoneId * 100 + 1
  {
    ZoneAddr(baseId, zoneId) + Const.ZoneSetpointAddrOffset
  }

  /** How `client.connect()` ends: connected, not connected, or raising. */
  datatype ConnectOutcome = Connected | NotConnected | ConnectRaised

  /** How one write attempt ends: accepted, an error response, a ModbusException, or another exception. */
  datatype AttemptOutcome = Accepted | ErrorResponse | ModbusFault | OtherFault

  /** How a read attempt ends; an accepted read carries the registers of the response. */
  datatype ReadOutcome = ReadAccepted(registers: seq<int>) | ReadErrorResponse | ReadModbusFault | ReadOtherFault

  /** The message of a call's result, by kind; attempt numbers count from 1. */
  datatype ClientMessage =
    | WriteThroughDisabled
    | ConnectFailed
    | WriteErrorMsg(attempt: nat)
    | ModbusExceptionMsg(attempt: nat)
    | UnexpectedErrorMsg(attempt: nat)
    | AllAttemptsFailed(maxRetries: int)
    | SetpointWritten
    | StateWritten
    | ReadError
    | ReadException
    | ReadUnexpected
    | SetpointRead

  /** The failure message of attempt number `n` (from 1). */
  function FailureMessage(o: AttemptOutcome, n: nat): ClientMessage
  {
    match o
    case ErrorResponse => WriteErrorMsg(n)
    case ModbusFault => ModbusExceptionMsg(n)
    case _ => UnexpectedErrorMsg(n)
  }

  /** The index of the first accepted attempt among the first `n`, if any. */
  function FirstAccepted(attempts: seq<AttemptOutcome>, n: nat): (r: Option<nat>)
    requires n <= |attempts|
    ensures r.Some? ==> r.value < n && attempts[r.value] == Accepted
    ensures r.Some? ==> forall i :: 0 <= i < r.value ==> attempts[i] != Accepted
    ensures r.None? ==> forall i :: 0 <= i < n ==> attempts[i] != Accepted
  {
    if n == 0 then None
    else
      var earlier := FirstAccepted(attempts, n - 1);
      if earlier.Some? then earlier
      else if attempts[n - 1] == Accepted then Some(n - 1)
      else None
  }

  /** `max_retries` as the number of loop rounds `range(max_retries)` makes. */
  function Rounds(maxRetries: int): nat
  {
    if maxRetries <= 0 then 0 else maxRetries
  }

  /** The number of write attempts a call makes. */
  function AttemptsMade(attempts: seq<AttemptOutcome>, maxRetries: int): (n: nat)
    requires Rounds(maxRetries) <= |attempts|
    ensures n <= Rounds(maxRetries)
  {
    var first := FirstAccepted(attempts, Rounds(maxRetries));
    if first.Some? then first.value + 1 else Rounds(maxRetries)
  }

  class NeasmartModbusClient {
    const slaveId: int
    const config: GatewayConfig
    /** Whether `self.client` is set. */
    var hasClient: bool
    var connected: bool
    var consecutiveErrors: int
    var lastErrorTime: int

    ghost predicate Valid()
      reads this
    {
      (connected ==> hasClient) && consecutiveErrors >= 0
    }

    constructor (slaveId: int, config: GatewayConfig)
      ensures Valid() && this.slaveId == slaveId && this.config == config
      ensures !hasClient && !connected && consecutiveErrors == 0 && lastErrorTime == 0
    {
      this.slaveId := slaveId;
      this.config := config;
      hasClient := false;
      connected := false;
      consecutiveErrors := 0;
      lastErrorTime := 0;
    }

    method IsGatewayEnabled() returns (r: bool)
      ensures r == GatewayEnabled(config, consecutiveErrors)
    {
      if !Truthy(EnabledSetting(config)) {
        return false;
      }
      if Truthy(DisableOnErrorSetting(config)) {
        var maxErrors := MaxErrorsSetting(config);
        if consecutiveErrors >= maxErrors {
          return false;
        }
      }
      return true;
    }

    /** `_record_error`: one more consecutive error, at time `now`. */
    method RecordError(now: int)
      requires Valid()
      modifies this
      ensures Valid()
      ensures consecutiveErrors == old(consecutiveErrors) + 1 && lastErrorTime == now
      ensures hasClient == old(hasClient) && connected == old(connected)
    {
      consecutiveErrors := consecutiveErrors + 1;
      lastErrorTime := now;
    }

    /** `_record_success`: the error count drops to 0. */
    method RecordSuccess()
      requires Valid()
      modifies this
      ensures Valid()
      ensures consecutiveErrors == 0
      ensures hasClient == old(hasClient) && connected == old(connected) && lastErrorTime == old(lastErrorTime)
    {
      if consecutiveErrors > 0 {
        consecutiveErrors := 0;
      }
    }

    /**
     * `connect`: nothing to do when already connected with a client;
     * otherwise a new client is made and `outcome` says how its connection
     * attempt ends.
     */
    method Connect(outcome: ConnectOutcome) returns (ok: bool)
      requires Valid()
      modifies this
      ensures Valid()
      ensures consecutiveErrors == old(consecutiveErrors) && lastErrorTime == old(lastErrorTime)
      ensures old(connected) ==> ok && connected && hasClient
      ensures !old(connected) ==> hasClient && ok == (outcome == Connected) && connected == ok
    {
      if connected && hasClient {
        return true;
      }
      hasClient := true;
      match outcome
      case Connected =>
        connected := true;
        return true;
      case NotConnected =>
        return false;
      case ConnectRaised =>
        connected := false;
        return false;
    }

    /** `disconnect`: the client is closed and dropped. */
    method Disconnect()
      requires Valid()
      modifies this
      ensures Valid() && !connected && !hasClient
      ensures consecutiveErrors == old(consecutiveErrors) && lastErrorTime == old(lastErrorTime)
      ensures !old(hasClient) ==> connected == old(connected)
    {
      if hasClient {
        connected := false;
        hasClient := false;
      }
    }

    /**
     * `write_zone_setpoint`: nothing happens when write-through is off; a
     * failed connection records one error; otherwise up to `max_retries`
     * writes of `value` to the setpoint register are made, one second apart.
     * `writes` lists the (address, value) pairs sent with function code 6.
     */
    method WriteZoneSetpoint(baseId: int, zoneId: int, value: int, maxRetries: int, now: int,
                             connect: ConnectOutcome, attempts: seq<AttemptOutcome>)
      returns (ok: bool, msg: ClientMessage, writes: seq<(int, int)>, sleeps: nat)
      requires Valid() && Rounds(maxRetries) <= |attempts|
      modifies this
      ensures Valid()
      ensures !old(GatewayEnabled(config, consecutiveErrors)) ==>
        !ok && msg == WriteThroughDisabled && writes == [] && sleeps == 0 &&
        consecutiveErrors == old(consecutiveErrors) && lastErrorTime == old(lastErrorTime) &&
        connected == old(connected) && hasClient == old(hasClient)
      ensures old(GatewayEnabled(config, consecutiveErrors)) && !old(connected) && connect != Connected ==>
        !ok && msg == ConnectFailed && writes == [] && sleeps == 0 &&
        consecutiveErrors == old(consecutiveErrors) + 1 && lastErrorTime == now && hasClient && !connected
      ensures old(GatewayEnabled(config, consecutiveErrors)) && (old(connected) || connect == Connected) ==>
        var n := AttemptsMade(attempts, maxRetries);
        connected && hasClient && |writes| == n && (forall i :: 0 <= i < n ==> writes[i] == (SetpointAddr(baseId, zoneId), value)) &&
        sleeps == (if n == 0 then 0 else n - 1) &&
        ok == FirstAccepted(attempts, Rounds(maxRetries)).Some? &&
        (ok ==> msg == SetpointWritten && consecutiveErrors == 0 && lastErrorTime == old(lastErrorTime)) &&
        (!ok ==> consecutiveErrors == old(consecutiveErrors) + 1 && lastErrorTime == now) &&
        (!ok && n > 0 ==> msg == FailureMessage(attempts[n - 1], n)) &&
        (!ok && n == 0 ==> msg == AllAttemptsFailed(maxRetries))
    {
      writes := [];
      sleeps := 0;
      var enabled := IsGatewayEnabled();
      if !enabled {
        return false, WriteThroughDisabled, writes, sleeps;
      }
      var setpointAddr := SetpointAddr(baseId, zoneId);
      if !connected {
        var success := Connect(connect);
        if !success {
          RecordError(now);
          return false, ConnectFailed, writes, sleeps;
        }
      }
      ghost var errors0 := consecutiveErrors;
      var attempt := 0;
      while attempt < maxRetries
        invariant Valid() && connected && consecutiveErrors == errors0 && lastErrorTime == old(lastErrorTime)
        invariant 0 <= attempt <= Rounds(maxRetries) && (maxRetries > 0 ==> attempt < maxRetries)
        invariant FirstAccepted(attempts, attempt).None?
        invariant |writes| == attempt && forall i :: 0 <= i < attempt ==> writes[i] == (setpointAddr, value)
        invariant sleeps == attempt
      {
        writes := writes + [(setpointAddr, value)];
        var response := attempts[attempt];
        if response == Accepted {
          RecordSuccess();
          return true, SetpointWritten, writes, sleeps;
        }
        if attempt < maxRetries - 1 {
          sleeps := sleeps + 1;
          attempt := attempt + 1;
          continue;
        }
        RecordError(now);
        return false, FailureMessage(response, attempt + 1), writes, sleeps;
      }
      RecordError(now);
      return false, AllAttemptsFailed(maxRetries), writes, sleeps;
    }

    /**
     * `write_zone_state`: one write of `state` to the zone register, with no
     * enable check and no change to the error count.
     */
    method WriteZoneState(baseId: int, zoneId: int, state: int, connect: ConnectOutcome, attempt: AttemptOutcome)
      returns (ok: bool, msg: ClientMessage, writes: seq<(int, int)>)
      requires Valid()
      modifies this
      ensures Valid() && consecutiveErrors == old(consecutiveErrors) && lastErrorTime == old(lastErrorTime)
      ensures !old(connected) && connect != Connected ==> !ok && msg == ConnectFailed && writes == []
      ensures old(connected) || connect == Connected ==>
        writes == [(ZoneAddr(baseId, zoneId), state)] &&
        ok == (attempt == Accepted) &&
        msg == (if ok then StateWritten else FailureMessage(attempt, 1))
    {
      var zoneAddr := ZoneAddr(baseId, zoneId);
      if !connected {
        var success := Connect(connect);
        if !success {
          return false, ConnectFailed, [];
        }
      }
      writes := [(zoneAddr, state)];
      match attempt
      case Accepted => return true, StateWritten, writes;
      case ErrorResponse => return false, WriteErrorMsg(1), writes;
      case ModbusFault => return false, ModbusExceptionMsg(1), writes;
      case OtherFault => return false, UnexpectedErrorMsg(1), writes;
    }

    /**
     * `read_zone_setpoint`: one read of the setpoint register with function
     * code 3, with no enable check and no change to the error count.  A
     * response without registers fails like any unexpected exception.
     */
    method ReadZoneSetpoint(baseId: int, zoneId: int, connect: ConnectOutcome, outcome: ReadOutcome)
      returns (ok: bool, value: Option<int>, msg: ClientMessage, sent: seq<(int, int)>)
      requires Valid()
      modifies this
      ensures Valid() && consecutiveErrors == old(consecutiveErrors) && lastErrorTime == old(lastErrorTime)
      ensures !old(connected) && connect != Connected ==> !ok && value == None && msg == ConnectFailed && sent == []
      ensures old(connected) || connect == Connected ==>
        sent == [(SetpointAddr(baseId, zoneId), 1)] &&
        ok == (outcome.ReadAccepted? && |outcome.registers| > 0) &&
        value == (if ok then Some(outcome.registers[0]) else None) &&
        msg == (if ok then SetpointRead
                else match outcome
                  case ReadErrorResponse => ReadError
                  case ReadModbusFault => ReadException
                  case _ => ReadUnexpected)
    {
      var setpointAddr := SetpointAddr(baseId, zoneId);
      if !connected {
        var success := Connect(connect);
        if !success {
          return false, None, ConnectFailed, [];
        }
      }
      sent := [(setpointAddr, 1)];
      match outcome
      case ReadErrorResponse => return false, None, ReadError, sent;
      case ReadModbusFault => return false, None, ReadException, sent;
      case ReadOtherFault => return false, None, ReadUnexpected, sent;
      case ReadAccepted(registers) =>
        if |registers| == 0 {
          return false, None, ReadUnexpected, sent;
        }
        return true, Some(registers[0]), SetpointRead, sent;
    }
  }

  /** A call that makes no attempt at all, because `max_retries` is not positive, still counts one error. */
  lemma NoRoundsMeansFailure(attempts: seq<AttemptOutcome>, maxRetries: int)
    requires maxRetries <= 0
    ensures AttemptsMade(attempts, maxRetries) == 0
    ensures FirstAccepted(attempts, Rounds(maxRetries)).None?
  {
  }

  /**
   * The attempts stop at the first accepted one: every attempt made before
   * the last was refused, and the last was accepted exactly when the call
   * succeeds.
   */
  lemma AttemptsStopAtFirstSuccess(attempts: seq<AttemptOutcome>, maxRetries: int)
    requires Rounds(maxRetries) <= |attempts|
    ensures var n := AttemptsMade(attempts, maxRetries);
      (forall i :: 0 <= i < n - 1 ==> attempts[i] != Accepted) &&
      (n > 0 ==> (attempts[n - 1] == Accepted <==> FirstAccepted(attempts, Rounds(maxRetries)).Some?)) &&
      (FirstAccepted(attempts, Rounds(maxRetries)).None? ==> n == Rounds(maxRetries))
  {
  }

  /** Later attempts do not matter once one of the first `n` was accepted. */
  lemma {:induction false} FirstAcceptedStable(attempts: seq<AttemptOutcome>, n: nat, m: nat)
    requires n <= m <= |attempts|
    requires FirstAccepted(attempts, n).Some?
    ensures FirstAccepted(attempts, m) == FirstAccepted(attempts, n)
    decreases m - n
  {
    if m > n {
      FirstAcceptedStable(attempts, n, m - 1);
    }
  }
}
