/**
 * The register manager of src/modbus_manager.py: a circuit breaker around
 * every bus read and write, an in-memory data block that persists its
 * writes to a database, and the batched bus synchronisation.  Time is the
 * argument `now` in whole seconds; whether the guarded operation raises is
 * an argument too.
 */
module ModbusManager {
  import opened Wrappers
  import opened Registers

  datatype CircuitState = Closed | Open | HalfOpen

  datatype BreakerConfig = BreakerConfig(failureThreshold: int, recoveryTimeout: int, halfOpenMaxCalls: int)

  const DefaultBreakerConfig := BreakerConfig(5, 60, 3)

  /** The four fields of a CircuitBreaker. */
  datatype Breaker = Breaker(state: CircuitState, failureCount: int, lastFailureTime: Option<int>, halfOpenCalls: int)

  const InitialBreaker := Breaker(Closed, 0, None, 0)

  /** What `call` does: raise CircuitBreakerOpen, return the result, or re-raise the operation's error. */
  datatype CallOutcome = Rejected | Succeeded | Failed

  /** `_should_attempt_reset`: no failure yet, or strictly more than the recovery timeout since the last one. */
  predicate ResetDue(b: Breaker, cfg: BreakerConfig, now: int)
  {
    b.lastFailureTime.None? || now - b.lastFailureTime.value > cfg.recoveryTimeout
  }

  /** `_on_success`. */
  function AfterSuccess(b: Breaker, cfg: BreakerConfig): Breaker
  {
    if b.state == HalfOpen then
      var calls := b.halfOpenCalls + 1;
      if calls >= cfg.halfOpenMaxCalls then b.(halfOpenCalls := calls, state := Closed, failureCount := 0)
      else b.(halfOpenCalls := calls)
    else b.(failureCount := 0)
  }

  /** `_on_failure`. */
  function AfterFailure(b: Breaker, cfg: BreakerConfig, now: int): Breaker
  {
    var b1 := b.(failureCount := b.failureCount + 1, lastFailureTime := Some(now));
    if b.state == HalfOpen then b1.(state := Open)
    else if b1.failureCount >= cfg.failureThreshold then b1.(state := Open)
    else b1
  }

  /** `call`, with the operation's outcome given: the new breaker and what the caller sees. */
  function CallStep(b: Breaker, cfg: BreakerConfig, now: int, succeeds: bool): (Breaker, CallOutcome)
  {
    if b.state == Open && !ResetDue(b, cfg, now) then (b, Rejected)
    else
      var b1 := if b.state == Open then b.(state := HalfOpen, halfOpenCalls := 0) else b;
      if succeeds then (AfterSuccess(b1, cfg), Succeeded) else (AfterFailure(b1, cfg, now), Failed)
  }

  predicate SaneConfig(cfg: BreakerConfig)
  {
    cfg.failureThreshold >= 1 && cfg.halfOpenMaxCalls >= 1
  }

  /** What the breaker's fields always satisfy. */
  predicate BreakerInv(b: Breaker, cfg: BreakerConfig)
  {
    && b.failureCount >= 0 && b.halfOpenCalls >= 0
    && (b.state == Closed ==> b.failureCount < cfg.failureThreshold)
    && (b.state == Open ==> b.lastFailureTime.Some?)
    && (b.state == HalfOpen ==> b.halfOpenCalls < cfg.halfOpenMaxCalls)
  }

  // ---------------------------------------------------------------------
  // Properties of the breaker.

  lemma InitialBreakerInv(cfg: BreakerConfig)
    requires SaneConfig(cfg)
    ensures BreakerInv(InitialBreaker, cfg)
  {
  }

  /** Every call keeps the invariant when both thresholds are at least 1. */
  lemma CallPreservesInv(b: Breaker, cfg: BreakerConfig, now: int, succeeds: bool)
    requires SaneConfig(cfg) && BreakerInv(b, cfg)
    ensures BreakerInv(CallStep(b, cfg, now, succeeds).0, cfg)
  {
  }

  /**
   * A call is rejected exactly when the breaker is open, a failure has been
   * recorded and at most `recovery_timeout` seconds have passed since; then
   * the operation is not run and no field changes.
   */
  lemma RejectedExactly(b: Breaker, cfg: BreakerConfig, now: int, succeeds: bool)
    ensures CallStep(b, cfg, now, succeeds).1 == Rejected <==>
      b.state == Open && b.lastFailureTime.Some? && now - b.lastFailureTime.value <= cfg.recoveryTimeout
    ensures CallStep(b, cfg, now, succeeds).1 == Rejected ==> CallStep(b, cfg, now, succeeds).0 == b
  {
  }

  /**
   * Outside a rejection the operation's outcome decides: a success clears
   * the failure count, unless a half-open trial has yet to reach
   * `half_open_max_calls`; a failure counts, records the time and opens the
   * breaker from half-open at once and from closed at the threshold.
   */
  lemma AdmittedOutcome(b: Breaker, cfg: BreakerConfig, now: int, succeeds: bool)
    requires SaneConfig(cfg) && BreakerInv(b, cfg)
    requires CallStep(b, cfg, now, succeeds).1 != Rejected
    ensures var (b', out) := CallStep(b, cfg, now, succeeds);
      && (out == Succeeded <==> succeeds)
      && (succeeds && b.state == Closed ==> b' == b.(failureCount := 0))
      && (succeeds && b.state != Closed ==>
            var calls := (if b.state == Open then 0 else b.halfOpenCalls) + 1;
            b'.halfOpenCalls == calls &&
            (if calls >= cfg.halfOpenMaxCalls then b'.state == Closed && b'.failureCount == 0
             else b'.state == HalfOpen && b'.failureCount == b.failureCount))
      && (!succeeds ==> b'.failureCount == b.failureCount + 1 && b'.lastFailureTime == Some(now))
      && (!succeeds && b.state != Closed ==> b'.state == Open)
      && (!succeeds && b.state == Closed ==>
            (b'.state == Open <==> b.failureCount + 1 >= cfg.failureThreshold))
  {
  }

  /** `n` failed calls in a row at time `now`. */
  function FailRepeatedly(b: Breaker, cfg: BreakerConfig, now: int, n: nat): Breaker
    decreases n
  {
    if n == 0 then b else FailRepeatedly(CallStep(b, cfg, now, false).0, cfg, now, n - 1)
  }

  /**
   * From a closed breaker with no failures, the first `failure_threshold - 1`
   * failures keep it closed and the next one opens it.
   */
  lemma {:induction false} ThresholdFailuresOpen(cfg: BreakerConfig, now: int, n: nat, count: nat)
    requires SaneConfig(cfg) && count + n <= cfg.failureThreshold && count < cfg.failureThreshold
    ensures var b := FailRepeatedly(Breaker(Closed, count, None, 0), cfg, now, n);
      b.failureCount == count + n &&
      (b.state == Open <==> count + n == cfg.failureThreshold) &&
      (b.state != Open ==> b.state == Closed)
  {
    if n > 0 {
      var b1 := CallStep(Breaker(Closed, count, None, 0), cfg, now, false).0;
      if count + 1 == cfg.failureThreshold {
        assert n == 1;
        assert FailRepeatedly(b1, cfg, now, 0) == b1;
      } else {
        assert b1 == Breaker(Closed, count + 1, Some(now), 0);
        ThresholdFailuresOpenTimed(cfg, now, n - 1, count + 1);
      }
    }
  }

  /** As above, once a failure time has been recorded. */
  lemma {:induction false} ThresholdFailuresOpenTimed(cfg: BreakerConfig, now: int, n: nat, count: nat)
    requires SaneConfig(cfg) && count + n <= cfg.failureThreshold && count < cfg.failureThreshold
    ensures var b := FailRepeatedly(Breaker(Closed, count, Some(now), 0), cfg, now, n);
      b.failureCount == count + n &&
      (b.state == Open <==> count + n == cfg.failureThreshold) &&
      (b.state != Open ==> b.state == Closed)
  {
    if n > 0 {
      var b1 := CallStep(Breaker(Closed, count, Some(now), 0), cfg, now, false).0;
      if count + 1 == cfg.failureThreshold {
        assert n == 1;
        assert FailRepeatedly(b1, cfg, now, 0) == b1;
      } else {
        assert b1 == Breaker(Closed, count + 1, Some(now), 0);
        ThresholdFailuresOpenTimed(cfg, now, n - 1, count + 1);
      }
    }
  }

  /** Once open, the breaker rejects every call until the recovery timeout has passed. */
  lemma OpenRejectsUntilTimeout(b: Breaker, cfg: BreakerConfig, now: int, later: int, succeeds: bool)
    requires BreakerInv(b, cfg) && b.state == Open
    requires b.lastFailureTime.value <= later <= b.lastFailureTime.value + cfg.recoveryTimeout
    ensures CallStep(b, cfg, later, succeeds) == (b, Rejected)
  {
  }

  // ---------------------------------------------------------------------
  // The breaker object.

  class CircuitBreaker {
    const config: BreakerConfig
    var state: CircuitState
    var failureCount: int
    var lastFailureTime: Option<int>
    var halfOpenCalls: int

    function Snapshot(): Breaker
      reads this
    {
      Breaker(state, failureCount, lastFailureTime, halfOpenCalls)
    }

    constructor (config: BreakerConfig)
      ensures this.config == config && Snapshot() == InitialBreaker
    {
      this.config := config;
      state := Closed;
      failureCount := 0;
      lastFailureTime := None;
      halfOpenCalls := 0;
    }

    method ShouldAttemptReset(now: int) returns (r: bool)
      ensures r <==> ResetDue(Snapshot(), config, now)
    {
      if lastFailureTime.None? {
        return true;
      }
      var elapsed := now - lastFailureTime.value;
      r := elapsed > config.recoveryTimeout;
    }

    method OnSuccess()
      modifies this
      ensures Snapshot() == AfterSuccess(old(Snapshot()), config)
    {
      if state == HalfOpen {
        halfOpenCalls := halfOpenCalls + 1;
        if halfOpenCalls >= config.halfOpenMaxCalls {
          state := Closed;
          failureCount := 0;
        }
      } else {
        failureCount := 0;
      }
    }

    method OnFailure(now: int)
      modifies this
      ensures Snapshot() == AfterFailure(old(Snapshot()), config, now)
    {
      failureCount := failureCount + 1;
      lastFailureTime := Some(now);
      if state == HalfOpen {
        state := Open;
      } else if failureCount >= config.failureThreshold {
        state := Open;
      }
    }

    /** `call(func)`, where `succeeds` says whether `func` returns or raises. */
    method Call(now: int, succeeds: bool) returns (outcome: CallOutcome)
      modifies this
      ensures (Snapshot(), outcome) == CallStep(old(Snapshot()), config, now, succeeds)
    {
      if state == Open {
        var reset := ShouldAttemptReset(now);
        if reset {
          state := HalfOpen;
          halfOpenCalls := 0;
        } else {
          return Rejected;
        }
      }
      if succeeds {
        OnSuccess();
        outcome := Succeeded;
      } else {
        OnFailure(now);
        outcome := Failed;
      }
    }
  }

  // ---------------------------------------------------------------------
  // The database and the data block.

  /**
   * The database manager the block persists to.  Its implementation is not
   * part of this model: it is a register map, and whether a write raises is
   * an argument.
   */
  class RegisterDatabase {
    var regs: seq<int>

    ghost predicate Valid()
      reads this
    {
      |regs| == RegisterCount
    }

    constructor (initial: seq<int>)
      requires |initial| == RegisterCount
      ensures Valid() && regs == initial
    {
      regs := initial;
    }

    method GetRegisters(address: int, count: int) returns (vs: seq<int>)
      requires InRange(regs, address, count)
      ensures vs == regs[address..address + count]
    {
      vs := regs[address..address + count];
    }

    /** `set_registers`; `ok` is false when the write raises, and then nothing is stored. */
    method SetRegisters(address: int, values: seq<int>, ok: bool) returns (raised: bool)
      requires InRange(regs, address, |values|)
      modifies this
      ensures raised == !ok
      ensures regs == if ok then Overwrite(old(regs), address, values) else old(regs)
    {
      if ok {
        regs := Overwrite(regs, address, values);
      }
      raised := !ok;
    }
  }

  /** ThreadSafeDataBlock: the in-memory registers, persisted on every write. */
  class ThreadSafeDataBlock {
    const db: RegisterDatabase
    const values: array<int>

    ghost predicate Valid()
      reads this, db
    {
      values.Length == RegisterCount && db.Valid()
    }

    /** The block starts with the database's 65536 registers. */
    constructor (db: RegisterDatabase)
      requires db.Valid()
      ensures this.db == db && Valid() && fresh(values) && values[..] == db.regs
    {
      this.db := db;
      var initial := db.regs;
      values := new int[RegisterCount](i requires 0 <= i < |initial| => initial[i]);
    }

    /**
     * `setValues`: the block is written first, then the database; a database
     * error is swallowed and leaves the block written.
     */
    method SetValues(address: int, arg: WriteArg, dbOk: bool)
      requires Valid()
      requires InRange(values[..], address, |AsList(arg)|)
      modifies values, db
      ensures Valid()
      ensures values[..] == Overwrite(old(values[..]), address, AsList(arg))
      ensures db.regs == if dbOk then Overwrite(old(db.regs), address, AsList(arg)) else old(db.regs)
    {
      var vs := AsList(arg);
      var k := 0;
      while k < |vs|
        invariant 0 <= k <= |vs|
        invariant forall i :: 0 <= i < values.Length ==>
          values[i] == if address <= i < address + k then vs[i - address] else old(values[i])
        invariant db.regs == old(db.regs)
      {
        values[address + k] := vs[k];
        k := k + 1;
      }
      assert values[..] == Overwrite(old(values[..]), address, vs) by {
        forall i | 0 <= i < values.Length ensures values[..][i] == Overwrite(old(values[..]), address, vs)[i] {
          OverwriteAt(old(values[..]), address, vs, i);
        }
      }
      var _ := db.SetRegisters(address, vs, dbOk);
    }

    method GetValues(address: int, count: int) returns (vs: seq<int>)
      requires InRange(values[..], address, count)
      ensures vs == values[address..address + count]
    {
      vs := values[address..address + count];
    }
  }

  // ---------------------------------------------------------------------
  // The manager.

  /** ModbusReadError, ModbusWriteError, CircuitBreakerOpen, and an error the database raises. */
  datatype ManagerError = ReadError | WriteError | BreakerOpen | DatabaseError

  /**
   * What the environment does in one call, write by write: whether the
   * guarded bus read returns (`busOk`); whether the data block's own
   * persisting write, whose error it swallows, goes through (`blockDbOk`);
   * whether the manager's direct database write goes through (`dbOk`: the
   * `update_db` write of a read, the write inside the guarded write or the
   * one in its open-breaker branch); and whether the second store of a
   * `sync_from_bus` batch goes through (`resyncOk`).
   */
  datatype BusOutcome = BusOutcome(busOk: bool, blockDbOk: bool, dbOk: bool, resyncOk: bool)

  class ModbusManager {
    const slaveId: int
    const db: RegisterDatabase
    const breaker: CircuitBreaker
    const block: ThreadSafeDataBlock

    ghost predicate Valid()
      reads this, db, block, block.db
    {
      block.db == db && block.Valid()
    }

    /** The manager builds its context around a fresh data block loaded from the database. */
    constructor (slaveId: int, db: RegisterDatabase, config: BreakerConfig)
      requires db.Valid()
      ensures Valid() && this.slaveId == slaveId && this.db == db
      ensures fresh(breaker) && fresh(block) && fresh(block.values)
      ensures breaker.config == config && breaker.Snapshot() == InitialBreaker
      ensures block.values[..] == db.regs
    {
      this.slaveId := slaveId;
      this.db := db;
      breaker := new CircuitBreaker(config);
      block := new ThreadSafeDataBlock(db);
    }

    /**
     * `read_registers`: the block's values when the breaker admits the read
     * and it returns (persisted when `updateDb`), the database's values when
     * the breaker is open, and the read error otherwise.
     */
    method ReadRegisters(address: int, count: int, updateDb: bool, now: int, outcome: BusOutcome)
      returns (r: Result<seq<int>, ManagerError>)
      requires Valid() && InRange(db.regs, address, count)
      requires breaker != db as object && breaker != block as object
      modifies breaker, db
      ensures Valid() && unchanged(block.values)
      ensures breaker.Snapshot() == CallStep(old(breaker.Snapshot()), breaker.config, now, outcome.busOk).0
      ensures match CallStep(old(breaker.Snapshot()), breaker.config, now, outcome.busOk).1
        case Rejected =>
          r == Success(old(db.regs)[address..address + count]) && db.regs == old(db.regs)
        case Failed =>
          r == Failure(ReadError) && db.regs == old(db.regs)
        case Succeeded =>
          var vs := block.values[address..address + count];
          if updateDb && !outcome.dbOk then r == Failure(DatabaseError) && db.regs == old(db.regs)
          else r == Success(vs) && db.regs == if updateDb then Overwrite(old(db.regs), address, vs) else old(db.regs)
    {
      var out := breaker.Call(now, outcome.busOk);
      match out
      case Rejected =>
        var cached := db.GetRegisters(address, count);
        return Success(cached);
      case Failed =>
        return Failure(ReadError);
      case Succeeded =>
        var values := block.GetValues(address, count);
        if updateDb {
          var raised := db.SetRegisters(address, values, outcome.dbOk);
          if raised {
            return Failure(DatabaseError);
          }
        }
        return Success(values);
    }

    /**
     * `write_registers`: when the breaker admits the write, the block takes
     * the values and persists them (an error swallowed), then the database
     * is written directly, and that write decides the guarded call; when the
     * breaker is open, only the database takes them and CircuitBreakerOpen
     * is raised again.  The database holds the values when either write of
     * the admitted call went through.
     */
    method WriteRegisters(address: int, values: seq<int>, now: int, outcome: BusOutcome)
      returns (r: Result<(), ManagerError>)
      requires Valid() && InRange(db.regs, address, |values|)
      requires breaker != db as object && breaker != block as object
      modifies breaker, db, block.values
      ensures Valid()
      ensures breaker.Snapshot() == CallStep(old(breaker.Snapshot()), breaker.config, now, outcome.dbOk).0
      ensures db.regs ==
        if outcome.dbOk || (CallStep(old(breaker.Snapshot()), breaker.config, now, outcome.dbOk).1 != Rejected && outcome.blockDbOk)
        then Overwrite(old(db.regs), address, values) else old(db.regs)
      ensures match CallStep(old(breaker.Snapshot()), breaker.config, now, outcome.dbOk).1
        case Rejected =>
          block.values[..] == old(block.values[..]) &&
          r == Failure(if outcome.dbOk then BreakerOpen else DatabaseError)
        case Failed =>
          block.values[..] == Overwrite(old(block.values[..]), address, values) && r == Failure(WriteError)
        case Succeeded =>
          block.values[..] == Overwrite(old(block.values[..]), address, values) && r == Success(())
    {
      // The guarded operation returns exactly when the database write inside it does.
      var out := breaker.Call(now, outcome.dbOk);
      match out
      case Rejected =>
        var raised := db.SetRegisters(address, values, outcome.dbOk);
        return Failure(if raised then DatabaseError else BreakerOpen);
      case Failed =>
        Persist(address, values, outcome);
        return Failure(WriteError);
      case Succeeded =>
        Persist(address, values, outcome);
        return Success(());
    }

    /** The body of the guarded write: the block's write with its own persisting, then the direct one. */
    method Persist(address: int, values: seq<int>, outcome: BusOutcome)
      requires Valid() && InRange(db.regs, address, |values|)
      modifies db, block.values
      ensures Valid()
      ensures block.values[..] == Overwrite(old(block.values[..]), address, values)
      ensures db.regs == if outcome.blockDbOk || outcome.dbOk then Overwrite(old(db.regs), address, values) else old(db.regs)
    {
      block.SetValues(address, List(values), outcome.blockDbOk);
      ghost var mid := db.regs;
      var _ := db.SetRegisters(address, values, outcome.dbOk);
      if outcome.blockDbOk && outcome.dbOk {
        OverwriteSame(mid, address, |values|);
      }
    }

    /** `read_register`: the first value of a one-register read. */
    method ReadRegister(address: int, updateDb: bool, now: int, outcome: BusOutcome)
      returns (r: Result<int, ManagerError>)
      requires Valid() && InRange(db.regs, address, 1)
      requires breaker != db as object && breaker != block as object
      modifies breaker, db
      ensures Valid() && unchanged(block.values)
      ensures breaker.Snapshot() == CallStep(old(breaker.Snapshot()), breaker.config, now, outcome.busOk).0
      ensures match CallStep(old(breaker.Snapshot()), breaker.config, now, outcome.busOk).1
        case Rejected => r == Success(old(db.regs)[address]) && db.regs == old(db.regs)
        case Failed => r == Failure(ReadError) && db.regs == old(db.regs)
        case Succeeded =>
          if updateDb && !outcome.dbOk then r == Failure(DatabaseError) && db.regs == old(db.regs)
          else r == Success(block.values[address]) &&
               db.regs == if updateDb then old(db.regs)[address := block.values[address]] else old(db.regs)
    {
      var vs := ReadRegisters(address, 1, updateDb, now, outcome);
      OverwriteOne(old(db.regs), address, block.values[address]);
      assert block.values[address..address + 1] == [block.values[address]];
      match vs
      case Failure(e) => return Failure(e);
      case Success(v) => return Success(v[0]);
    }

    /** `write_register`: a one-register write. */
    method WriteRegister(address: int, value: int, now: int, outcome: BusOutcome)
      returns (r: Result<(), ManagerError>)
      requires Valid() && InRange(db.regs, address, 1)
      requires breaker != db as object && breaker != block as object
      modifies breaker, db, block.values
      ensures Valid()
      ensures breaker.Snapshot() == CallStep(old(breaker.Snapshot()), breaker.config, now, outcome.dbOk).0
      ensures db.regs ==
        if outcome.dbOk || (CallStep(old(breaker.Snapshot()), breaker.config, now, outcome.dbOk).1 != Rejected && outcome.blockDbOk)
        then old(db.regs)[address := value] else old(db.regs)
      ensures block.values[..] ==
        if CallStep(old(breaker.Snapshot()), breaker.config, now, outcome.dbOk).1 == Rejected then old(block.values[..])
        else old(block.values[..])[address := value]
      ensures match CallStep(old(breaker.Snapshot()), breaker.config, now, outcome.dbOk).1
        case Rejected => r == Failure(if outcome.dbOk then BreakerOpen else DatabaseError)
        case Failed => r == Failure(WriteError)
        case Succeeded => r == Success(())
    {
      r := WriteRegisters(address, [value], now, outcome);
      OverwriteOne(old(db.regs), address, value);
      OverwriteOne(old(block.values[..]), address, value);
    }

    /**
     * `sync_from_bus`: reads the range in batches of 100 and stores each
     * batch in the database; a batch that raises is skipped and not counted.
     * `synced` is only logged by the source; here it is returned.
     */
    method SyncFromBus(start: int, count: int, now: int, outcomes: seq<BusOutcome>) returns (synced: int)
      requires Valid() && 0 <= start && start + count <= RegisterCount
      requires |outcomes| >= NumBatches(count)
      requires breaker != db as object && breaker != block as object
      modifies breaker, db
      ensures Valid() && unchanged(block.values)
      ensures var (b, n, copied) := SyncFold(old(breaker.Snapshot()), breaker.config, now, start, count, outcomes, NumBatches(count));
        breaker.Snapshot() == b && synced == n && db.regs == Merge(old(db.regs), block.values[..], copied)
    {
      synced := 0;
      var addr := start;
      var j := 0;
      ghost var copied: seq<(int, int)> := [];
      ghost var b0 := breaker.Snapshot();
      ghost var db0 := db.regs;
      while addr < start + count
        invariant Valid() && unchanged(block.values)
        invariant 0 <= j <= NumBatches(count) && start <= addr
        invariant j < NumBatches(count) ==> addr == BatchStart(start, j) && addr < start + count
        invariant j == NumBatches(count) ==> addr >= start + count
        invariant SyncFold(b0, breaker.config, now, start, count, outcomes, j) == (breaker.Snapshot(), synced, copied)
        invariant db.regs == Merge(db0, block.values[..], copied)
        decreases NumBatches(count) - j
      {
        BatchFacts(start, count, j);
        var batchCount := if BatchSize < start + count - addr then BatchSize else start + count - addr;
        ghost var step := SyncStep(breaker.Snapshot(), breaker.config, now, outcomes[j]);
        ghost var synced1, copied1 := synced, copied;
        assert addr == BatchStart(start, j) && batchCount == BatchLength(start, count, j);
        var counted := SyncBatch(addr, batchCount, now, outcomes[j]);
        if counted {
          synced := synced + batchCount;
        }
        if step.1 {
          MergeGrow(db0, block.values[..], copied, addr, batchCount);
          copied := copied + [(addr, batchCount)];
        }
        assert breaker.Snapshot() == step.0;
        assert synced == synced1 + (if step.2 then batchCount else 0);
        assert copied == copied1 + (if step.1 then [(addr, batchCount)] else []);
        assert SyncFold(b0, breaker.config, now, start, count, outcomes, j + 1)
            == (step.0, synced1 + (if step.2 then batchCount else 0), copied1 + (if step.1 then [(addr, batchCount)] else []));
        addr := addr + batchCount;
        j := j + 1;
      }
    }

    /**
     * One batch of `sync_from_bus`: a read that updates the database and,
     * when it returns, a second store of the values read. Whether the batch
     * counts is returned.
     */
    method SyncBatch(addr: int, batchCount: int, now: int, o: BusOutcome) returns (counted: bool)
      requires Valid() && InRange(db.regs, addr, batchCount)
      requires breaker != db as object && breaker != block as object
      modifies breaker, db
      ensures Valid() && unchanged(block.values)
      ensures var step := SyncStep(old(breaker.Snapshot()), breaker.config, now, o);
        breaker.Snapshot() == step.0 && counted == step.2 &&
        db.regs == if step.1 then Overwrite(old(db.regs), addr, block.values[addr..addr + batchCount]) else old(db.regs)
    {
      var values := ReadRegisters(addr, batchCount, true, now, o);
      ghost var mid := db.regs;
      counted := false;
      if values.Success? {
        var raised := db.SetRegisters(addr, values.value, o.resyncOk);
        counted := !raised;
        OverwriteSame(mid, addr, batchCount);
      }
    }
  }

  /** A one-register write is a sequence update. */
  lemma OverwriteOne(regs: seq<int>, address: int, value: int)
    requires InRange(regs, address, 1)
    ensures Overwrite(regs, address, [value]) == regs[address := value]
  {
  }

  // ---------------------------------------------------------------------
  // The batches of sync_from_bus.

  const BatchSize := 100

  /** `len(range(start, start + count, 100))`. */
  function NumBatches(count: int): nat
  {
    if count <= 0 then 0 else (count + BatchSize - 1) / BatchSize
  }

  function BatchStart(start: int, j: nat): int { start + BatchSize * j }

  /** `min(batch_size, start_address + count - addr)`. */
  function BatchLength(start: int, count: int, j: nat): int
  {
    var rest := start + count - BatchStart(start, j);
    if BatchSize < rest then BatchSize else rest
  }

  lemma BatchFacts(start: int, count: int, j: nat)
    requires j < NumBatches(count)
    ensures BatchStart(start, j) < start + count
    ensures 1 <= BatchLength(start, count, j) <= BatchSize
    ensures j + 1 < NumBatches(count) <==> BatchLength(start, count, j) == BatchSize && BatchStart(start, j + 1) < start + count
    ensures j + 1 == NumBatches(count) ==> BatchStart(start, j) + BatchLength(start, count, j) == start + count
  {
    var n := NumBatches(count);
    assert BatchSize * (n - 1) < count <= BatchSize * n;
  }

  /**
   * The batches partition [start, start + count): each holds 1 to 100
   * registers, each begins where the previous one ends, the first at
   * `start` and the last ends at `start + count`.
   */
  lemma BatchesPartition(start: int, count: int)
    requires count > 0
    ensures forall j :: 0 <= j < NumBatches(count) ==> 1 <= BatchLength(start, count, j) <= BatchSize
    ensures forall j :: 0 <= j < NumBatches(count) - 1 ==>
      BatchStart(start, j) + BatchLength(start, count, j) == BatchStart(start, j + 1)
    ensures BatchStart(start, 0) == start
    ensures BatchStart(start, NumBatches(count) - 1) + BatchLength(start, count, NumBatches(count) - 1) == start + count
  {
    var n := NumBatches(count);
    assert BatchSize * (n - 1) < count <= BatchSize * n;
  }

  /**
   * What one batch does: the breaker after it, whether it copied the block
   * to the database, and whether it counts.  A read that returns is copied
   * by its `update_db` write; the batch counts when the read gave values
   * (read or cached) and the second store went through as well.
   */
  function SyncStep(b: Breaker, cfg: BreakerConfig, now: int, o: BusOutcome): (Breaker, bool, bool)
  {
    var (b', out) := CallStep(b, cfg, now, o.busOk);
    var copies := out == Succeeded && o.dbOk;
    (b', copies, (copies || out == Rejected) && o.resyncOk)
  }

  /** The first `n` batches: the breaker, the count of registers synced and the ranges copied. */
  function SyncFold(b: Breaker, cfg: BreakerConfig, now: int, start: int, count: int, outcomes: seq<BusOutcome>, n: nat)
    : (Breaker, int, seq<(int, int)>)
    requires n <= NumBatches(count) && n <= |outcomes|
  {
    if n == 0 then (b, 0, [])
    else
      var (b1, synced, copied) := SyncFold(b, cfg, now, start, count, outcomes, n - 1);
      var (b2, copies, counts) := SyncStep(b1, cfg, now, outcomes[n - 1]);
      var len := BatchLength(start, count, n - 1);
      (b2, synced + (if counts then len else 0),
       copied + (if copies then [(BatchStart(start, n - 1), len)] else []))
  }

  /** Register `i` lies in one of the ranges. */
  predicate Covered(ranges: seq<(int, int)>, i: int)
  {
    exists k :: 0 <= k < |ranges| && ranges[k].0 <= i < ranges[k].0 + ranges[k].1
  }

  /** The database after the given ranges were copied over from the block. */
  function Merge(db: seq<int>, block: seq<int>, ranges: seq<(int, int)>): (r: seq<int>)
    requires |db| == |block|
    ensures |r| == |db|
    ensures forall i :: 0 <= i < |db| ==> r[i] == if Covered(ranges, i) then block[i] else db[i]
  {
    seq(|db|, i requires 0 <= i < |db| => if Covered(ranges, i) then block[i] else db[i])
  }

  lemma MergeGrow(db: seq<int>, block: seq<int>, ranges: seq<(int, int)>, address: int, len: int)
    requires |db| == |block| && InRange(db, address, len)
    ensures Overwrite(Merge(db, block, ranges), address, block[address..address + len]) ==
            Merge(db, block, ranges + [(address, len)])
  {
    var ranges' := ranges + [(address, len)];
    var lhs := Overwrite(Merge(db, block, ranges), address, block[address..address + len]);
    var rhs := Merge(db, block, ranges');
    forall i | 0 <= i < |db| ensures lhs[i] == rhs[i] {
      OverwriteAt(Merge(db, block, ranges), address, block[address..address + len], i);
      if address <= i < address + len {
        assert ranges'[|ranges|] == (address, len);
      } else if Covered(ranges', i) {
        var k :| 0 <= k < |ranges'| && ranges'[k].0 <= i < ranges'[k].0 + ranges'[k].1;
        assert k < |ranges| && ranges[k] == ranges'[k];
      } else {
        forall k | 0 <= k < |ranges| ensures !(ranges[k].0 <= i < ranges[k].0 + ranges[k].1) {
          assert ranges'[k] == ranges[k];
        }
      }
    }
  }

  /** Writing back what a range already holds changes nothing. */
  lemma OverwriteSame(regs: seq<int>, address: int, len: int)
    requires InRange(regs, address, len)
    ensures Overwrite(regs, address, regs[address..address + len]) == regs
  {
  }
}
