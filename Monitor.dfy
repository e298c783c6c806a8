/**
 * The Modbus traffic monitor: an append-only log of the read and write
 * operations seen on the bus, with filtered queries and statistics.
 * Record timestamps, the console and file output of each record and the
 * lock around the log are not modelled.
 */
module Monitor {
  import opened Wrappers
  import Database

  /** `ModbusOperationLog`, without its timestamp. */
  datatype OperationLog = OperationLog(operationType: string, slaveId: int, address: int,
                                       values: seq<int>, count: Option<int>, source: string)

  predicate IsRead(op: OperationLog) { op.operationType == "read" }
  predicate IsWrite(op: OperationLog) { op.operationType == "write" }

  function OfType(t: string): OperationLog -> bool { (op: OperationLog) => op.operationType == t }
  function AtAddress(a: int): OperationLog -> bool { (op: OperationLog) => op.address == a }
  function FromSource(s: string): OperationLog -> bool { (op: OperationLog) => op.source == s }

  // ---------------------------------------------------------------------
  // Queries.

  /** `[op for op in ops if keep(op)]`. */
  function Select(ops: seq<OperationLog>, keep: OperationLog -> bool): (r: seq<OperationLog>)
    ensures |r| <= |ops|
    ensures forall i :: 0 <= i < |r| ==> keep(r[i])
    ensures forall i :: 0 <= i < |ops| && keep(ops[i]) ==> ops[i] in r
  {
    if ops == [] then []
    else
      var init := Select(ops[..|ops| - 1], keep);
      assert forall i :: 0 <= i < |ops| - 1 ==> ops[i] == ops[..|ops| - 1][i];
      init + (if keep(ops[|ops| - 1]) then [ops[|ops| - 1]] else [])
  }

  lemma SelectSnoc(ops: seq<OperationLog>, op: OperationLog, keep: OperationLog -> bool)
    ensures Select(ops + [op], keep) == Select(ops, keep) + (if keep(op) then [op] else [])
  {
    assert (ops + [op])[..|ops|] == ops;
  }

  /**
   * Select keeps every record that passes as often as it occurs and no
   * other record; with the order kept (SelectEmbeds) this fixes its value.
   */
  lemma {:induction false} SelectCounts(ops: seq<OperationLog>, keep: OperationLog -> bool, x: OperationLog)
    ensures multiset(Select(ops, keep))[x] == if keep(x) then multiset(ops)[x] else 0
  {
    if ops != [] {
      var init := ops[..|ops| - 1];
      var last := ops[|ops| - 1];
      assert ops == init + [last];
      SelectCounts(init, keep, x);
      SelectSnoc(init, last, keep);
    }
  }

  /** `idx` picks `a` out of `b` at strictly increasing positions. */
  ghost predicate Embeds(a: seq<OperationLog>, b: seq<OperationLog>, idx: seq<int>)
  {
    && |idx| == |a|
    && (forall i :: 0 <= i < |idx| ==> 0 <= idx[i] < |b| && a[i] == b[idx[i]])
    && (forall i, j :: 0 <= i < j < |idx| ==> idx[i] < idx[j])
  }

  /** `a` is `b` with some records left out, the rest in their order. */
  ghost predicate IsSubsequence(a: seq<OperationLog>, b: seq<OperationLog>)
  {
    exists idx :: Embeds(a, b, idx)
  }

  lemma {:induction false} SelectEmbeds(ops: seq<OperationLog>, keep: OperationLog -> bool) returns (idx: seq<int>)
    ensures Embeds(Select(ops, keep), ops, idx)
    ensures forall i :: 0 <= i < |idx| ==> idx[i] < |ops|
  {
    if ops == [] {
      idx := [];
    } else {
      var init := ops[..|ops| - 1];
      var last := ops[|ops| - 1];
      var prev := SelectEmbeds(init, keep);
      assert ops == init + [last];
      SelectSnoc(init, last, keep);
      if keep(last) {
        idx := prev + [|ops| - 1];
      } else {
        idx := prev;
      }
    }
  }

  lemma EmbedsSuffix(a: seq<OperationLog>, b: seq<OperationLog>, idx: seq<int>, k: nat)
    requires Embeds(a, b, idx) && k <= |a|
    ensures Embeds(a[k..], b, idx[k..])
  {
  }

  /** `if operation_type:` and `if source:`: neither None nor the empty string filters. */
  predicate Given(s: Option<string>) { s.Some? && s.value != "" }

  /** The three filters of `get_operations` taken together. */
  predicate Matches(op: OperationLog, operationType: Option<string>, address: Option<int>, source: Option<string>)
  {
    && (Given(operationType) ==> op.operationType == operationType.value)
    && (address.Some? ==> op.address == address.value)
    && (Given(source) ==> op.source == source.value)
  }

  function MatchesAll(operationType: Option<string>, address: Option<int>, source: Option<string>): OperationLog -> bool
  {
    (op: OperationLog) => Matches(op, operationType, address, source)
  }

  /** The filters of `get_operations`, one pass each, in the order written. */
  function Filtered(ops: seq<OperationLog>, operationType: Option<string>, address: Option<int>, source: Option<string>)
    : (r: seq<OperationLog>)
    ensures |r| <= |ops|
  {
    var byType := if Given(operationType) then Select(ops, OfType(operationType.value)) else ops;
    var byAddress := if address.Some? then Select(byType, AtAddress(address.value)) else byType;
    if Given(source) then Select(byAddress, FromSource(source.value)) else byAddress
  }

  lemma FilteredSnoc(ops: seq<OperationLog>, op: OperationLog, operationType: Option<string>, address: Option<int>, source: Option<string>)
    ensures Filtered(ops + [op], operationType, address, source) ==
            Filtered(ops, operationType, address, source) + (if Matches(op, operationType, address, source) then [op] else [])
  {
    var byType := if Given(operationType) then Select(ops, OfType(operationType.value)) else ops;
    var byAddress := if address.Some? then Select(byType, AtAddress(address.value)) else byType;
    if Given(operationType) {
      SelectSnoc(ops, op, OfType(operationType.value));
    }
    var t := if Given(operationType) && op.operationType != operationType.value then [] else [op];
    if address.Some? {
      SelectSnoc(byType, op, AtAddress(address.value));
      if t == [] {
        assert byType + t == byType;
      }
    }
    var u := if address.Some? && op.address != address.value then [] else t;
    if Given(source) {
      SelectSnoc(byAddress, op, FromSource(source.value));
      if u == [] {
        assert byAddress + u == byAddress;
      }
    }
  }

  /** The three passes select exactly the records that pass all three filters. */
  lemma {:induction false} FilteredFused(ops: seq<OperationLog>, operationType: Option<string>, address: Option<int>, source: Option<string>)
    ensures Filtered(ops, operationType, address, source) == Select(ops, MatchesAll(operationType, address, source))
  {
    if ops != [] {
      var init := ops[..|ops| - 1];
      var last := ops[|ops| - 1];
      assert ops == init + [last];
      FilteredFused(init, operationType, address, source);
      FilteredSnoc(init, last, operationType, address, source);
      SelectSnoc(init, last, MatchesAll(operationType, address, source));
    }
  }

  /** Python's `ops[start:]`: a negative start counts from the end; both are clamped to the list. */
  function SliceFrom(ops: seq<OperationLog>, start: int): seq<OperationLog>
  {
    var s := if start < 0 then start + |ops| else start;
    if s < 0 then ops else if s > |ops| then [] else ops[s..]
  }

  function Min(a: int, b: int): int { if a <= b then a else b }

  /** `if last_n: ops = ops[-last_n:]`. */
  function LastN(ops: seq<OperationLog>, lastN: Option<int>): (r: seq<OperationLog>)
    ensures lastN.None? || lastN.value == 0 ==> r == ops
    ensures lastN.Some? && lastN.value > 0 ==> r == ops[|ops| - Min(lastN.value, |ops|)..]
    ensures lastN.Some? && lastN.value < 0 ==> r == ops[Min(-lastN.value, |ops|)..]
  {
    if lastN.None? || lastN.value == 0 then ops else SliceFrom(ops, -lastN.value)
  }

  /** The last-n cut is a suffix. */
  lemma LastNSuffix(ops: seq<OperationLog>, lastN: Option<int>) returns (k: nat)
    ensures k <= |ops| && LastN(ops, lastN) == ops[k..]
  {
    k := |ops| - |LastN(ops, lastN)|;
  }

  lemma QuerySubsequence(ops: seq<OperationLog>, lastN: Option<int>, operationType: Option<string>, address: Option<int>, source: Option<string>)
    ensures IsSubsequence(LastN(Filtered(ops, operationType, address, source), lastN), ops)
  {
    var f := Filtered(ops, operationType, address, source);
    FilteredFused(ops, operationType, address, source);
    var idx := SelectEmbeds(ops, MatchesAll(operationType, address, source));
    var k := LastNSuffix(f, lastN);
    EmbedsSuffix(f, ops, idx, k);
    assert Embeds(LastN(f, lastN), ops, idx[k..]);
  }

  // ---------------------------------------------------------------------
  // Statistics.

  datatype SourceCounts = SourceCounts(readCount: nat, writeCount: nat)

  /** The dictionary `get_statistics` returns; `by_source` keeps its insertion order. */
  datatype Statistics = Statistics(totalOperations: nat, readCount: nat, writeCount: nat,
                                   bySource: seq<(string, SourceCounts)>,
                                   addressesWritten: seq<int>, addressesRead: seq<int>)

  /** The position of `source` in the per-source table. */
  function FindSource(bySource: seq<(string, SourceCounts)>, source: string): (r: Option<nat>)
    ensures r.Some? ==> r.value < |bySource| && bySource[r.value].0 == source
    ensures r.None? ==> forall j :: 0 <= j < |bySource| ==> bySource[j].0 != source
  {
    if bySource == [] then None
    else if bySource[0].0 == source then Some(0)
    else match FindSource(bySource[1..], source)
      case None => None
      case Some(j) => Some(j + 1)
  }

  /** A read counts as a read, any other record as a write. */
  function Bump(c: SourceCounts, op: OperationLog): SourceCounts
  {
    if IsRead(op) then c.(readCount := c.readCount + 1) else c.(writeCount := c.writeCount + 1)
  }

  /** One turn of the counting loop: a new source starts at zero, then the record is counted. */
  function CountOne(bySource: seq<(string, SourceCounts)>, op: OperationLog): seq<(string, SourceCounts)>
  {
    match FindSource(bySource, op.source)
    case None => bySource + [(op.source, Bump(SourceCounts(0, 0), op))]
    case Some(j) => bySource[j := (op.source, Bump(bySource[j].1, op))]
  }

  function BySource(ops: seq<OperationLog>): seq<(string, SourceCounts)>
  {
    if ops == [] then [] else CountOne(BySource(ops[..|ops| - 1]), ops[|ops| - 1])
  }

  /** The addresses of the reads (`ofReads`) or of the other records (`!ofReads`). */
  function Addresses(ops: seq<OperationLog>, ofReads: bool): set<int>
  {
    if ops == [] then {}
    else
      var op := ops[|ops| - 1];
      Addresses(ops[..|ops| - 1], ofReads) + (if IsRead(op) == ofReads then {op.address} else {})
  }

  /** What `get_statistics` reports for the log `ops`. */
  function StatisticsOf(ops: seq<OperationLog>): Statistics
  {
    Statistics(|ops|, |Select(ops, IsRead)|, |Select(ops, IsWrite)|,
               BySource(ops), Database.SortedKeys(Addresses(ops, false)), Database.SortedKeys(Addresses(ops, true)))
  }

  function SumOf(bySource: seq<(string, SourceCounts)>, ofReads: bool): nat
  {
    if bySource == [] then 0
    else
      var c := bySource[|bySource| - 1].1;
      SumOf(bySource[..|bySource| - 1], ofReads) + (if ofReads then c.readCount else c.writeCount)
  }

  lemma {:induction false} SumOfUpdate(bySource: seq<(string, SourceCounts)>, j: nat, x: (string, SourceCounts), ofReads: bool)
    requires j < |bySource|
    ensures SumOf(bySource[j := x], ofReads) + (if ofReads then bySource[j].1.readCount else bySource[j].1.writeCount)
         == SumOf(bySource, ofReads) + (if ofReads then x.1.readCount else x.1.writeCount)
  {
    var init := bySource[..|bySource| - 1];
    if j < |bySource| - 1 {
      assert bySource[j := x][..|bySource| - 1] == init[j := x];
      SumOfUpdate(init, j, x, ofReads);
    } else {
      assert bySource[j := x][..|bySource| - 1] == init;
    }
  }

  lemma SumOfAppend(bySource: seq<(string, SourceCounts)>, x: (string, SourceCounts), ofReads: bool)
    ensures SumOf(bySource + [x], ofReads) == SumOf(bySource, ofReads) + (if ofReads then x.1.readCount else x.1.writeCount)
  {
    assert (bySource + [x])[..|bySource|] == bySource;
  }

  lemma CountOneSums(bySource: seq<(string, SourceCounts)>, op: OperationLog)
    ensures SumOf(CountOne(bySource, op), true) == SumOf(bySource, true) + (if IsRead(op) then 1 else 0)
    ensures SumOf(CountOne(bySource, op), false) == SumOf(bySource, false) + (if IsRead(op) then 0 else 1)
  {
    match FindSource(bySource, op.source)
    case None =>
      SumOfAppend(bySource, (op.source, Bump(SourceCounts(0, 0), op)), true);
      SumOfAppend(bySource, (op.source, Bump(SourceCounts(0, 0), op)), false);
    case Some(j) =>
      SumOfUpdate(bySource, j, (op.source, Bump(bySource[j].1, op)), true);
      SumOfUpdate(bySource, j, (op.source, Bump(bySource[j].1, op)), false);
  }

  /**
   * The per-source reads add up to the number of reads, and the per-source
   * writes to every other record: together they count the whole log.
   */
  lemma {:induction false} BySourceSums(ops: seq<OperationLog>)
    ensures SumOf(BySource(ops), true) == |Select(ops, IsRead)|
    ensures SumOf(BySource(ops), false) == |ops| - |Select(ops, IsRead)|
  {
    if ops != [] {
      var init := ops[..|ops| - 1];
      var last := ops[|ops| - 1];
      assert ops == init + [last];
      BySourceSums(init);
      CountOneSums(BySource(init), last);
      SelectSnoc(init, last, IsRead);
    }
  }

  /** The sources of the per-source table, in its order. */
  function Sources(bySource: seq<(string, SourceCounts)>): (r: seq<string>)
    ensures |r| == |bySource| && forall j :: 0 <= j < |r| ==> r[j] == bySource[j].0
  {
    seq(|bySource|, j requires 0 <= j < |bySource| => bySource[j].0)
  }

  /** One turn keeps the sources, adding the record's at the end when it is new. */
  lemma CountOneSources(bySource: seq<(string, SourceCounts)>, op: OperationLog)
    ensures FindSource(bySource, op.source).None? ==> op.source !in Sources(bySource)
    ensures Sources(CountOne(bySource, op)) ==
      if FindSource(bySource, op.source).None? then Sources(bySource) + [op.source] else Sources(bySource)
  {
  }

  /** Every source appears once in the table, and exactly the sources of the log appear. */
  lemma {:induction false} BySourceKeys(ops: seq<OperationLog>)
    ensures forall i, j :: 0 <= i < j < |BySource(ops)| ==> BySource(ops)[i].0 != BySource(ops)[j].0
    ensures forall s :: s in Sources(BySource(ops)) <==> exists i :: 0 <= i < |ops| && ops[i].source == s
  {
    if ops != [] {
      var init := ops[..|ops| - 1];
      var last := ops[|ops| - 1];
      BySourceKeys(init);
      var bs := BySource(init);
      CountOneSources(bs, last);
      assert forall i :: 0 <= i < |init| ==> init[i] == ops[i];
      forall s ensures s in Sources(BySource(ops)) <==> exists i :: 0 <= i < |ops| && ops[i].source == s {
        if s == last.source {
          assert ops[|ops| - 1].source == s;
        }
      }
    }
  }

  /** The address lists are the read and the written addresses exactly. */
  lemma {:induction false} AddressesExact(ops: seq<OperationLog>, ofReads: bool, a: int)
    ensures a in Addresses(ops, ofReads) <==> exists i :: 0 <= i < |ops| && IsRead(ops[i]) == ofReads && ops[i].address == a
  {
    if ops != [] {
      var init := ops[..|ops| - 1];
      AddressesExact(init, ofReads, a);
      assert forall i :: 0 <= i < |init| ==> init[i] == ops[i];
      if IsRead(ops[|ops| - 1]) == ofReads && ops[|ops| - 1].address == a {
        assert a in Addresses(ops, ofReads);
      }
    }
  }

  /**
   * `addresses_read` and `addresses_written` are strictly increasing, so
   * sorted and duplicate-free, and hold exactly the addresses of the reads
   * and of the other records.
   */
  lemma StatisticsAddresses(ops: seq<OperationLog>, a: int)
    ensures var st := StatisticsOf(ops);
      && (forall i, j :: 0 <= i < j < |st.addressesRead| ==> st.addressesRead[i] < st.addressesRead[j])
      && (forall i, j :: 0 <= i < j < |st.addressesWritten| ==> st.addressesWritten[i] < st.addressesWritten[j])
      && (a in st.addressesRead <==> exists i :: 0 <= i < |ops| && IsRead(ops[i]) && ops[i].address == a)
      && (a in st.addressesWritten <==> exists i :: 0 <= i < |ops| && !IsRead(ops[i]) && ops[i].address == a)
  {
    AddressesExact(ops, true, a);
    AddressesExact(ops, false, a);
  }

  /**
   * The totals: `total_operations` is the log's length, the per-source
   * counts add up to it, and when every record is a read or a write, so do
   * `reads` and `writes`.
   */
  lemma StatisticsTotals(ops: seq<OperationLog>)
    ensures var st := StatisticsOf(ops);
      && st.totalOperations == |ops|
      && SumOf(st.bySource, true) == st.readCount
      && SumOf(st.bySource, true) + SumOf(st.bySource, false) == st.totalOperations
      && ((forall i :: 0 <= i < |ops| ==> ops[i].operationType == "read" || ops[i].operationType == "write") ==>
          st.readCount + st.writeCount == st.totalOperations)
  {
    BySourceSums(ops);
    if forall i :: 0 <= i < |ops| ==> ops[i].operationType == "read" || ops[i].operationType == "write" {
      ReadsAndWrites(ops);
    }
  }

  lemma {:induction false} ReadsAndWrites(ops: seq<OperationLog>)
    requires forall i :: 0 <= i < |ops| ==> ops[i].operationType == "read" || ops[i].operationType == "write"
    ensures |Select(ops, IsRead)| + |Select(ops, IsWrite)| == |ops|
  {
    if ops != [] {
      var init := ops[..|ops| - 1];
      var last := ops[|ops| - 1];
      assert ops == init + [last];
      ReadsAndWrites(init);
      SelectSnoc(init, last, IsRead);
      SelectSnoc(init, last, IsWrite);
    }
  }

  /** A record of any other type is a write in `by_source` but not in `writes`. */
  lemma OtherTypeCountsAsWrite(op: OperationLog)
    requires op.operationType != "read" && op.operationType != "write"
    ensures StatisticsOf([op]).writeCount == 0
    ensures StatisticsOf([op]).bySource == [(op.source, SourceCounts(0, 1))]
  {
    assert [op][..0] == [];
    assert BySource([op]) == CountOne([], op);
  }

  // ---------------------------------------------------------------------
  // The monitor.

  /** `ModbusMonitor`: the log and its on/off switch. */
  class ModbusMonitor {
    var operations: seq<OperationLog>
    var enabled: bool

    constructor ()
      ensures operations == [] && enabled
    {
      operations := [];
      enabled := true;
    }

    /** `log_operation`: one record more when enabled, nothing otherwise. */
    method LogOperation(op: OperationLog)
      modifies this
      ensures enabled == old(enabled)
      ensures operations == if old(enabled) then old(operations) + [op] else old(operations)
    {
      if !enabled {
        return;
      }
      operations := operations + [op];
    }

    /** `log_read`: a "read" record carrying the count and no values. */
    method LogRead(slaveId: int, address: int, count: int, source: string)
      modifies this
      ensures enabled == old(enabled)
      ensures operations == old(operations) +
        (if old(enabled) then [OperationLog("read", slaveId, address, [], Some(count), source)] else [])
    {
      var op := OperationLog("read", slaveId, address, [], Some(count), source);
      LogOperation(op);
    }

    /** `log_write`: a "write" record carrying the values and no count. */
    method LogWrite(slaveId: int, address: int, values: seq<int>, source: string)
      modifies this
      ensures enabled == old(enabled)
      ensures operations == old(operations) +
        (if old(enabled) then [OperationLog("write", slaveId, address, values, None, source)] else [])
    {
      var op := OperationLog("write", slaveId, address, values, None, source);
      LogOperation(op);
    }

    /**
     * `get_operations`: the records passing every given filter, in log
     * order, cut to the last `last_n` when that is given and not 0.
     */
    function GetOperations(lastN: Option<int>, operationType: Option<string>, address: Option<int>, source: Option<string>)
      : (r: seq<OperationLog>)
      reads this
      ensures IsSubsequence(r, operations)
      ensures forall i :: 0 <= i < |r| ==> Matches(r[i], operationType, address, source)
      ensures (lastN.None? || lastN.value == 0) ==>
        forall i :: 0 <= i < |operations| && Matches(operations[i], operationType, address, source) ==> operations[i] in r
      ensures lastN.Some? && lastN.value > 0 ==> |r| <= lastN.value
      ensures lastN.None? && !Given(operationType) && address.None? && !Given(source) ==> r == operations
      ensures var all := Select(operations, MatchesAll(operationType, address, source));
        && ((lastN.None? || lastN.value == 0) ==> r == all)
        && (lastN.Some? && lastN.value > 0 ==> r == all[|all| - Min(lastN.value, |all|)..])
        && (lastN.Some? && lastN.value < 0 ==> r == all[Min(-lastN.value, |all|)..])
    {
      QuerySubsequence(operations, lastN, operationType, address, source);
      FilteredFused(operations, operationType, address, source);
      var matching := Filtered(operations, operationType, address, source);
      assert matching == Select(operations, MatchesAll(operationType, address, source));
      LastN(matching, lastN)
    }

    /** `get_statistics`: the counting loop over a copy of the log. */
    method GetStatistics() returns (st: Statistics)
      ensures st == StatisticsOf(operations)
    {
      var ops := operations;
      var bySource: seq<(string, SourceCounts)> := [];
      var written: set<int> := {};
      var read: set<int> := {};
      var i := 0;
      while i < |ops|
        invariant 0 <= i <= |ops|
        invariant bySource == BySource(ops[..i])
        invariant read == Addresses(ops[..i], true) && written == Addresses(ops[..i], false)
      {
        var op := ops[i];
        assert ops[..i + 1][..i] == ops[..i];
        bySource := Tally(bySource, op);
        if op.operationType == "read" {
          read := read + {op.address};
        } else {
          written := written + {op.address};
        }
        i := i + 1;
      }
      assert ops[..|ops|] == ops;
      st := Statistics(|ops|, |Select(ops, IsRead)|, |Select(ops, IsWrite)|,
                       bySource, Database.SortedKeys(written), Database.SortedKeys(read));
    }

    /** `clear`: the log is emptied; the switch stays as it was. */
    method Clear()
      modifies this
      ensures operations == [] && enabled == old(enabled)
    {
      operations := [];
    }
  }

  /** The body of the counting loop for the per-source counts. */
  method Tally(bySource: seq<(string, SourceCounts)>, op: OperationLog) returns (r: seq<(string, SourceCounts)>)
    ensures r == CountOne(bySource, op)
  {
    r := bySource;
    var j := FindSource(r, op.source);
    if j.None? {
      r := r + [(op.source, SourceCounts(0, 0))];
      j := Some(|r| - 1);
    }
    var c := r[j.value].1;
    if op.operationType == "read" {
      r := r[j.value := (op.source, c.(readCount := c.readCount + 1))];
    } else {
      r := r[j.value := (op.source, c.(writeCount := c.writeCount + 1))];
    }
  }
}
