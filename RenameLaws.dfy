/**
 * What the dict transformers promise, for any key function: which keys the
 * result has, which value wins when two keys rename alike, and that an
 * invertible renaming can be undone.
 */
module RenameLaws {
  import opened Wrappers
  import opened PyData
  import opened DataTransformer

  /** Each entry renamed in place: key renamed, value transformed. */
  function RenamedPairs(rename: string -> string, e: seq<(string, Value)>, n: nat): (r: seq<(string, Value)>)
    requires n <= |e|
    ensures |r| == n
  {
    seq(n, j requires 0 <= j < n => (rename(e[j].0), RenameValue(rename, e[j].1)))
  }

  lemma RenamedPairsSnoc(rename: string -> string, e: seq<(string, Value)>, n: nat)
    requires 0 < n <= |e|
    ensures RenamedPairs(rename, e, n) == RenamedPairs(rename, e, n - 1) + [(rename(e[n - 1].0), RenameValue(rename, e[n - 1].1))]
  {
  }

  /** The loop builds the dict of the renamed pairs. */
  lemma {:induction false} RenameEntriesPairs(rename: string -> string, e: seq<(string, Value)>, n: nat)
    requires n <= |e|
    ensures RenameEntries(rename, e, n) == FromPairs(RenamedPairs(rename, e, n))
  {
    if n > 0 {
      RenameEntriesPairs(rename, e, n - 1);
      RenamedPairsSnoc(rename, e, n);
      FromPairsSnoc(RenamedPairs(rename, e, n - 1), (rename(e[n - 1].0), RenameValue(rename, e[n - 1].1)));
    }
  }

  /** A key is in the result exactly when some input key renames to it. */
  lemma RenameEntriesKeys(rename: string -> string, e: seq<(string, Value)>, n: nat, k: string)
    requires n <= |e|
    ensures Get(RenameEntries(rename, e, n), k).None? <==> forall j :: 0 <= j < n ==> rename(e[j].0) != k
  {
    var pairs := RenamedPairs(rename, e, n);
    RenameEntriesPairs(rename, e, n);
    FromPairsKeys(pairs, k);
    assert forall j :: 0 <= j < n ==> pairs[j].0 == rename(e[j].0);
  }

  /** When several keys rename alike, the value of the last one wins, as `result[key] = value` does. */
  lemma RenameEntriesLastWins(rename: string -> string, e: seq<(string, Value)>, n: nat, j: nat)
    requires j < n <= |e|
    requires forall i :: j < i < n ==> rename(e[i].0) != rename(e[j].0)
    ensures Get(RenameEntries(rename, e, n), rename(e[j].0)) == Some(RenameValue(rename, e[j].1))
  {
    var pairs := RenamedPairs(rename, e, n);
    RenameEntriesPairs(rename, e, n);
    assert forall i :: 0 <= i < n ==> pairs[i].0 == rename(e[i].0);
    FromPairsLastWins(pairs, j);
  }

  /** No two of the first `n` keys rename alike. */
  predicate DistinctRenamed(rename: string -> string, e: seq<(string, Value)>, n: nat)
    requires n <= |e|
  {
    forall i, j :: 0 <= i < j < n ==> rename(e[i].0) != rename(e[j].0)
  }

  /** With no two keys renamed alike, the result keeps every entry, in order, renamed. */
  lemma RenameEntriesDistinct(rename: string -> string, e: seq<(string, Value)>, n: nat)
    requires n <= |e| && DistinctRenamed(rename, e, n)
    ensures RenameEntries(rename, e, n) == RenamedPairs(rename, e, n)
  {
    var pairs := RenamedPairs(rename, e, n);
    RenameEntriesPairs(rename, e, n);
    assert DistinctKeys(pairs) by {
      assert forall i :: 0 <= i < n ==> pairs[i].0 == rename(e[i].0);
    }
    FromPairsDistinct(pairs);
  }

  /** Every dict in the tree has distinct keys, as a Python dict does. */
  predicate DistinctTree(v: Value)
    decreases v
  {
    match v
    case VDict(e) => DistinctKeys(e) && forall i :: 0 <= i < |e| ==> DistinctTree(e[i].1)
    case VList(items) => forall i :: 0 <= i < |items| ==> DistinctTree(items[i])
    case _ => true
  }

  /** The second key function undoes the first on every key. */
  ghost predicate Inverts(first: string -> string, second: string -> string)
  {
    forall k :: second(first(k)) == k
  }

  /** The second key function undoes the first on every key of the tree, at every depth. */
  ghost predicate UndoesOn(first: string -> string, second: string -> string, v: Value)
    decreases v
  {
    match v
    case VDict(e) => forall i :: 0 <= i < |e| ==> second(first(e[i].0)) == e[i].0 && UndoesOn(first, second, e[i].1)
    case VList(items) => forall i :: 0 <= i < |items| ==> UndoesOn(first, second, items[i])
    case _ => true
  }

  lemma {:induction false} InvertsUndoes(first: string -> string, second: string -> string, v: Value)
    requires Inverts(first, second)
    ensures UndoesOn(first, second, v)
    decreases v
  {
    match v
    case VDict(e) =>
      forall i | 0 <= i < |e|
        ensures UndoesOn(first, second, e[i].1)
      {
        assert e[i] in e;
        InvertsUndoes(first, second, e[i].1);
      }
    case VList(items) =>
      forall i | 0 <= i < |items|
        ensures UndoesOn(first, second, items[i])
      {
        InvertsUndoes(first, second, items[i]);
      }
    case _ =>
  }

  /** A renaming undone on the keys keeps distinct keys distinct, and so does its inverse on the result. */
  lemma InvertsDistinct(first: string -> string, second: string -> string, e: seq<(string, Value)>)
    requires forall i :: 0 <= i < |e| ==> second(first(e[i].0)) == e[i].0
    requires DistinctKeys(e)
    ensures DistinctRenamed(first, e, |e|)
    ensures DistinctRenamed(second, RenamedPairs(first, e, |e|), |e|)
  {
    var e1 := RenamedPairs(first, e, |e|);
    forall i, j | 0 <= i < j < |e|
      ensures first(e[i].0) != first(e[j].0) && second(e1[i].0) != second(e1[j].0)
    {
      assert second(first(e[i].0)) == e[i].0;
      assert second(first(e[j].0)) == e[j].0;
    }
  }

  lemma PairsTwice(first: string -> string, second: string -> string, e: seq<(string, Value)>)
    requires forall i :: 0 <= i < |e| ==> second(first(e[i].0)) == e[i].0
    requires forall i :: 0 <= i < |e| ==> RenameValue(second, RenameValue(first, e[i].1)) == e[i].1
    ensures RenamedPairs(second, RenamedPairs(first, e, |e|), |e|) == e
  {
    var e1 := RenamedPairs(first, e, |e|);
    var e2 := RenamedPairs(second, e1, |e|);
    forall i | 0 <= i < |e|
      ensures e2[i] == e[i]
    {
      assert e1[i] == (first(e[i].0), RenameValue(first, e[i].1));
      assert second(first(e[i].0)) == e[i].0;
    }
  }

  /** Renaming with a key function and then with one that undoes it gives back the tree. */
  lemma {:induction false} RenameKeysTwice(first: string -> string, second: string -> string, v: Value)
    requires UndoesOn(first, second, v) && DistinctTree(v)
    ensures RenameKeys(second, RenameKeys(first, v)) == v
    decreases v, 2
  {
    if v.VDict? {
      var e := v.entries;
      assert forall i :: 0 <= i < |e| ==> second(first(e[i].0)) == e[i].0;
      InvertsDistinct(first, second, e);
      RenameEntriesDistinct(first, e, |e|);
      var e1 := RenamedPairs(first, e, |e|);
      RenameEntriesDistinct(second, e1, |e1|);
      forall i | 0 <= i < |e|
        ensures RenameValue(second, RenameValue(first, e[i].1)) == e[i].1
      {
        assert e[i] in e;
        RenameValueTwice(first, second, e[i].1);
      }
      PairsTwice(first, second, e);
    }
  }

  lemma {:induction false} RenameValueTwice(first: string -> string, second: string -> string, v: Value)
    requires UndoesOn(first, second, v) && DistinctTree(v)
    ensures RenameValue(second, RenameValue(first, v)) == v
    decreases v, 3
  {
    match v
    case VDict(_) =>
      RenameKeysTwice(first, second, v);
    case VList(items) =>
      var once := RenameValue(first, v).items;
      forall i | 0 <= i < |items|
        ensures RenameItem(second, once[i]) == items[i]
      {
        assert once[i] == RenameItem(first, items[i]);
        if items[i].VDict? {
          assert items[i] in items;
          assert DistinctTree(items[i]) && UndoesOn(first, second, items[i]);
          RenameKeysTwice(first, second, items[i]);
        }
      }
      assert RenameValue(second, VList(once)).items == items;
    case _ =>
  }

  lemma FieldMappingsInvert(reverse: bool)
    ensures Inverts(KeyFunction(FieldMapping(reverse)), KeyFunction(FieldMapping(!reverse)))
  {
    forall k
      ensures MapField(!reverse, MapField(reverse, k)) == k
    {
      MapFieldProperties(reverse, k);
    }
  }

  /**
   * `apply_field_mappings(apply_field_mappings(d), reverse=True)` is `d`,
   * and so is the other order: the table is its own inverse.
   */
  lemma FieldMappingsRoundTrip(d: Value, reverse: bool)
    requires DistinctTree(d)
    ensures RenameKeys(KeyFunction(FieldMapping(!reverse)), RenameKeys(KeyFunction(FieldMapping(reverse)), d)) == d
  {
    FieldMappingsInvert(reverse);
    InvertsUndoes(KeyFunction(FieldMapping(reverse)), KeyFunction(FieldMapping(!reverse)), d);
    RenameKeysTwice(KeyFunction(FieldMapping(reverse)), KeyFunction(FieldMapping(!reverse)), d);
  }

  /** The dict transformers stop one list deep: a dict inside a nested list keeps its keys. */
  lemma NestedListKept(rename: string -> string, inner: seq<Value>)
    ensures RenameValue(rename, VList([VList(inner)])) == VList([VList(inner)])
  {
  }

  /** `transform_api_response` goes on through nested lists down to the dicts. */
  lemma ApiResponseNestedList(d: Value, toCamel: bool)
    requires d.VDict?
    ensures TransformApiResponse(VList([VList([d])]), toCamel) ==
      VList([VList([RenameKeys(KeyFunction(if toCamel then CamelCase else SnakeCase), d)])])
  {
    var style := if toCamel then CamelCase else SnakeCase;
    var inner := TransformApiResponse(VList([d]), toCamel);
    assert inner.items[0] == TransformApiResponse(d, toCamel);
    assert inner == VList([RenameKeys(KeyFunction(style), d)]);
    assert TransformApiResponse(VList([VList([d])]), toCamel).items[0] == inner;
  }

  // ---------------------------------------------------------------------
  // Case conversion of whole trees.

  /** Every key, at every depth, is lower-case words joined by "_". */
  ghost predicate SnakeWordKeys(v: Value)
    decreases v
  {
    match v
    case VDict(e) => forall i :: 0 <= i < |e| ==>
      (exists ws :: CamelWords(ws) && JoinUnderscores(ws) == e[i].0) && SnakeWordKeys(e[i].1)
    case VList(items) => forall i :: 0 <= i < |items| ==> SnakeWordKeys(items[i])
    case _ => true
  }

  /** Every key, at every depth, is the camelCase form of such words. */
  ghost predicate CamelWordKeys(v: Value)
    decreases v
  {
    match v
    case VDict(e) => forall i :: 0 <= i < |e| ==>
      (exists ws :: CamelWords(ws) && ws[0] + CapitalizeAll(ws[1..]) == e[i].0) && CamelWordKeys(e[i].1)
    case VList(items) => forall i :: 0 <= i < |items| ==> CamelWordKeys(items[i])
    case _ => true
  }

  lemma {:induction false} SnakeWordKeysUndone(v: Value)
    requires SnakeWordKeys(v)
    ensures UndoesOn(KeyFunction(CamelCase), KeyFunction(SnakeCase), v)
    decreases v
  {
    match v
    case VDict(e) =>
      forall i | 0 <= i < |e|
        ensures ToSnakeCase(ToCamelCase(e[i].0)) == e[i].0 && UndoesOn(KeyFunction(CamelCase), KeyFunction(SnakeCase), e[i].1)
      {
        var ws :| CamelWords(ws) && JoinUnderscores(ws) == e[i].0;
        CaseRoundTrip(ws);
        assert e[i] in e;
        SnakeWordKeysUndone(e[i].1);
      }
    case VList(items) =>
      forall i | 0 <= i < |items|
        ensures UndoesOn(KeyFunction(CamelCase), KeyFunction(SnakeCase), items[i])
      {
        SnakeWordKeysUndone(items[i]);
      }
    case _ =>
  }

  lemma {:induction false} CamelWordKeysUndone(v: Value)
    requires CamelWordKeys(v)
    ensures UndoesOn(KeyFunction(SnakeCase), KeyFunction(CamelCase), v)
    decreases v
  {
    match v
    case VDict(e) =>
      forall i | 0 <= i < |e|
        ensures ToCamelCase(ToSnakeCase(e[i].0)) == e[i].0 && UndoesOn(KeyFunction(SnakeCase), KeyFunction(CamelCase), e[i].1)
      {
        var ws :| CamelWords(ws) && ws[0] + CapitalizeAll(ws[1..]) == e[i].0;
        CaseRoundTrip(ws);
        assert e[i] in e;
        CamelWordKeysUndone(e[i].1);
      }
    case VList(items) =>
      forall i | 0 <= i < |items|
        ensures UndoesOn(KeyFunction(SnakeCase), KeyFunction(CamelCase), items[i])
      {
        CamelWordKeysUndone(items[i]);
      }
    case _ =>
  }

  /**
   * `transform_dict_to_snake_case` undoes `transform_dict_to_camel_case` on
   * a dict whose keys are snake_case words, and the other way round on one
   * whose keys are camelCase words.
   */
  lemma CaseTransformRoundTrip(v: Value)
    requires DistinctTree(v)
    ensures SnakeWordKeys(v) ==> RenameKeys(KeyFunction(SnakeCase), RenameKeys(KeyFunction(CamelCase), v)) == v
    ensures CamelWordKeys(v) ==> RenameKeys(KeyFunction(CamelCase), RenameKeys(KeyFunction(SnakeCase), v)) == v
  {
    if SnakeWordKeys(v) {
      SnakeWordKeysUndone(v);
      RenameKeysTwice(KeyFunction(CamelCase), KeyFunction(SnakeCase), v);
    }
    if CamelWordKeys(v) {
      CamelWordKeysUndone(v);
      RenameKeysTwice(KeyFunction(SnakeCase), KeyFunction(CamelCase), v);
    }
  }

  // ---------------------------------------------------------------------
  // The documented examples.

  const SnakeExample := VDict([("operation_mode", VInt(1)), ("outside_temperature", VFloat(22.5)),
                               ("nested_data", VDict([("relative_humidity", VInt(60))]))])
  const CamelExample := VDict([("operationMode", VInt(1)), ("outsideTemperature", VFloat(22.5)),
                               ("nestedData", VDict([("relativeHumidity", VInt(60))]))])

  /** A one-entry dict renamed. */
  lemma RenameOne(f: string -> string, k: string, v: Value)
    ensures RenameKeys(f, VDict([(k, v)])) == VDict([(f(k), RenameValue(f, v))])
  {
    var e := [(k, v)];
    RenameEntriesDistinct(f, e, 1);
    assert RenamedPairs(f, e, 1)[0] == (f(k), RenameValue(f, v));
  }

  /** A three-entry dict whose keys rename to distinct keys. */
  lemma RenameThree(f: string -> string, k0: string, k1: string, k2: string, v0: Value, v1: Value, v2: Value)
    requires f(k0) != f(k1) && f(k0) != f(k2) && f(k1) != f(k2)
    ensures RenameKeys(f, VDict([(k0, v0), (k1, v1), (k2, v2)])) ==
      VDict([(f(k0), RenameValue(f, v0)), (f(k1), RenameValue(f, v1)), (f(k2), RenameValue(f, v2))])
  {
    var e := [(k0, v0), (k1, v1), (k2, v2)];
    assert DistinctRenamed(f, e, 3);
    RenameEntriesDistinct(f, e, 3);
    var pairs := RenamedPairs(f, e, 3);
    assert pairs[0] == (f(k0), RenameValue(f, v0));
    assert pairs[1] == (f(k1), RenameValue(f, v1));
    assert pairs[2] == (f(k2), RenameValue(f, v2));
  }

  lemma CamelExampleKeys()
    ensures ToCamelCase("operation_mode") == "operationMode"
    ensures ToCamelCase("outside_temperature") == "outsideTemperature"
    ensures ToCamelCase("nested_data") == "nestedData"
    ensures ToCamelCase("relative_humidity") == "relativeHumidity"
  {
    OperationModeKey();
    OutsideTemperatureKey();
    NestedDataKey();
    RelativeHumidityKey();
  }

  lemma CamelExampleDistinct()
    ensures var f := KeyFunction(CamelCase);
      f("operation_mode") != f("outside_temperature") && f("operation_mode") != f("nested_data") &&
      f("outside_temperature") != f("nested_data") && f("relative_humidity") == "relativeHumidity" &&
      f("operation_mode") == "operationMode" && f("outside_temperature") == "outsideTemperature" && f("nested_data") == "nestedData"
  {
    CamelExampleKeys();
  }

  /** `transform_dict_to_camel_case` on the nested example dict. */
  lemma CamelCaseExample()
    ensures RenameKeys(KeyFunction(CamelCase), SnakeExample) == CamelExample
  {
    var f := KeyFunction(CamelCase);
    CamelExampleDistinct();
    RenameOne(f, "relative_humidity", VInt(60));
    RenameThree(f, "operation_mode", "outside_temperature", "nested_data",
      VInt(1), VFloat(22.5), VDict([("relative_humidity", VInt(60))]));
  }

  lemma SnakeExampleDistinct()
    ensures var f := KeyFunction(SnakeCase);
      f("operationMode") != f("outsideTemperature") && f("operationMode") != f("nestedData") &&
      f("outsideTemperature") != f("nestedData") && f("relativeHumidity") == "relative_humidity" &&
      f("operationMode") == "operation_mode" && f("outsideTemperature") == "outside_temperature" && f("nestedData") == "nested_data"
  {
    OperationModeKey();
    OutsideTemperatureKey();
    NestedDataKey();
    RelativeHumidityKey();
  }

  /** `transform_dict_to_snake_case` on the same dict in camelCase gives it back. */
  lemma SnakeCaseExample()
    ensures RenameKeys(KeyFunction(SnakeCase), CamelExample) == SnakeExample
  {
    var f := KeyFunction(SnakeCase);
    SnakeExampleDistinct();
    RenameOne(f, "relativeHumidity", VInt(60));
    RenameThree(f, "operationMode", "outsideTemperature", "nestedData",
      VInt(1), VFloat(22.5), VDict([("relativeHumidity", VInt(60))]));
  }

  const BackendExample := VDict([("operation_mode", VInt(1)), ("outside_temperature", VFloat(22.5)), ("zone_id", VInt(5))])
  const FrontendExample := VDict([("operationMode", VInt(1)), ("outsideTemperature", VFloat(22.5)), ("zoneId", VInt(5))])

  lemma OperationModeMapped()
    ensures "operation_mode" in FieldMappings && FieldMappings["operation_mode"] == "operationMode"
  {
  }

  lemma OutsideTemperatureMapped()
    ensures "outside_temperature" in FieldMappings && FieldMappings["outside_temperature"] == "outsideTemperature"
  {
  }

  lemma ZoneIdMapped()
    ensures "zone_id" in FieldMappings && FieldMappings["zone_id"] == "zoneId"
  {
  }

  lemma FieldExampleKeys()
    ensures var f := KeyFunction(FieldMapping(false));
      f("operation_mode") == "operationMode" && f("outside_temperature") == "outsideTemperature" && f("zone_id") == "zoneId"
  {
    OperationModeMapped();
    OutsideTemperatureMapped();
    ZoneIdMapped();
    MapFieldProperties(false, "operation_mode");
    MapFieldProperties(false, "outside_temperature");
    MapFieldProperties(false, "zone_id");
  }

  /** `apply_field_mappings` on the example dict. */
  lemma FieldMappingsExample()
    ensures RenameKeys(KeyFunction(FieldMapping(false)), BackendExample) == FrontendExample
  {
    FieldExampleKeys();
    RenameThree(KeyFunction(FieldMapping(false)), "operation_mode", "outside_temperature", "zone_id", VInt(1), VFloat(22.5), VInt(5));
  }

  lemma BackendExampleDistinct()
    ensures DistinctTree(BackendExample)
  {
  }

  /** `apply_field_mappings(..., reverse=True)` on the mapped example dict gives it back. */
  lemma FieldMappingsReverseExample()
    ensures RenameKeys(KeyFunction(FieldMapping(true)), FrontendExample) == BackendExample
  {
    FieldMappingsExample();
    BackendExampleDistinct();
    FieldMappingsRoundTrip(BackendExample, false);
  }
}
