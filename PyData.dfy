/**
 * The dynamically typed values the gateway passes around: JSON payloads,
 * Python numbers and the dictionaries built from them.  A Python float is
 * modelled as an exact `real` (binary rounding is not modelled); a dict is
 * the sequence of its entries in insertion order, as Python keeps it.
 */
module PyData {
  import opened Wrappers

  datatype Value =
    | VNone
    | VBool(b: bool)
    | VInt(i: int)
    | VFloat(r: real)
    | VStr(s: string)
    | VList(items: seq<Value>)
    | VDict(entries: seq<(string, Value)>)

  /** `isinstance(v, int)`: in Python a bool is an int. */
  predicate IsInt(v: Value) { v.VBool? || v.VInt? }

  function AsInt(v: Value): (n: int)
    requires IsInt(v)
    ensures v.VBool? ==> n == (if v.b then 1 else 0)
  {
    if v.VBool? then (if v.b then 1 else 0) else v.i
  }

  /** `isinstance(v, (int, float))`. */
  predicate IsNumber(v: Value) { IsInt(v) || v.VFloat? }

  function AsReal(v: Value): real
    requires IsNumber(v)
  {
    if v.VFloat? then v.r else AsInt(v) as real
  }

  /** `abs()` on an int. */
  function Abs(x: int): nat { if x < 0 then -x else x }

  /** ASCII letter classes and case mapping, as `str.lower()`/`str.upper()` treat ASCII. */
  predicate IsUpper(c: char) { 'A' <= c <= 'Z' }
  predicate IsLower(c: char) { 'a' <= c <= 'z' }
  predicate IsDigit(c: char) { '0' <= c <= '9' }

  function Lower(c: char): (d: char)
    ensures !IsUpper(d)
    ensures IsUpper(c) ==> IsLower(d)
    ensures !IsUpper(c) ==> d == c
  {
    if IsUpper(c) then (c as int + 32) as char else c
  }

  function Upper(c: char): (d: char)
    ensures IsLower(c) ==> IsUpper(d) && Lower(d) == c
    ensures !IsLower(c) ==> d == c
  {
    if IsLower(c) then (c as int - 32) as char else c
  }

  /** `s.lower()`. */
  function LowerAll(s: string): (r: string)
    ensures |r| == |s| && forall i :: 0 <= i < |s| ==> r[i] == Lower(s[i])
  {
    seq(|s|, i requires 0 <= i < |s| => Lower(s[i]))
  }

  /** Python truthiness of a value. */
  predicate Truthy(v: Value)
  {
    match v
    case VNone => false
    case VBool(b) => b
    case VInt(i) => i != 0
    case VFloat(r) => r != 0.0
    case VStr(s) => s != []
    case VList(items) => items != []
    case VDict(entries) => entries != []
  }

  function Keys(entries: seq<(string, Value)>): (ks: seq<string>)
    ensures |ks| == |entries|
    ensures forall i :: 0 <= i < |entries| ==> ks[i] == entries[i].0
  {
    if entries == [] then [] else [entries[0].0] + Keys(entries[1..])
  }

  predicate DistinctKeys(entries: seq<(string, Value)>)
  {
    forall i, j :: 0 <= i < j < |entries| ==> entries[i].0 != entries[j].0
  }

  /** Position of a key in a dict, if it is there. */
  function IndexOf(entries: seq<(string, Value)>, key: string): (r: Option<nat>)
    ensures r.Some? ==> r.value < |entries| && entries[r.value].0 == key
    ensures r.Some? ==> forall j :: 0 <= j < r.value ==> entries[j].0 != key
    ensures r.None? <==> forall j :: 0 <= j < |entries| ==> entries[j].0 != key
  {
    if entries == [] then None
    else if entries[0].0 == key then Some(0)
    else match IndexOf(entries[1..], key)
      case None => None
      case Some(k) => Some(k + 1)
  }

  /** `d.get(key)`: the value stored under the key, or None. */
  function Get(entries: seq<(string, Value)>, key: string): (r: Option<Value>)
    ensures r.None? <==> forall j :: 0 <= j < |entries| ==> entries[j].0 != key
    ensures r.Some? ==> exists j :: 0 <= j < |entries| && entries[j] == (key, r.value)
  {
    match IndexOf(entries, key)
    case None => None
    case Some(j) => Some(entries[j].1)
  }

  /** The first entry under a key is what `d.get` finds. */
  lemma GetAt(entries: seq<(string, Value)>, i: nat, key: string)
    requires i < |entries| && entries[i].0 == key
    requires forall j :: 0 <= j < i ==> entries[j].0 != key
    ensures Get(entries, key) == Some(entries[i].1)
  {
    assert IndexOf(entries, key) == Some(i);
  }

  /** `d.get(key)` where a missing key reads as None. */
  function GetOrNone(entries: seq<(string, Value)>, key: string): Value
  {
    match Get(entries, key)
    case None => VNone
    case Some(v) => v
  }

  /**
   * `d[key] = v`: an existing key keeps its position and takes the new value,
   * a new key is appended.
   */
  function Put(entries: seq<(string, Value)>, key: string, v: Value): (r: seq<(string, Value)>)
    ensures Get(r, key) == Some(v)
    ensures forall k :: k != key ==> Get(r, k) == Get(entries, k)
    ensures DistinctKeys(entries) ==> DistinctKeys(r)
    ensures IndexOf(entries, key).Some? ==> |r| == |entries| && Keys(r) == Keys(entries)
    ensures IndexOf(entries, key).None? ==> r == entries + [(key, v)]
  {
    match IndexOf(entries, key)
    case None =>
      PutAppends(entries, key, v);
      entries + [(key, v)]
    case Some(j) =>
      PutReplaces(entries, j, key, v);
      entries[j := (key, v)]
  }

  /** `d[key] = v` for a new key appends the entry. */
  lemma PutAppends(entries: seq<(string, Value)>, key: string, v: Value)
    requires IndexOf(entries, key).None?
    ensures Get(entries + [(key, v)], key) == Some(v)
    ensures forall k :: k != key ==> Get(entries + [(key, v)], k) == Get(entries, k)
    ensures DistinctKeys(entries) ==> DistinctKeys(entries + [(key, v)])
  {
    var r := entries + [(key, v)];
    assert IndexOf(r, key) == Some(|entries|) by {
      assert r[|entries|].0 == key;
    }
    forall k | k != key
      ensures Get(r, k) == Get(entries, k)
    {
      IndexOfAppend(entries, (key, v), k);
    }
  }

  /** `d[key] = v` for a key at position `j` replaces the value there. */
  lemma PutReplaces(entries: seq<(string, Value)>, j: nat, key: string, v: Value)
    requires IndexOf(entries, key) == Some(j)
    ensures j < |entries|
    ensures Get(entries[j := (key, v)], key) == Some(v)
    ensures forall k :: k != key ==> Get(entries[j := (key, v)], k) == Get(entries, k)
    ensures DistinctKeys(entries) ==> DistinctKeys(entries[j := (key, v)])
    ensures Keys(entries[j := (key, v)]) == Keys(entries)
  {
    var r := entries[j := (key, v)];
    assert Keys(r) == Keys(entries);
    forall k | k != key
      ensures Get(r, k) == Get(entries, k)
    {
      IndexOfAgree(r, entries, k);
    }
    IndexOfAgree(r, entries, key);
  }

  lemma {:induction false} IndexOfAgree(a: seq<(string, Value)>, b: seq<(string, Value)>, key: string)
    requires Keys(a) == Keys(b)
    ensures IndexOf(a, key) == IndexOf(b, key)
  {
    if a != [] {
      assert a[0].0 == Keys(a)[0] == Keys(b)[0] == b[0].0;
      assert Keys(a[1..]) == Keys(a)[1..] == Keys(b)[1..] == Keys(b[1..]);
      IndexOfAgree(a[1..], b[1..], key);
    }
  }

  /** Appending an entry under another key does not move any key. */
  lemma {:induction false} IndexOfAppend(a: seq<(string, Value)>, e: (string, Value), key: string)
    requires e.0 != key
    ensures IndexOf(a + [e], key) == IndexOf(a, key)
  {
    if a != [] {
      assert (a + [e])[1..] == a[1..] + [e];
      IndexOfAppend(a[1..], e, key);
    }
  }

  /** The dict built by storing the pairs one after another, as `dict(pairs)` does. */
  function FromPairs(pairs: seq<(string, Value)>): (r: seq<(string, Value)>)
    ensures DistinctKeys(r) && |r| <= |pairs|
  {
    if pairs == [] then []
    else Put(FromPairs(pairs[..|pairs| - 1]), pairs[|pairs| - 1].0, pairs[|pairs| - 1].1)
  }

  lemma FromPairsSnoc(pairs: seq<(string, Value)>, p: (string, Value))
    ensures FromPairs(pairs + [p]) == Put(FromPairs(pairs), p.0, p.1)
  {
    assert (pairs + [p])[..|pairs|] == pairs;
  }

  /** Some pair has key `k`. */
  predicate HasKey(pairs: seq<(string, Value)>, k: string)
  {
    pairs != [] && (pairs[|pairs| - 1].0 == k || HasKey(pairs[..|pairs| - 1], k))
  }

  lemma {:induction false} HasKeySome(pairs: seq<(string, Value)>, k: string)
    ensures HasKey(pairs, k) <==> exists j :: 0 <= j < |pairs| && pairs[j].0 == k
  {
    if pairs != [] {
      var init := pairs[..|pairs| - 1];
      HasKeySome(init, k);
      assert forall j :: 0 <= j < |init| ==> init[j] == pairs[j];
    }
  }

  lemma {:induction false} FromPairsHasKey(pairs: seq<(string, Value)>, k: string)
    ensures Get(FromPairs(pairs), k).None? <==> !HasKey(pairs, k)
  {
    if pairs != [] {
      var init := pairs[..|pairs| - 1];
      var last := pairs[|pairs| - 1];
      FromPairsHasKey(init, k);
      assert Get(FromPairs(pairs), k) == Get(Put(FromPairs(init), last.0, last.1), k);
    } else {
      assert FromPairs(pairs) == [];
    }
  }

  /** A key is in the built dict exactly when some pair has it. */
  lemma {:induction false} FromPairsKeys(pairs: seq<(string, Value)>, k: string)
    ensures Get(FromPairs(pairs), k).None? <==> forall j :: 0 <= j < |pairs| ==> pairs[j].0 != k
  {
    FromPairsHasKey(pairs, k);
    HasKeySome(pairs, k);
  }

  /** Of several pairs with the same key, the last one's value is kept. */
  lemma {:induction false} FromPairsLastWins(pairs: seq<(string, Value)>, j: nat)
    requires j < |pairs|
    requires forall i :: j < i < |pairs| ==> pairs[i].0 != pairs[j].0
    ensures Get(FromPairs(pairs), pairs[j].0) == Some(pairs[j].1)
  {
    var init := pairs[..|pairs| - 1];
    if j < |pairs| - 1 {
      assert pairs[j] == init[j];
      FromPairsLastWins(init, j);
    }
  }

  /** Pairs with distinct keys already are the dict they build. */
  lemma {:induction false} FromPairsDistinct(pairs: seq<(string, Value)>)
    requires DistinctKeys(pairs)
    ensures FromPairs(pairs) == pairs
  {
    if pairs != [] {
      var init := pairs[..|pairs| - 1];
      var last := pairs[|pairs| - 1];
      FromPairsDistinct(init);
      FromPairsKeys(init, last.0);
      assert init + [last] == pairs;
    }
  }
}
