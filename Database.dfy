/**
 * The persistent data block: a register block whose every write is first
 * mirrored into a key-value store (an SQLite-backed dictionary keyed by
 * register address), and which is loaded back from that store, in key
 * order, when the gateway starts.
 *
 * The store is a class attribute of the block class, so every block made by
 * `create_lpdb` writes to the one store last opened; `LpdbClass` stands for
 * that class object.
 */
module Database {
  import opened Wrappers
  import opened Registers
  import Const

  /** An SQLite-backed dictionary from register address to value. */
  class RegisterStore {
    var entries: map<int, int>

    constructor (initial: map<int, int>)
      ensures entries == initial
    {
      entries := initial;
    }

    /** `reg_dict[key] = value`. */
    method Store(key: int, value: int)
      modifies this
      ensures entries == old(entries)[key := value]
    {
      entries := entries[key := value];
    }

    /**
     * The store loop of `setValues`: `vs[k]` under `address + k`, in order,
     * until a write raises.  `fault` is the position of the write that
     * raises, if one does; the number of writes that went through is
     * returned.
     */
    method StoreValues(address: int, vs: seq<int>, fault: Option<nat>) returns (w: nat)
      modifies this
      ensures w == Written(true, fault, |vs|)
      ensures entries == StoreAll(old(entries), address, vs[..w])
    {
      w := 0;
      while w < |vs|
        invariant w <= Written(true, fault, |vs|)
        invariant entries == StoreAll(old(entries), address, vs[..w])
      {
        if fault == Some(w) {
          return;
        }
        assert vs[..w + 1][..w] == vs[..w];
        Store(address + w, vs[w]);
        w := w + 1;
      }
    }
  }

  /** The class object: its `reg_dict` attribute is shared by all instances. */
  class LpdbClass {
    var regDict: RegisterStore?

    constructor ()
      ensures regDict == null
    {
      regDict := null;
    }
  }

  /** The store after `vs` was written key by key from `address` on. */
  function StoreAll(m: map<int, int>, address: int, vs: seq<int>): (r: map<int, int>)
    ensures forall k :: 0 <= k < |vs| ==> address + k in r && r[address + k] == vs[k]
    ensures forall key :: key in r <==> key in m || address <= key < address + |vs|
    ensures forall key :: key in m && !(address <= key < address + |vs|) ==> r[key] == m[key]
  {
    if |vs| == 0 then m
    else StoreAll(m, address, vs[..|vs| - 1])[address + |vs| - 1 := vs[|vs| - 1]]
  }

  /**
   * How many values of a write of `n` values reach the store: all of them,
   * or those before the first write that raises.  `fault` is the position
   * at which the store raises, if it does; a missing store raises on the
   * first write.
   */
  function Written(hasStore: bool, fault: Option<nat>, n: nat): (w: nat)
    ensures w <= n
    ensures !hasStore ==> w == 0
    ensures hasStore && (fault.None? || fault.value >= n) ==> w == n
    ensures hasStore && fault.Some? && fault.value < n ==> w == fault.value
  {
    if !hasStore then 0
    else if fault.Some? && fault.value < n then fault.value
    else n
  }

  class LockingPersistentDataBlock {
    const cls: LpdbClass
    /** The address of the first register of the block. */
    const address: int
    const values: array<int>

    constructor (cls: LpdbClass, address: int, initial: seq<int>)
      ensures this.cls == cls && this.address == address
      ensures fresh(values) && values[..] == initial
    {
      this.cls := cls;
      this.address := address;
      values := new int[|initial|](i requires 0 <= i < |initial| => initial[i]);
    }

    /**
     * `setValues`: a scalar is wrapped; each value is stored under its
     * address, and only when every store write went through does the block
     * take the values.  A store write that raises leaves the earlier writes
     * in the store and the block as it was.
     */
    method SetValues(address: int, arg: WriteArg, fault: Option<nat>) returns (raised: bool)
      requires InRange(values[..], address - this.address, |AsList(arg)|)
      modifies cls.regDict, values
      ensures var vs := AsList(arg);
        var w := Written(cls.regDict != null, fault, |vs|);
        raised == (w < |vs|) &&
        (cls.regDict != null ==> cls.regDict.entries == StoreAll(old(cls.regDict.entries), address, vs[..w])) &&
        values[..] == if raised then old(values[..]) else Overwrite(old(values[..]), address - this.address, vs)
      ensures cls.regDict != null && !raised && old(InStep(values[..], this.address, cls.regDict.entries)) ==>
        InStep(values[..], this.address, cls.regDict.entries)
    {
      var vs := AsList(arg);
      ghost var before := values[..];
      if cls.regDict == null {
        return |vs| > 0;
      }
      var store := cls.regDict;
      ghost var stored := store.entries;
      var w := store.StoreValues(address, vs, fault);
      assert values[..] == before;
      if w < |vs| {
        return true;
      }
      assert vs[..w] == vs;
      Adopt(address, vs, stored);
      return false;
    }

    /** The block takes values the store took too; a block in step with the store stays so. */
    method Adopt(address: int, vs: seq<int>, ghost stored: map<int, int>)
      requires InRange(values[..], address - this.address, |vs|)
      modifies values
      ensures values[..] == Overwrite(old(values[..]), address - this.address, vs)
      ensures InStep(old(values[..]), this.address, stored) ==> InStep(values[..], this.address, StoreAll(stored, address, vs))
    {
      if InStep(values[..], this.address, stored) {
        WriteKeepsInStep(values[..], this.address, stored, address, vs);
      }
      WriteBlock(address - this.address, vs);
    }

    /** The inherited `setValues` of the sequential block: values from `offset` on. */
    method WriteBlock(offset: int, vs: seq<int>)
      requires InRange(values[..], offset, |vs|)
      modifies values
      ensures values[..] == Overwrite(old(values[..]), offset, vs)
    {
      for i := 0 to |vs|
        invariant values[..] == old(values[..])[..offset] + vs[..i] + old(values[..])[offset + i..]
      {
        values[offset + i] := vs[i];
        assert vs[..i + 1] == vs[..i] + [vs[i]];
      }
      assert vs[..|vs|] == vs;
    }

    /** `getValues`: `count` consecutive values from `address` on. */
    method GetValues(address: int, count: int) returns (r: seq<int>)
      requires InRange(values[..], address - this.address, count)
      ensures |r| == count
      ensures forall k :: 0 <= k < count ==> r[k] == values[address - this.address + k]
    {
      r := values[address - this.address..address - this.address + count];
    }
  }

  /** A block starting at `base` is in step with a store: each register's value is stored under its address. */
  predicate InStep(block: seq<int>, base: int, store: map<int, int>)
  {
    forall key :: base <= key < base + |block| ==> key in store && store[key] == block[key - base]
  }

  /** A write that reaches both the store and the block keeps them in step. */
  lemma WriteKeepsInStep(block: seq<int>, base: int, store: map<int, int>, address: int, vs: seq<int>)
    requires InRange(block, address - base, |vs|)
    requires InStep(block, base, store)
    ensures InStep(Overwrite(block, address - base, vs), base, StoreAll(store, address, vs))
  {
    var block' := Overwrite(block, address - base, vs);
    var store' := StoreAll(store, address, vs);
    forall key | base <= key < base + |block'|
      ensures key in store' && store'[key] == block'[key - base]
    {
      OverwriteAt(block, address - base, vs, key - base);
      if address <= key < address + |vs| {
        var k := key - address;
        assert address + k == key;
        assert store'[address + k] == vs[k];
      } else {
        assert key in store;
      }
    }
  }

  // ---------------------------------------------------------------------
  // Loading the store in key order.

  /** The least key of a non-empty set. */
  function MinKey(s: set<int>): (k: int)
    requires s != {}
    ensures k in s && forall j :: j in s ==> k <= j
  {
    MinExists(s);
    var k :| k in s && forall j :: j in s ==> k <= j;
    k
  }

  lemma {:induction false} MinExists(s: set<int>)
    requires s != {}
    ensures exists k :: k in s && forall j :: j in s ==> k <= j
    decreases |s|
  {
    assert (forall y :: y !in s) ==> s == {};
    var x :| x in s;
    if s != {x} {
      MinExists(s - {x});
      var m :| m in s - {x} && forall j :: j in s - {x} ==> m <= j;
      if x < m {
        forall j | j in s ensures x <= j { if j != x { assert j in s - {x}; } }
      } else {
        forall j | j in s ensures m <= j { if j != x { assert j in s - {x}; } }
      }
    } else {
      assert forall j :: j in s ==> x <= j;
    }
  }

  /** `sorted(keys, key=int)`. */
  function SortedKeys(s: set<int>): (r: seq<int>)
    ensures |r| == |s|
    ensures forall k :: k in s <==> k in r
    ensures forall i, j :: 0 <= i < j < |r| ==> r[i] < r[j]
    decreases |s|
  {
    if s == {} then []
    else
      var k := MinKey(s);
      var rest := SortedKeys(s - {k});
      assert forall i :: 0 <= i < |rest| ==> rest[i] in s - {k};
      [k] + rest
  }

  /** `list(dict(sorted(reg_dict.iteritems(), key=int)).values())`. */
  function OrderedValues(m: map<int, int>): (r: seq<int>)
    ensures |r| == |m.Keys|
    ensures forall i :: 0 <= i < |r| ==> SortedKeys(m.Keys)[i] in m && r[i] == m[SortedKeys(m.Keys)[i]]
  {
    var keys := SortedKeys(m.Keys);
    seq(|keys|, i requires 0 <= i < |keys| => m[keys[i]])
  }

  /** Of the keys lo to hi - 1, lo is the least, and the others are lo + 1 to hi - 1. */
  lemma DropLowest(s: set<int>, lo: int, hi: int)
    requires lo < hi
    requires forall k :: k in s <==> lo <= k < hi
    ensures s != {} && MinKey(s) == lo
    ensures forall k :: k in s - {lo} <==> lo + 1 <= k < hi
  {
    assert lo in s;
  }

  /** A set with no keys in an empty range is empty. */
  lemma EmptyRange(s: set<int>, lo: int, hi: int)
    requires hi <= lo
    requires forall k :: k in s <==> lo <= k < hi
    ensures s == {}
  {
    assert forall k :: k !in s;
  }

  /** The keys lo, lo + 1, ..., hi - 1 sort to themselves. */
  lemma {:induction false} SortedKeysRange(s: set<int>, lo: int, hi: int)
    requires lo <= hi
    requires forall k :: k in s <==> lo <= k < hi
    ensures |SortedKeys(s)| == hi - lo
    ensures forall i :: 0 <= i < hi - lo ==> SortedKeys(s)[i] == lo + i
    decreases hi - lo
  {
    if lo < hi {
      DropLowest(s, lo, hi);
      SortedKeysRange(s - {lo}, lo + 1, hi);
      assert SortedKeys(s) == [lo] + SortedKeys(s - {lo});
    } else {
      EmptyRange(s, lo, hi);
    }
  }

  /**
   * A store with the keys 0 to n - 1 loads into a block whose register `i`
   * holds the value stored under `i`.
   */
  lemma LoadedBlockMatchesStore(m: map<int, int>, n: nat)
    requires forall k :: k in m <==> 0 <= k < n
    ensures |OrderedValues(m)| == n
    ensures forall i :: 0 <= i < n ==> i in m && OrderedValues(m)[i] == m[i]
  {
    SortedKeysRange(m.Keys, 0, n);
    var keys := SortedKeys(m.Keys);
    forall i | 0 <= i < n
      ensures i in m && OrderedValues(m)[i] == m[i]
    {
      assert keys[i] == i;
    }
  }

  /**
   * `create_lpdb`: when no store exists (`existing == null`), one is made
   * holding 0 under each of the keys 0 to 65535; the store becomes the class
   * attribute, and the block starts at address 0 with the store's values in
   * key order.
   */
  method CreateLpdb(cls: LpdbClass, existing: RegisterStore?) returns (block: LockingPersistentDataBlock)
    modifies cls
    ensures existing != null ==> cls.regDict == existing && unchanged(existing)
    ensures existing == null ==> fresh(cls.regDict)
    ensures existing == null ==> forall k :: k in cls.regDict.entries <==> 0 <= k < RegisterCount
    ensures existing == null ==> forall k :: k in cls.regDict.entries ==> cls.regDict.entries[k] == 0
    ensures cls.regDict != null
    ensures fresh(block) && fresh(block.values) && block.cls == cls && block.address == Const.RegsStartingAddr
    ensures block.values[..] == OrderedValues(cls.regDict.entries)
    ensures existing == null ==> InStep(block.values[..], block.address, cls.regDict.entries)
  {
    var store := existing;
    if store == null {
      store := InitialStore();
      LoadedInStep(store.entries, RegisterCount);
    }
    cls.regDict := store;
    block := new LockingPersistentDataBlock(cls, Const.RegsStartingAddr, OrderedValues(store.entries));
  }

  /** The store made when none exists: 0 under each of the keys 0 to 65535. */
  method InitialStore() returns (store: RegisterStore)
    ensures fresh(store)
    ensures forall k :: k in store.entries <==> 0 <= k < RegisterCount
    ensures forall k :: k in store.entries ==> store.entries[k] == 0
  {
    store := new RegisterStore(map[]);
    for k := 0 to RegisterCount
      invariant forall key :: key in store.entries <==> 0 <= key < k
      invariant forall key :: key in store.entries ==> store.entries[key] == 0
    {
      store.Store(k, 0);
    }
  }

  /** A store with the keys 0 to n - 1 loads into a block in step with it. */
  lemma LoadedInStep(m: map<int, int>, n: nat)
    requires forall k :: k in m <==> 0 <= k < n
    ensures InStep(OrderedValues(m), 0, m)
  {
    LoadedBlockMatchesStore(m, n);
  }

  /** A freshly created store loads into 65536 zeros, in step with the store. */
  lemma FreshStoreLoadsZeros(m: map<int, int>)
    requires forall k :: k in m <==> 0 <= k < RegisterCount
    requires forall k :: k in m ==> m[k] == 0
    ensures |OrderedValues(m)| == RegisterCount
    ensures forall i :: 0 <= i < RegisterCount ==> OrderedValues(m)[i] == 0
  {
    LoadedBlockMatchesStore(m, RegisterCount);
  }
}
