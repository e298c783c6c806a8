/**
 * The global operation mode (register 1) and state (register 2): reads of
 * the register map, writes through the persistent block, and the readable
 * names by way of the converter tables (parameters).
 */
module OperationService {
  import opened Wrappers
  import opened PyData
  import opened Registers
  import opened Const
  import opened StateConverter
  import opened Database

  /** `get_mode`. */
  function GetMode(regs: seq<int>): (m: int)
    requires |regs| == RegisterCount
    ensures m == regs[GlobalOpModeAddr] && GlobalOpModeAddr == 1
  {
    regs[GlobalOpModeAddr]
  }

  /** `get_state`. */
  function GetState(regs: seq<int>): (s: int)
    requires |regs| == RegisterCount
    ensures s == regs[GlobalOpStateAddr] && GlobalOpStateAddr == 2
  {
    regs[GlobalOpStateAddr]
  }

  /** `get_mode_name`: the mode register through `mode_to_name`. */
  function GetModeName(names: map<int, string>, regs: seq<int>): (r: Result<string, ConversionError>)
    requires |regs| == RegisterCount
    ensures r.Success? <==> regs[1] in names
    ensures r.Success? ==> r.value == names[regs[1]]
    ensures r.Failure? ==> r.error == UnknownCode(Mode, regs[1])
  {
    CodeToName(Mode, names, VInt(GetMode(regs)))
  }

  /** `get_state_name`: the state register through `state_to_name`. */
  function GetStateName(names: map<int, string>, regs: seq<int>): (r: Result<string, ConversionError>)
    requires |regs| == RegisterCount
    ensures r.Success? <==> regs[2] in names
    ensures r.Success? ==> r.value == names[regs[2]]
    ensures r.Failure? ==> r.error == UnknownCode(State, regs[2])
  {
    CodeToName(State, names, VInt(GetState(regs)))
  }

  /**
   * `set_mode`: the value (a scalar is wrapped) is written from register 1
   * on through the persistent block, which stores each value before the
   * block takes them; `fault` is the store write that raises, if any.
   */
  method SetMode(block: LockingPersistentDataBlock, arg: WriteArg, fault: Option<nat>) returns (raised: bool)
    requires block.address == RegsStartingAddr && block.values.Length == RegisterCount
    requires InRange(block.values[..], GlobalOpModeAddr, |AsList(arg)|)
    modifies block.cls.regDict, block.values
    ensures raised == (Written(block.cls.regDict != null, fault, |AsList(arg)|) < |AsList(arg)|)
    ensures block.values[..] == if raised then old(block.values[..]) else Overwrite(old(block.values[..]), GlobalOpModeAddr, AsList(arg))
    ensures block.cls.regDict != null ==>
      block.cls.regDict.entries == StoreAll(old(block.cls.regDict.entries), GlobalOpModeAddr, AsList(arg)[..Written(true, fault, |AsList(arg)|)])
    ensures block.cls.regDict != null && !raised && old(InStep(block.values[..], block.address, block.cls.regDict.entries)) ==>
      InStep(block.values[..], block.address, block.cls.regDict.entries)
    ensures !raised && arg.Scalar? ==> GetMode(block.values[..]) == arg.v && GetState(block.values[..]) == old(GetState(block.values[..]))
  {
    raised := block.SetValues(GlobalOpModeAddr, arg, fault);
    if !raised && arg.Scalar? {
      OverwriteAt(old(block.values[..]), GlobalOpModeAddr, [arg.v], GlobalOpModeAddr);
      OverwriteAt(old(block.values[..]), GlobalOpModeAddr, [arg.v], GlobalOpStateAddr);
    }
  }

  /** `set_state`: the same from register 2 on. */
  method SetState(block: LockingPersistentDataBlock, arg: WriteArg, fault: Option<nat>) returns (raised: bool)
    requires block.address == RegsStartingAddr && block.values.Length == RegisterCount
    requires InRange(block.values[..], GlobalOpStateAddr, |AsList(arg)|)
    modifies block.cls.regDict, block.values
    ensures raised == (Written(block.cls.regDict != null, fault, |AsList(arg)|) < |AsList(arg)|)
    ensures block.values[..] == if raised then old(block.values[..]) else Overwrite(old(block.values[..]), GlobalOpStateAddr, AsList(arg))
    ensures block.cls.regDict != null ==>
      block.cls.regDict.entries == StoreAll(old(block.cls.regDict.entries), GlobalOpStateAddr, AsList(arg)[..Written(true, fault, |AsList(arg)|)])
    ensures block.cls.regDict != null && !raised && old(InStep(block.values[..], block.address, block.cls.regDict.entries)) ==>
      InStep(block.values[..], block.address, block.cls.regDict.entries)
    ensures !raised && arg.Scalar? ==> GetState(block.values[..]) == arg.v && GetMode(block.values[..]) == old(GetMode(block.values[..]))
  {
    raised := block.SetValues(GlobalOpStateAddr, arg, fault);
    if !raised && arg.Scalar? {
      OverwriteAt(old(block.values[..]), GlobalOpStateAddr, [arg.v], GlobalOpStateAddr);
      OverwriteAt(old(block.values[..]), GlobalOpStateAddr, [arg.v], GlobalOpModeAddr);
    }
  }

  /**
   * A list written as the mode spills into the state register: the write
   * is not confined to register 1.
   */
  lemma ModeListSpillsIntoState(regs: seq<int>, a: int, b: int)
    requires |regs| == RegisterCount
    ensures GetState(Overwrite(regs, GlobalOpModeAddr, AsList(List([a, b])))) == b
  {
    OverwriteAt(regs, GlobalOpModeAddr, [a, b], GlobalOpStateAddr);
  }

  /** Setting a mode by its code and reading its name back gives the name, when the tables invert. */
  lemma ModeNameAfterSet(names: map<int, string>, codes: map<string, int>, regs: seq<int>, n: string)
    requires |regs| == RegisterCount && InverseMaps(names, codes) && NormalizeKey(n) in codes
    ensures NameToCode(Mode, codes, VStr(n)).Success?
    ensures GetModeName(names, Overwrite(regs, GlobalOpModeAddr, [NameToCode(Mode, codes, VStr(n)).value])) == Success(NormalizeKey(n))
  {
    var key := NormalizeKey(n);
    assert NameToCode(Mode, codes, VStr(n)) == Success(codes[key]);
    var m := codes[key];
    assert m in names && names[m] == key;
    var after := Overwrite(regs, GlobalOpModeAddr, [m]);
    OverwriteAt(regs, GlobalOpModeAddr, [m], GlobalOpModeAddr);
    assert GetMode(after) == m;
    assert GetModeName(names, after) == CodeToName(Mode, names, VInt(m)) == Success(key);
  }
}
