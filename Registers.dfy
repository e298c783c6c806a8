/**
 * The holding-register space the gateway serves: 65536 registers, read and
 * written as runs of consecutive values.  A write argument may be a single
 * value or a list, and both data blocks wrap a single value in a list.
 */
module Registers {
  const RegisterCount := 65536

  /** The `values` argument of a setValues call: a list, or anything else, which is wrapped. */
  datatype WriteArg = Scalar(v: int) | List(vs: seq<int>)

  /** `if not isinstance(values, list): values = [values]`. */
  function AsList(arg: WriteArg): (vs: seq<int>)
    ensures arg.Scalar? ==> vs == [arg.v]
    ensures arg.List? ==> vs == arg.vs
  {
    match arg
    case Scalar(v) => [v]
    case List(vs) => vs
  }

  predicate InRange(regs: seq<int>, address: int, count: int)
  {
    0 <= address && 0 <= count && address + count <= |regs|
  }

  /** The register space after writing `vs` from `address` on. */
  function Overwrite(regs: seq<int>, address: int, vs: seq<int>): (r: seq<int>)
    requires InRange(regs, address, |vs|)
    ensures |r| == |regs|
    ensures r[address..address + |vs|] == vs
    ensures forall i :: 0 <= i < |regs| && !(address <= i < address + |vs|) ==> r[i] == regs[i]
  {
    regs[..address] + vs + regs[address + |vs|..]
  }

  /** Each register after a write, one at a time. */
  lemma OverwriteAt(regs: seq<int>, address: int, vs: seq<int>, i: int)
    requires InRange(regs, address, |vs|) && 0 <= i < |regs|
    ensures Overwrite(regs, address, vs)[i] == if address <= i < address + |vs| then vs[i - address] else regs[i]
  {
    var r := Overwrite(regs, address, vs);
    if address <= i < address + |vs| {
      assert r[address..address + |vs|][i - address] == r[i];
    }
  }
}
