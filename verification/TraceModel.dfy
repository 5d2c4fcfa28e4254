/** Trace records as the decoder hands them over; the decoder itself is an arbitrary total function. */
module TraceModel {
  import opened Wrappers
  import opened Numbers

  /**
   * One memory operand. `addr` is its effective address, `raw` the bytes it is known to have moved,
   * `storeValue` the register value a store falls back to when they are not known.
   */
  datatype MemOp = MemOp(
    base: string,
    index: string,
    isWrite: bool,
    size: nat,
    srcReg: string,
    addr: nat,
    raw: Option<seq<nat>>,
    storeValue: nat)

  datatype Rec = Rec(
    pc: nat,
    mnemonic: string,
    isBranch: bool,
    isCall: bool,
    isRet: bool,
    isCond: bool,
    regsDef: seq<string>,
    regsUse: seq<string>,
    memOps: seq<MemOp>)

  type Trace = seq<Rec>

  function WrappingAdd(addr: nat, offset: nat): nat { (addr + offset) % TWO_TO_THE_64 }

  function SaturatingAdd(addr: nat, offset: nat): nat { if addr + offset > U64_MAX then U64_MAX else addr + offset }
}
