/**
 * The operand collector of the shader core: collector units gather the
 * source operands of one instruction each, an arbiter grants register
 * bank reads with a wavefront allocator, dispatch units pick a collector
 * whose operands are complete in round-robin order, and writebacks claim
 * the banks of the destination registers.
 */
module OperandCollector {
  import opened Wrappers
  import opened Arith

  /** Register slots of an instruction, and operand slots of a collector. */
  const MaxRegOperands: nat := 32
  const NumSrcOperands: nat := 64

  /** How registers map to banks; shared by the collectors and the arbiter. */
  datatype BankConfig = BankConfig(numBanks: nat, bankWarpShift: nat, subCoreModel: bool, banksPerSched: nat)

  /** The remainders in `register_bank` are by non-zero numbers. */
  predicate BankConfigOk(cfg: BankConfig)
  {
    cfg.numBanks > 0 && (cfg.subCoreModel ==> cfg.banksPerSched > 0)
  }

  /** The sub-core model asserts that a scheduler's bank group lies within
      the banks. */
  predicate SchedOk(cfg: BankConfig, schedId: nat)
  {
    cfg.subCoreModel ==> (schedId + 1) * cfg.banksPerSched <= cfg.numBanks
  }

  /** `register_bank`: the register number, offset by the warp id when
      there is a warp shift, taken modulo the number of banks, or in the
      sub-core model modulo the banks of one scheduler within that
      scheduler's group. */
  function RegisterBank(reg: nat, warpId: nat, cfg: BankConfig, schedId: nat): (bank: nat)
    requires BankConfigOk(cfg) && SchedOk(cfg, schedId)
    ensures bank < cfg.numBanks
    ensures cfg.subCoreModel ==>
      schedId * cfg.banksPerSched <= bank < (schedId + 1) * cfg.banksPerSched
  {
    var b := if cfg.bankWarpShift > 0 then reg + warpId else reg;
    if cfg.subCoreModel then
      var r := b % cfg.banksPerSched + schedId * cfg.banksPerSched;
      assert r < (schedId + 1) * cfg.banksPerSched by {
        assert (schedId + 1) * cfg.banksPerSched == schedId * cfg.banksPerSched + cfg.banksPerSched;
      }
      r
    else b % cfg.numBanks
  }

  /** Registers that differ by the number of banks (by the banks of one
      scheduler in the sub-core model) share a bank. */
  lemma RegisterBankPeriodic(reg: nat, warpId: nat, cfg: BankConfig, schedId: nat)
    requires BankConfigOk(cfg) && SchedOk(cfg, schedId)
    ensures var period := if cfg.subCoreModel then cfg.banksPerSched else cfg.numBanks;
      RegisterBank(reg + period, warpId, cfg, schedId) == RegisterBank(reg, warpId, cfg, schedId)
  {
    var b := if cfg.bankWarpShift > 0 then reg + warpId else reg;
    var period := if cfg.subCoreModel then cfg.banksPerSched else cfg.numBanks;
    AddPeriod(b, period);
  }

  /** Without a warp shift the warp does not matter; with one, a warp
      offset is the same as a register offset. */
  lemma RegisterBankWarpShift(reg: nat, warpId: nat, cfg: BankConfig, schedId: nat)
    requires BankConfigOk(cfg) && SchedOk(cfg, schedId)
    ensures cfg.bankWarpShift == 0 ==> RegisterBank(reg, warpId, cfg, schedId) == RegisterBank(reg, 0, cfg, schedId)
    ensures cfg.bankWarpShift > 0 ==> RegisterBank(reg, warpId, cfg, schedId) == RegisterBank(reg + warpId, 0, cfg, schedId)
  {
  }

  /** A register read request or write claim. */
  datatype Operand = Operand(warpId: Option<nat>, operand: Option<nat>, register: nat, bank: nat,
                             schedulerId: nat, collectorUnitId: Option<nat>)

  /** The parts of a warp instruction the collector looks at. */
  datatype Instr = Instr(uid: nat, warpId: nat, schedulerId: Option<nat>,
                         srcRegs: seq<Option<nat>>, destRegs: seq<Option<nat>>)

  datatype AllocationKind = NoAlloc | ReadAlloc | WriteAlloc

  /** The claim on one register bank in the current cycle. */
  datatype Allocation = Allocation(kind: AllocationKind, op: Option<Operand>)
  {
    predicate IsRead() { kind == ReadAlloc }
    predicate IsWrite() { kind == WriteAlloc }
    predicate IsFree() { kind == NoAlloc }

    /** `allocate_for_read`: a free bank becomes read-allocated to `op`. */
    function AllocateForRead(op: Option<Operand>): (a: Allocation)
      requires IsFree()
      ensures a.IsRead() && !a.IsFree() && a.op == op
    {
      Allocation(ReadAlloc, op)
    }

    /** `allocate_for_write`: a free bank becomes write-allocated to `op`. */
    function AllocateForWrite(op: Option<Operand>): (a: Allocation)
      requires IsFree()
      ensures a.IsWrite() && !a.IsFree() && a.op == op
    {
      Allocation(WriteAlloc, op)
    }

    /** `reset`: back to the default, free allocation. */
    function Reset(): (a: Allocation)
      ensures a.IsFree() && a == DefaultAllocation()
    {
      Allocation(NoAlloc, None)
    }
  }

  function DefaultAllocation(): Allocation
  {
    Allocation(NoAlloc, None)
  }

  /** The three kinds exclude each other, and an allocation followed by a
      reset is the default again. */
  lemma AllocationCycle(a: Allocation, op: Option<Operand>)
    requires a.IsFree()
    ensures a.AllocateForRead(op).Reset() == DefaultAllocation()
    ensures a.AllocateForWrite(op).Reset() == DefaultAllocation()
    ensures !(a.AllocateForRead(op).IsWrite()) && !(a.AllocateForWrite(op).IsRead())
  {
  }

  /** The slot a sub-core collector writes into is its own; otherwise the
      first empty one. */
  function FirstEmpty(stage: seq<Option<Instr>>): (r: Option<nat>)
    ensures r.Some? ==> r.value < |stage| && stage[r.value].None?
                        && forall j :: 0 <= j < r.value ==> stage[j].Some?
    ensures r.None? ==> forall j :: 0 <= j < |stage| ==> stage[j].Some?
  {
    if |stage| == 0 then None
    else if stage[0].None? then Some(0)
    else match FirstEmpty(stage[1..]) {
      case None => None
      case Some(k) => Some(k + 1)
    }
  }

  /** `has_free` / `has_free_sub_core` of an output pipeline register. */
  predicate HasFreeSlot(stage: seq<Option<Instr>>, subCoreModel: bool, regId: nat)
  {
    if subCoreModel then regId < |stage| && stage[regId].None?
    else exists j :: 0 <= j < |stage| && stage[j].None?
  }

  /** An operand slot the allocation fills: a source register that does
      not repeat an earlier one. */
  predicate FirstOccurrence(regs: seq<Option<nat>>, op: nat)
  {
    op < |regs| && regs[op].Some? && forall j :: 0 <= j < op ==> regs[j] != regs[op]
  }

  class CollectorUnit {
    var free: bool
    var id: nat
    var warpId: Option<nat>
    var warpInstr: Option<Instr>
    var outputRegister: Option<nat>
    var srcOperands: seq<Option<Operand>>
    var notReady: seq<bool>
    var cfg: BankConfig
    var regId: nat

    ghost predicate Valid()
      reads this
    {
      |srcOperands| == NumSrcOperands && |notReady| == NumSrcOperands
    }

    predicate AllCollected()
      reads this
    {
      forall k :: 0 <= k < |notReady| ==> !notReady[k]
    }

    /** `new`: free, nothing collected, id and bank mapping still 0 (the
        given id is only taken by `init`). */
    constructor ()
      ensures Valid() && free && id == 0 && warpId.None? && warpInstr.None? && outputRegister.None?
      ensures AllCollected() && forall k :: 0 <= k < NumSrcOperands ==> srcOperands[k].None?
      ensures cfg == BankConfig(0, 0, false, 0) && regId == 0
    {
      free := true;
      id := 0;
      warpId := None;
      warpInstr := None;
      outputRegister := None;
      srcOperands := seq(NumSrcOperands, _ => None);
      notReady := seq(NumSrcOperands, _ => false);
      cfg := BankConfig(0, 0, false, 0);
      regId := 0;
    }

    /** `init`: the id and the bank mapping; the unit holds no instruction. */
    method Init(id: nat, numBanks: nat, log2WarpSize: nat, subCoreModel: bool, regId: nat, banksPerScheduler: nat)
      requires warpInstr.None?
      modifies this
      ensures this.id == id && this.regId == regId
      ensures cfg == BankConfig(numBanks, log2WarpSize, subCoreModel, banksPerScheduler)
      ensures free == old(free) && warpId == old(warpId) && warpInstr.None? && outputRegister == old(outputRegister)
      ensures srcOperands == old(srcOperands) && notReady == old(notReady)
    {
      this.id := id;
      cfg := BankConfig(numBanks, log2WarpSize, subCoreModel, banksPerScheduler);
      warpInstr := None;
      this.regId := regId;
    }

    /** `ready`: the unit holds an instruction, has collected every operand
        and its output register has room for it. */
    predicate Ready(stages: seq<seq<Option<Instr>>>)
      reads this
      requires outputRegister.Some? ==> outputRegister.value < |stages|
    {
      && !free
      && outputRegister.Some?
      && AllCollected()
      && HasFreeSlot(stages[outputRegister.value], cfg.subCoreModel, regId)
    }

    /** `warp_id`: none while free. */
    function WarpId(): (w: Option<nat>)
      reads this
      ensures free ==> w.None?
      ensures !free ==> w == warpId
    {
      if free then None else warpId
    }

    /** `dispatch`: the instruction moves into the output register (the
        unit's own slot in the sub-core model, else the first empty one)
        and the unit becomes free with no operands. */
    method Dispatch(stages: seq<seq<Option<Instr>>>) returns (stages': seq<seq<Option<Instr>>>)
      requires Valid() && AllCollected()
      requires outputRegister.Some? && outputRegister.value < |stages|
      requires cfg.subCoreModel ==> regId < |stages[outputRegister.value]| && stages[outputRegister.value][regId].None?
      requires !cfg.subCoreModel ==> exists j :: 0 <= j < |stages[outputRegister.value]| && stages[outputRegister.value][j].None?
      modifies this
      ensures Valid() && free && warpId.None? && warpInstr.None? && outputRegister.None?
      ensures forall k :: 0 <= k < NumSrcOperands ==> srcOperands[k].None?
      ensures notReady == old(notReady) && id == old(id) && cfg == old(cfg) && regId == old(regId)
      ensures var o := old(outputRegister).value;
        var slot := if cfg.subCoreModel then regId else FirstEmpty(stages[o]).value;
        FirstEmpty(stages[o]).Some? && stages' == stages[o := stages[o][slot := old(warpInstr)]]
    {
      var o := outputRegister.value;
      outputRegister := None;
      var instr := warpInstr;
      warpInstr := None;
      var slot;
      if cfg.subCoreModel {
        slot := regId;
      } else {
        var f := FirstEmpty(stages[o]);
        slot := f.value;
      }
      stages' := stages[o := stages[o][slot := instr]];
      free := true;
      warpId := None;
      srcOperands := seq(NumSrcOperands, _ => None);
    }

    /** The read request for operand `op` of the instruction. */
    function SourceOperand(instr: Instr, op: nat): Operand
      reads this
      requires op < |instr.srcRegs| && instr.srcRegs[op].Some? && instr.schedulerId.Some?
      requires BankConfigOk(cfg) && SchedOk(cfg, instr.schedulerId.value)
    {
      Operand(Some(instr.warpId), Some(op), instr.srcRegs[op].value,
              RegisterBank(instr.srcRegs[op].value, instr.warpId, cfg, instr.schedulerId.value),
              instr.schedulerId.value, Some(id))
    }

    /** `allocate`: the unit is taken for the output register whether or
        not the input has a ready instruction; with one, it moves out of
        the input and every distinct source register becomes an operand
        to collect. `ready` is the input slot `get_ready` chooses. */
    method Allocate(input: seq<Option<Instr>>, ready: Option<nat>, outputRegId: nat)
      returns (ok: bool, inputAfter: seq<Option<Instr>>)
      requires Valid() && free && AllCollected() && BankConfigOk(cfg)
      requires ready.Some? ==> ready.value < |input| && input[ready.value].Some?
      requires ready.Some? ==>
        var instr := input[ready.value].value;
        |instr.srcRegs| == MaxRegOperands
        && ((exists k :: 0 <= k < |instr.srcRegs| && instr.srcRegs[k].Some?)
            ==> instr.schedulerId.Some? && SchedOk(cfg, instr.schedulerId.value))
      modifies this
      ensures Valid() && !free && outputRegister == Some(outputRegId)
      ensures ok <==> ready.Some?
      ensures id == old(id) && cfg == old(cfg) && regId == old(regId)
      ensures !ok ==> inputAfter == input && warpId == old(warpId) && warpInstr == old(warpInstr)
                      && srcOperands == old(srcOperands) && notReady == old(notReady)
      ensures ok ==>
        var instr := input[ready.value].value;
        && inputAfter == input[ready.value := None]
        && warpInstr == Some(instr) && warpId == Some(instr.warpId)
        && (forall k :: 0 <= k < NumSrcOperands ==> (notReady[k] <==> FirstOccurrence(instr.srcRegs, k)))
        && (forall k :: 0 <= k < NumSrcOperands && !FirstOccurrence(instr.srcRegs, k) ==> srcOperands[k].None?)
        && (forall k :: 0 <= k < NumSrcOperands && FirstOccurrence(instr.srcRegs, k) ==>
              srcOperands[k] == Some(SourceOperand(instr, k)))
    {
      free := false;
      outputRegister := Some(outputRegId);
      if ready.None? {
        return false, input;
      }
      var instr := input[ready.value].value;
      warpId := Some(instr.warpId);
      var ops, pending := SourceOperands(instr);
      srcOperands := ops;
      notReady := pending;
      warpInstr := Some(instr);
      inputAfter := input[ready.value := None];
      ok := true;
    }

    /** The operand loop of `allocate`: every source register seen for the
        first time becomes an operand to collect and is marked not ready;
        every other slot stays empty and ready. */
    method SourceOperands(instr: Instr) returns (ops: seq<Option<Operand>>, pending: seq<bool>)
      requires Valid() && AllCollected() && BankConfigOk(cfg)
      requires |instr.srcRegs| == MaxRegOperands
      requires (exists k :: 0 <= k < |instr.srcRegs| && instr.srcRegs[k].Some?)
               ==> instr.schedulerId.Some? && SchedOk(cfg, instr.schedulerId.value)
      ensures |ops| == NumSrcOperands && |pending| == NumSrcOperands
      ensures forall k :: 0 <= k < NumSrcOperands ==> (pending[k] <==> FirstOccurrence(instr.srcRegs, k))
      ensures forall k :: 0 <= k < NumSrcOperands && !FirstOccurrence(instr.srcRegs, k) ==> ops[k].None?
      ensures forall k :: 0 <= k < NumSrcOperands && FirstOccurrence(instr.srcRegs, k) ==>
                ops[k] == Some(SourceOperand(instr, k))
    {
      ops := seq(NumSrcOperands, _ => None);
      pending := notReady;
      var seen: set<nat> := {};
      var op := 0;
      while op < |instr.srcRegs|
        invariant 0 <= op <= |instr.srcRegs|
        invariant |ops| == NumSrcOperands && |pending| == NumSrcOperands
        invariant seen == set j | 0 <= j < op && instr.srcRegs[j].Some? :: instr.srcRegs[j].value
        invariant forall k :: 0 <= k < NumSrcOperands ==> (pending[k] <==> k < op && FirstOccurrence(instr.srcRegs, k))
        invariant forall k :: 0 <= k < NumSrcOperands && !(k < op && FirstOccurrence(instr.srcRegs, k)) ==> ops[k].None?
        invariant forall k :: 0 <= k < op && FirstOccurrence(instr.srcRegs, k) ==> ops[k] == Some(SourceOperand(instr, k))
      {
        var r := instr.srcRegs[op];
        if r.Some? && r.value !in seen {
          assert FirstOccurrence(instr.srcRegs, op) by {
            forall j | 0 <= j < op
              ensures instr.srcRegs[j] != r
            {
              if instr.srcRegs[j].Some? {
                assert instr.srcRegs[j].value in seen;
              }
            }
          }
          ops := ops[op := Some(SourceOperand(instr, op))];
          pending := pending[op := true];
        } else {
          assert !FirstOccurrence(instr.srcRegs, op) by {
            if r.Some? {
              var j :| 0 <= j < op && instr.srcRegs[j].Some? && instr.srcRegs[j].value == r.value;
              assert instr.srcRegs[j] == r;
            }
          }
        }
        if r.Some? {
          seen := seen + {r.value};
        }
        op := op + 1;
      }
    }

    /** `collect_operand`: operand `op` has arrived. */
    method CollectOperand(op: nat)
      requires Valid() && op < NumSrcOperands
      modifies this
      ensures Valid() && notReady == old(notReady)[op := false]
      ensures free == old(free) && warpId == old(warpId) && warpInstr == old(warpInstr)
      ensures outputRegister == old(outputRegister) && srcOperands == old(srcOperands)
      ensures id == old(id) && cfg == old(cfg) && regId == old(regId)
    {
      notReady := notReady[op := false];
    }
  }

  /** The operands of a collector waiting on bank `b`, in operand order. */
  function BankRequests(ops: seq<Option<Operand>>, b: nat): (r: seq<Operand>)
    ensures |r| <= |ops|
    ensures forall k :: 0 <= k < |r| ==> r[k].bank == b
  {
    if |ops| == 0 then []
    else
      var rest := BankRequests(ops[..|ops| - 1], b);
      var last := ops[|ops| - 1];
      if last.Some? && last.value.bank == b then rest + [last.value] else rest
  }

  /** Every operand slot of the collector lands in exactly one bank queue. */
  lemma {:induction false} BankRequestsCover(ops: seq<Option<Operand>>, b: nat)
    ensures (forall k :: 0 <= k < |ops| ==> ops[k].None? || ops[k].value.bank != b) <==> BankRequests(ops, b) == []
    ensures forall x :: x in BankRequests(ops, b) ==> Some(x) in ops
  {
    if |ops| > 0 {
      BankRequestsCover(ops[..|ops| - 1], b);
      var last := ops[|ops| - 1];
      if last.Some? && last.value.bank == b {
        assert BankRequests(ops, b) != [];
      } else {
        assert forall k :: 0 <= k < |ops| - 1 ==> ops[k] == ops[..|ops| - 1][k];
      }
      assert forall x :: x in ops[..|ops| - 1] ==> x in ops;
    }
  }

  /** Some output of row `row` is reached within the first `p` diagonals
      of the wavefront, for input `i` and priority `pri`. */
  ghost predicate Reached(row: seq<bool>, pri: nat, i: nat, p: nat)
    requires |row| > 0
  {
    exists q :: 0 <= q < p && row[Diagonal(pri, q, i, |row|)]
  }

  /** The output input `i` faces on diagonal `q`. */
  function Diagonal(pri: nat, q: nat, i: nat, n: nat): (c: nat)
    requires n > 0
    ensures c < n
  {
    (pri + q + i) % n
  }

  lemma ReachedAll(row: seq<bool>, pri: nat, i: nat, p: nat)
    requires |row| > 0 && p >= |row|
    ensures Reached(row, pri, i, p) <==> exists c :: 0 <= c < |row| && row[c]
  {
    if c :| 0 <= c < |row| && row[c] {
      RotationCovers(pri + i, |row|, c);
      var q := (c - (pri + i)) % |row|;
      assert row[Diagonal(pri, q, i, |row|)];
    }
  }

  /** The wavefront allocator: diagonal by diagonal, an input not yet
      matched is granted the output of the diagonal when it requests it;
      write-allocated inputs are matched to 0 beforehand. Output matches
      are not recorded, so several inputs may be granted one output. */
  method Wavefront(request: seq<seq<bool>>, writes: seq<bool>, pri: nat, square: nat) returns (inmatch: seq<Option<nat>>)
    requires |request| == |writes| && |request| > 0
    requires forall b :: 0 <= b < |request| ==> |request[b]| == |request[0]|
    requires |request[0]| > 0 && square >= |request[0]| && square >= |request|
    ensures |inmatch| == |request|
    ensures forall b :: 0 <= b < |request| && writes[b] ==> inmatch[b] == Some(0)
    ensures forall b :: 0 <= b < |request| && !writes[b] ==>
      (inmatch[b].Some? <==> exists c :: 0 <= c < |request[b]| && request[b][c])
    ensures forall b :: 0 <= b < |request| && !writes[b] && inmatch[b].Some? ==>
      inmatch[b].value < |request[b]| && request[b][inmatch[b].value]
  {
    var n := |request[0]|;
    inmatch := seq(|request|, b requires 0 <= b < |writes| => if writes[b] then Some(0) else None);
    for p := 0 to square
      invariant |inmatch| == |request|
      invariant forall b :: 0 <= b < |request| && writes[b] ==> inmatch[b] == Some(0)
      invariant forall b :: 0 <= b < |request| && !writes[b] ==>
        (inmatch[b].Some? <==> Reached(request[b], pri, b, p))
      invariant forall b :: 0 <= b < |request| && !writes[b] && inmatch[b].Some? ==>
        inmatch[b].value < n && request[b][inmatch[b].value]
    {
      inmatch := WavefrontPass(request, writes, pri, p, inmatch);
    }
    forall b | 0 <= b < |request| && !writes[b]
      ensures inmatch[b].Some? <==> exists c :: 0 <= c < |request[b]| && request[b][c]
    {
      ReachedAll(request[b], pri, b, square);
    }
  }

  /** One diagonal of the wavefront: input `i` faces output
      `(pri + p + i) % n` and takes it when still unmatched. */
  method WavefrontPass(request: seq<seq<bool>>, writes: seq<bool>, pri: nat, p: nat, im: seq<Option<nat>>)
    returns (inmatch: seq<Option<nat>>)
    requires |request| == |writes| == |im| && |request| > 0
    requires forall b :: 0 <= b < |request| ==> |request[b]| == |request[0]|
    requires |request[0]| > 0
    requires forall b :: 0 <= b < |request| && writes[b] ==> im[b] == Some(0)
    requires forall b :: 0 <= b < |request| && !writes[b] ==>
      (im[b].Some? <==> Reached(request[b], pri, b, p))
    requires forall b :: 0 <= b < |request| && !writes[b] && im[b].Some? ==>
      im[b].value < |request[0]| && request[b][im[b].value]
    ensures |inmatch| == |request|
    ensures forall b :: 0 <= b < |request| && writes[b] ==> inmatch[b] == Some(0)
    ensures forall b :: 0 <= b < |request| && !writes[b] ==>
      (inmatch[b].Some? <==> Reached(request[b], pri, b, p + 1))
    ensures forall b :: 0 <= b < |request| && !writes[b] && inmatch[b].Some? ==>
      inmatch[b].value < |request[0]| && request[b][inmatch[b].value]
  {
    var n := |request[0]|;
    inmatch := im;
    var output := (pri + p) % n;
    for input := 0 to |request|
      invariant |inmatch| == |request|
      invariant output == (pri + p + input) % n
      invariant forall b :: input <= b < |request| ==> inmatch[b] == im[b]
      invariant forall b :: 0 <= b < |request| && writes[b] ==> inmatch[b] == Some(0)
      invariant forall b :: 0 <= b < input && !writes[b] ==>
        (inmatch[b].Some? <==> Reached(request[b], pri, b, p + 1))
      invariant forall b :: 0 <= b < |request| && !writes[b] && inmatch[b].Some? ==>
        inmatch[b].value < n && request[b][inmatch[b].value]
    {
      ghost var before := inmatch;
      assert output == Diagonal(pri, p, input, n);
      ReachedStep(request[input], pri, input, p);
      if inmatch[input].None? && request[input][output] {
        inmatch := inmatch[input := Some(output)];
      }
      assert forall b :: 0 <= b < |request| && b != input ==> inmatch[b] == before[b];
      assert !writes[input] ==> (inmatch[input].Some? <==> Reached(request[input], pri, input, p + 1));
      ModSucc(pri + p + input, n);
      output := (output + 1) % n;
    }
  }

  /** One more diagonal reaches the output it faces. */
  lemma ReachedStep(row: seq<bool>, pri: nat, i: nat, p: nat)
    requires |row| > 0
    ensures Reached(row, pri, i, p + 1) <==> Reached(row, pri, i, p) || row[Diagonal(pri, p, i, |row|)]
  {
    if Reached(row, pri, i, p + 1) && !row[Diagonal(pri, p, i, |row|)] {
      var q :| 0 <= q < p + 1 && row[Diagonal(pri, q, i, |row|)];
      assert q < p;
    }
  }

  /** The bank `allocate_reads` recomputes for a read is `b`. */
  ghost predicate InBank(op: Operand, cfg: BankConfig, b: nat)
  {
    && op.warpId.Some? && BankConfigOk(cfg) && SchedOk(cfg, op.schedulerId)
    && RegisterBank(op.register, op.warpId.value, cfg, op.schedulerId) == b
  }

  /** The pop pass of `allocate_reads`: the front read of every bank that
      the wavefront matched and that is not write-allocated leaves its
      queue, in bank order. */
  method PopFronts(allocs: seq<Allocation>, q0: seq<seq<Operand>>, im: seq<Option<nat>>)
    returns (q: seq<seq<Operand>>, granted: seq<Operand>, ghost popped: seq<nat>)
    requires |allocs| == |q0| == |im|
    requires forall b :: 0 <= b < |q0| && !allocs[b].IsWrite() ==> (im[b].Some? <==> q0[b] != [])
    ensures |q| == |q0| && |popped| == |granted|
    ensures forall k :: 0 <= k < |popped| ==> ServedIn(allocs, q0, popped[k]) && granted[k] == q0[popped[k]][0]
    ensures forall k, l :: 0 <= k < l < |popped| ==> popped[k] < popped[l]
    ensures forall b :: b in popped <==> ServedIn(allocs, q0, b)
    ensures forall b :: 0 <= b < |q0| ==> q[b] == if ServedIn(allocs, q0, b) then q0[b][1..] else q0[b]
  {
    q := q0;
    granted := [];
    popped := [];
    for bank := 0 to |q0|
      invariant |q| == |q0| && |popped| == |granted|
      invariant forall k :: 0 <= k < |popped| ==> popped[k] < bank && ServedIn(allocs, q0, popped[k]) && granted[k] == q0[popped[k]][0]
      invariant forall k, l :: 0 <= k < l < |popped| ==> popped[k] < popped[l]
      invariant forall b :: 0 <= b < bank && ServedIn(allocs, q0, b) ==> b in popped
      invariant forall b :: 0 <= b < |q0| ==> q[b] == if b < bank && ServedIn(allocs, q0, b) then q0[b][1..] else q0[b]
    {
      if im[bank].Some? && !allocs[bank].IsWrite() {
        if q[bank] != [] {
          granted := granted + [q[bank][0]];
          popped := popped + [bank];
          q := q[bank := q[bank][1..]];
        }
      }
    }
  }

  /** The allocation pass of `allocate_reads`: each popped read claims
      the bank recomputed from its register and is reported under it. */
  method ReadAllocate(allocs: seq<Allocation>, q0: seq<seq<Operand>>, cfg: BankConfig,
                      granted: seq<Operand>, ghost popped: seq<nat>)
    returns (allocs': seq<Allocation>, readOps: map<nat, Operand>)
    requires |allocs| == |q0| && |popped| == |granted|
    requires forall k :: 0 <= k < |popped| ==> ServedIn(allocs, q0, popped[k]) && granted[k] == q0[popped[k]][0]
    requires forall k, l :: 0 <= k < l < |popped| ==> popped[k] < popped[l]
    requires forall k :: 0 <= k < |popped| ==> popped[k] < |allocs| && InBank(granted[k], cfg, popped[k]) && allocs[popped[k]].IsFree()
    requires forall b :: b in popped ==> ServedIn(allocs, q0, b) && b < |q0| && |q0[b]| > 0
    ensures |allocs'| == |allocs|
    ensures forall b :: b in readOps <==> b in popped
    ensures forall j :: 0 <= j < |popped| ==> popped[j] in readOps && readOps[popped[j]] == granted[j]
    ensures forall b :: 0 <= b < |allocs| ==>
      allocs'[b] == if b in popped then Allocation(ReadAlloc, Some(q0[b][0])) else allocs[b]
  {
    allocs' := allocs;
    readOps := map[];
    for k := 0 to |granted|
      invariant |allocs'| == |allocs|
      invariant forall b :: b in readOps <==> b in popped[..k]
      invariant forall j :: 0 <= j < k ==> popped[j] in readOps && readOps[popped[j]] == granted[j]
      invariant forall b :: 0 <= b < |allocs| ==>
        allocs'[b] == if b in popped[..k] then Allocation(ReadAlloc, Some(q0[b][0])) else allocs[b]
    {
      var read := granted[k];
      var bank := RegisterBank(read.register, read.warpId.value, cfg, read.schedulerId);
      assert bank == popped[k];
      assert bank !in popped[..k];
      allocs' := allocs'[bank := allocs'[bank].AllocateForRead(Some(read))];
      readOps := readOps[bank := read];
      assert popped[..k + 1] == popped[..k] + [bank];
    }
    assert popped[..|granted|] == popped;
  }

  /** The match the wavefront settles on for bank `b`: 0 for a write,
      else the collector of the front read, if any. */
  ghost function GrantIn(allocs: seq<Allocation>, queue: seq<seq<Operand>>, b: nat): Option<nat>
    requires b < |allocs| && b < |queue|
  {
    if allocs[b].IsWrite() then Some(0)
    else if queue[b] != [] then queue[b][0].collectorUnitId
    else None
  }

  /** With one request per bank, for the collector of its front read,
      the wavefront grants each bank exactly that collector. */
  lemma WavefrontGrants(allocs: seq<Allocation>, queue: seq<seq<Operand>>, n: nat,
                        request: seq<seq<bool>>, writes: seq<bool>, im: seq<Option<nat>>)
    requires |allocs| == |queue| == |request| == |writes| == |im|
    requires forall b :: 0 <= b < |queue| && queue[b] != [] ==>
      queue[b][0].collectorUnitId.Some? && queue[b][0].collectorUnitId.value < n
    requires forall b :: 0 <= b < |request| ==> |request[b]| == n
    requires forall b, c :: 0 <= b < |request| && 0 <= c < n ==>
      (request[b][c] <==> queue[b] != [] && queue[b][0].collectorUnitId == Some(c))
    requires forall b :: 0 <= b < |writes| ==> writes[b] == allocs[b].IsWrite()
    requires forall b :: 0 <= b < |request| && writes[b] ==> im[b] == Some(0)
    requires forall b :: 0 <= b < |request| && !writes[b] ==>
      (im[b].Some? <==> exists c :: 0 <= c < |request[b]| && request[b][c])
    requires forall b :: 0 <= b < |request| && !writes[b] && im[b].Some? ==>
      im[b].value < |request[b]| && request[b][im[b].value]
    ensures forall b :: 0 <= b < |im| ==> im[b] == GrantIn(allocs, queue, b)
  {
    forall b | 0 <= b < |im|
      ensures im[b] == GrantIn(allocs, queue, b)
    {
      if !writes[b] && queue[b] != [] {
        assert request[b][queue[b][0].collectorUnitId.value];
      }
    }
  }

  /** A queued read of bank `b`: bank, warp and collector recorded, the
      collector below `n`, and the bank recomputable from the register. */
  ghost predicate QueuedIn(op: Operand, n: nat, cfg: BankConfig, b: nat)
  {
    op.bank == b && op.collectorUnitId.Some? && op.collectorUnitId.value < n && InBank(op, cfg, b)
  }

  /** The request matrix: bank `b` asks for collector `c` when its front
      read belongs to `c`. */
  function Requests(queue: seq<seq<Operand>>, n: nat): (request: seq<seq<bool>>)
    ensures |request| == |queue| && forall b :: 0 <= b < |queue| ==> |request[b]| == n
    ensures forall b, c :: 0 <= b < |queue| && 0 <= c < n ==>
      (request[b][c] <==> |queue[b]| > 0 && queue[b][0].collectorUnitId == Some(c))
  {
    seq(|queue|, b requires 0 <= b < |queue| =>
      seq(n, c => |queue[b]| > 0 && queue[b][0].collectorUnitId == Some(c)))
  }

  /** What `allocate_reads` does to the bank tables: exactly the banks
      that are not write-allocated and have a queued read are reported,
      each with its front read; those reads leave their queues and
      read-allocate their banks; every other bank is untouched. */
  ghost predicate ReadsAllocated(allocs: seq<Allocation>, queue: seq<seq<Operand>>,
                                 allocs': seq<Allocation>, queue': seq<seq<Operand>>, readOps: map<nat, Operand>)
  {
    && |allocs'| == |allocs| && |queue'| == |queue|
    && (forall b :: b in readOps <==> ServedIn(allocs, queue, b))
    && (forall b :: b in readOps ==> b < |queue| && |queue[b]| > 0 && readOps[b] == queue[b][0])
    && (forall b :: 0 <= b < |queue| ==> queue'[b] == if ServedIn(allocs, queue, b) then queue[b][1..] else queue[b])
    && (forall b :: 0 <= b < |queue| && b < |allocs| ==>
          allocs'[b] == if ServedIn(allocs, queue, b) then Allocation(ReadAlloc, Some(queue[b][0])) else allocs[b])
  }

  /** With nothing allocated and nothing queued, no read is served. */
  lemma IdleAllocatesNothing(allocs: seq<Allocation>, queue: seq<seq<Operand>>)
    requires forall b :: 0 <= b < |queue| ==> queue[b] == []
    ensures ReadsAllocated(allocs, queue, allocs, queue, map[])
  {
  }

  /** The slow path of `allocate_reads` on the bank tables: wavefront
      match from priority `pri`, pop the matched reads and read-allocate
      their banks. */
  method Arbitrate(allocs: seq<Allocation>, queue: seq<seq<Operand>>, n: nat, cfg: BankConfig, pri: nat)
    returns (allocs': seq<Allocation>, queue': seq<seq<Operand>>, im: seq<Option<nat>>, readOps: map<nat, Operand>)
    requires n > 0 && |allocs| == |queue| > 0
    requires forall b, k :: 0 <= b < |queue| && 0 <= k < |queue[b]| ==> QueuedIn(queue[b][k], n, cfg, b)
    requires forall b :: 0 <= b < |queue| && ServedIn(allocs, queue, b) ==> allocs[b].IsFree()
    ensures ReadsAllocated(allocs, queue, allocs', queue', readOps)
    ensures |im| == |queue| && forall b :: 0 <= b < |queue| ==> im[b] == GrantIn(allocs, queue, b)
  {
    var nb := |queue|;
    var square := if nb > n then nb else n;
    var request := Requests(queue, n);
    var writes := seq(nb, b requires 0 <= b < nb => allocs[b].IsWrite());
    im := Wavefront(request, writes, pri, square);
    WavefrontGrants(allocs, queue, n, request, writes, im);
    var granted; ghost var popped;
    queue', granted, popped := PopFronts(allocs, queue, im);
    forall k | 0 <= k < |popped|
      ensures popped[k] < |allocs| && InBank(granted[k], cfg, popped[k]) && allocs[popped[k]].IsFree()
    {
      assert QueuedIn(queue[popped[k]][0], n, cfg, popped[k]);
    }
    allocs', readOps := ReadAllocate(allocs, queue, cfg, granted, popped);
  }

  /** Nothing allocated and nothing queued. */
  predicate IdleTables(allocs: seq<Allocation>, queue: seq<seq<Operand>>)
  {
    (forall b :: 0 <= b < |allocs| ==> allocs[b].kind == NoAlloc)
    && (forall b :: 0 <= b < |queue| ==> queue[b] == [])
  }

  /** `allocate_reads` on the bank tables: the fast path leaves the match
      table as it was, the slow path replaces it by the wavefront's. */
  method AllocateTables(allocs: seq<Allocation>, queue: seq<seq<Operand>>, inm: seq<Option<nat>>,
                        n: nat, cfg: BankConfig, pri: nat)
    returns (allocs': seq<Allocation>, queue': seq<seq<Operand>>, inm': seq<Option<nat>>, readOps: map<nat, Operand>)
    requires n > 0 && |allocs| == |queue| == |inm| > 0
    requires forall b, k :: 0 <= b < |queue| && 0 <= k < |queue[b]| ==> QueuedIn(queue[b][k], n, cfg, b)
    requires forall b :: 0 <= b < |queue| && ServedIn(allocs, queue, b) ==> allocs[b].IsFree()
    ensures ReadsAllocated(allocs, queue, allocs', queue', readOps) && |inm'| == |inm|
    ensures forall b, k :: 0 <= b < |queue'| && 0 <= k < |queue'[b]| ==> QueuedIn(queue'[b][k], n, cfg, b)
    ensures IdleTables(allocs, queue) ==> inm' == inm
    ensures !IdleTables(allocs, queue) ==> forall b :: 0 <= b < |queue| ==> inm'[b] == GrantIn(allocs, queue, b)
  {
    var noAllocation := forall b :: 0 <= b < |allocs| ==> allocs[b].kind == NoAlloc;
    var emptyQueue := forall b :: 0 <= b < |queue| ==> queue[b] == [];
    if noAllocation && emptyQueue {
      IdleAllocatesNothing(allocs, queue);
      return allocs, queue, inm, map[];
    }
    allocs', queue', inm', readOps := Arbitrate(allocs, queue, n, cfg, pri);
    PoppedQueued(allocs, queue, queue', n, cfg);
  }

  /** Popping front reads keeps every queued read well formed. */
  lemma PoppedQueued(allocs: seq<Allocation>, queue: seq<seq<Operand>>, queue': seq<seq<Operand>>, n: nat, cfg: BankConfig)
    requires |queue'| == |queue|
    requires forall b, k :: 0 <= b < |queue| && 0 <= k < |queue[b]| ==> QueuedIn(queue[b][k], n, cfg, b)
    requires forall b :: 0 <= b < |queue| ==> queue'[b] == if ServedIn(allocs, queue, b) then queue[b][1..] else queue[b]
    ensures forall b, k :: 0 <= b < |queue'| && 0 <= k < |queue'[b]| ==> QueuedIn(queue'[b][k], n, cfg, b)
  {
    forall b, k | 0 <= b < |queue'| && 0 <= k < |queue'[b]|
      ensures QueuedIn(queue'[b][k], n, cfg, b)
    {
      if ServedIn(allocs, queue, b) {
        assert queue'[b][k] == queue[b][k + 1];
      }
    }
  }

  ghost predicate ServedIn(allocs: seq<Allocation>, queue: seq<seq<Operand>>, b: nat)
  {
    b < |allocs| && b < |queue| && !allocs[b].IsWrite() && |queue[b]| > 0
  }

  class Arbiter {
    var numCollectors: nat
    var cfg: BankConfig
    var allocatedBanks: seq<Allocation>
    var queue: seq<seq<Operand>>
    var lastCu: nat
    var inmatch: seq<Option<nat>>

    ghost predicate Valid()
      reads this
    {
      && numCollectors > 0 && BankConfigOk(cfg)
      && |allocatedBanks| == cfg.numBanks && |queue| == cfg.numBanks && |inmatch| == cfg.numBanks
      && lastCu < numCollectors
      && forall b, k :: 0 <= b < |queue| && 0 <= k < |queue[b]| ==> QueuedIn(queue[b][k], numCollectors, cfg, b)
    }

    /** `init`: empty queues, every bank free and unmatched. */
    constructor (numCollectors: nat, cfg: BankConfig)
      requires numCollectors > 0 && BankConfigOk(cfg)
      ensures Valid() && this.numCollectors == numCollectors && this.cfg == cfg && lastCu == 0
      ensures forall b :: 0 <= b < cfg.numBanks ==> queue[b] == [] && allocatedBanks[b].IsFree() && inmatch[b].None?
    {
      this.numCollectors := numCollectors;
      this.cfg := cfg;
      inmatch := seq(cfg.numBanks, _ => None);
      queue := seq(cfg.numBanks, _ => []);
      allocatedBanks := seq(cfg.numBanks, _ => DefaultAllocation());
      lastCu := 0;
    }

    /** Nothing allocated and nothing queued: the fast path. */
    predicate Idle()
      reads this
    {
      IdleTables(allocatedBanks, queue)
    }

    /** `allocate_reads`: each bank that is not write-allocated and has a
        queued read pops its front read, becomes read-allocated to it and
        reports it under its bank number; the diagonal priority rotates by
        one collector. */
    method AllocateReads() returns (readOps: map<nat, Operand>)
      requires Valid()
      requires forall b :: 0 <= b < cfg.numBanks && queue[b] != [] && !allocatedBanks[b].IsWrite() ==>
        allocatedBanks[b].IsFree()
      modifies this
      ensures Valid() && numCollectors == old(numCollectors) && cfg == old(cfg)
      ensures lastCu == (old(lastCu) + 1) % numCollectors
      ensures ReadsAllocated(old(allocatedBanks), old(queue), allocatedBanks, queue, readOps)
      ensures old(Idle()) ==> inmatch == old(inmatch)
      ensures !old(Idle()) ==> forall b :: 0 <= b < cfg.numBanks ==> inmatch[b] == GrantIn(old(allocatedBanks), old(queue), b)
    {
      var allocs, q, im;
      allocs, q, im, readOps := AllocateTables(allocatedBanks, queue, inmatch, numCollectors, cfg, lastCu);
      lastCu := (lastCu + 1) % numCollectors;
      inmatch := im;
      queue := q;
      allocatedBanks := allocs;
    }

    /** `add_read_requests`: every operand the collector waits for joins
        the queue of its bank, in operand order. */
    method AddReadRequests(cu: CollectorUnit)
      requires Valid()
      requires forall k :: 0 <= k < |cu.srcOperands| && cu.srcOperands[k].Some? ==>
        cu.srcOperands[k].value.bank < cfg.numBanks && QueuedIn(cu.srcOperands[k].value, numCollectors, cfg, cu.srcOperands[k].value.bank)
      modifies this
      ensures Valid() && numCollectors == old(numCollectors) && cfg == old(cfg) && lastCu == old(lastCu)
      ensures allocatedBanks == old(allocatedBanks) && inmatch == old(inmatch)
      ensures forall b :: 0 <= b < cfg.numBanks ==> queue[b] == old(queue[b]) + BankRequests(cu.srcOperands, b)
    {
      var k := 0;
      while k < |cu.srcOperands|
        invariant 0 <= k <= |cu.srcOperands|
        invariant Valid() && numCollectors == old(numCollectors) && cfg == old(cfg) && lastCu == old(lastCu)
        invariant allocatedBanks == old(allocatedBanks) && inmatch == old(inmatch)
        invariant forall b :: 0 <= b < cfg.numBanks ==> queue[b] == old(queue[b]) + BankRequests(cu.srcOperands[..k], b)
      {
        assert cu.srcOperands[..k + 1][..k] == cu.srcOperands[..k];
        var o := cu.srcOperands[k];
        if o.Some? {
          var b := o.value.bank;
          queue := queue[b := queue[b] + [o.value]];
        }
        k := k + 1;
      }
      assert cu.srcOperands[..k] == cu.srcOperands;
    }

    /** `bank_idle`. */
    predicate BankIdle(bank: nat)
      reads this
      requires bank < |allocatedBanks|
    {
      allocatedBanks[bank].IsFree()
    }

    /** `allocate_bank_for_write` of a free bank. */
    method AllocateBankForWrite(bank: nat, op: Operand)
      requires Valid() && bank < cfg.numBanks && allocatedBanks[bank].IsFree()
      modifies this
      ensures Valid() && allocatedBanks == old(allocatedBanks)[bank := Allocation(WriteAlloc, Some(op))]
      ensures queue == old(queue) && lastCu == old(lastCu) && inmatch == old(inmatch)
      ensures numCollectors == old(numCollectors) && cfg == old(cfg)
    {
      allocatedBanks := allocatedBanks[bank := allocatedBanks[bank].AllocateForWrite(Some(op))];
    }

    /** `reset_alloction`: every bank free again. */
    method ResetAllocation()
      requires Valid()
      modifies this
      ensures Valid() && forall b :: 0 <= b < cfg.numBanks ==> allocatedBanks[b] == DefaultAllocation()
      ensures queue == old(queue) && lastCu == old(lastCu) && inmatch == old(inmatch)
      ensures numCollectors == old(numCollectors) && cfg == old(cfg)
    {
      allocatedBanks := seq(cfg.numBanks, _ => DefaultAllocation());
    }
  }

  /** The step of the dispatch scan: in the sub-core model the scan starts
      with the first collector of the next scheduler's group, otherwise
      with the collector after the last one chosen. */
  function RrIncrement(lastCu: nat, numCollectors: nat, numWarpSchedulers: nat, subCoreModel: bool): (inc: nat)
    requires numWarpSchedulers > 0
    requires subCoreModel ==> numCollectors / numWarpSchedulers > 0
    ensures subCoreModel ==> 1 <= inc <= numCollectors / numWarpSchedulers
    ensures !subCoreModel ==> inc == 1
  {
    if subCoreModel then
      var cps := numCollectors / numWarpSchedulers;
      cps - lastCu % cps
    else 1
  }

  /** In the sub-core model the scan starts at a group boundary: the
      first collector of the group after the one of `lastCu`. */
  lemma RrIncrementNextGroup(lastCu: nat, numCollectors: nat, numWarpSchedulers: nat)
    requires numWarpSchedulers > 0 && numCollectors / numWarpSchedulers > 0
    ensures var cps := numCollectors / numWarpSchedulers;
      lastCu + RrIncrement(lastCu, numCollectors, numWarpSchedulers, true) == (lastCu / cps + 1) * cps
  {
    var cps := numCollectors / numWarpSchedulers;
    assert lastCu == (lastCu / cps) * cps + lastCu % cps;
  }

  /** The collector the dispatch scan visits at step `i`. */
  function ScanPos(lastCu: nat, inc: nat, i: nat, n: nat): (c: nat)
    requires n > 0
    ensures c < n
  {
    (lastCu + i + inc) % n
  }

  class DispatchUnit {
    var lastCu: nat
    var nextCu: nat
    var subCoreModel: bool
    var numWarpSchedulers: nat
    var id: nat

    /** `new`: no schedulers yet, the scan starts at collector 0. */
    constructor (id: nat)
      ensures this.id == id && lastCu == 0 && nextCu == 0 && !subCoreModel && numWarpSchedulers == 0
    {
      this.id := id;
      lastCu := 0;
      nextCu := 0;
      subCoreModel := false;
      numWarpSchedulers := 0;
    }

    /** `init`. */
    method Init(subCoreModel: bool, numWarpSchedulers: nat)
      modifies this
      ensures this.subCoreModel == subCoreModel && this.numWarpSchedulers == numWarpSchedulers
      ensures lastCu == old(lastCu) && nextCu == old(nextCu) && id == old(id)
    {
      this.subCoreModel := subCoreModel;
      this.numWarpSchedulers := numWarpSchedulers;
    }

    /** `find_ready`, given whether each collector is ready: the first
        ready collector in the round-robin scan is chosen and becomes
        `last_cu`; with no ready collector there is no choice and `last_cu`
        stays. */
    method FindReady(ready: seq<bool>) returns (r: Option<nat>)
      requires numWarpSchedulers > 0
      requires subCoreModel ==> |ready| / numWarpSchedulers > 0
      modifies this
      ensures subCoreModel == old(subCoreModel) && numWarpSchedulers == old(numWarpSchedulers)
      ensures nextCu == old(nextCu) && id == old(id)
      ensures r.Some? ==> r.value < |ready| && ready[r.value] && lastCu == r.value
      ensures r.Some? ==>
        var inc := RrIncrement(old(lastCu), |ready|, numWarpSchedulers, subCoreModel);
        exists i :: 0 <= i < |ready| && ScanPos(old(lastCu), inc, i, |ready|) == r.value &&
          forall j :: 0 <= j < i ==> !ready[ScanPos(old(lastCu), inc, j, |ready|)]
      ensures r.None? <==> forall c :: 0 <= c < |ready| ==> !ready[c]
      ensures r.None? ==> lastCu == old(lastCu)
    {
      var n := |ready|;
      if n == 0 {
        return None;
      }
      var inc := RrIncrement(lastCu, n, numWarpSchedulers, subCoreModel);
      var i := 0;
      while i < n
        invariant 0 <= i <= n
        invariant forall j :: 0 <= j < i ==> !ready[ScanPos(lastCu, inc, j, n)]
      {
        var c := ScanPos(lastCu, inc, i, n);
        if ready[c] {
          lastCu := c;
          return Some(c);
        }
        i := i + 1;
      }
      forall c | 0 <= c < n
        ensures !ready[c]
      {
        RotationCovers(lastCu + inc, n, c);
        var j := (c - (lastCu + inc)) % n;
        assert ScanPos(lastCu, inc, j, n) == c;
      }
      return None;
    }
  }

  /** The claim `writeback` puts on the bank of a destination register. */
  function WriteOperand(reg: nat, warpId: nat, bank: nat, schedId: nat): Operand
  {
    Operand(Some(warpId), None, reg, bank, schedId, None)
  }

  /** The bank of destination slot `j`. */
  function DestBank(dests: seq<Option<nat>>, j: nat, warpId: nat, schedId: nat, cfg: BankConfig): (bank: nat)
    requires BankConfigOk(cfg) && SchedOk(cfg, schedId) && j < |dests| && dests[j].Some?
    ensures bank < cfg.numBanks
  {
    RegisterBank(dests[j].value, warpId, cfg, schedId)
  }

  /** `writeback` from destination slot `k` on: whether it succeeds, the
      bank table and the destination slots it leaves. */
  function WriteBack(allocs: seq<Allocation>, dests: seq<Option<nat>>, k: nat, warpId: nat, schedId: nat, cfg: BankConfig)
    : (r: (bool, seq<Allocation>, seq<Option<nat>>))
    requires BankConfigOk(cfg) && SchedOk(cfg, schedId) && |allocs| == cfg.numBanks && k <= |dests|
    ensures |r.1| == |allocs| && |r.2| == |dests|
    decreases |dests| - k
  {
    if k == |dests| then (true, allocs, dests)
    else if dests[k].None? then WriteBack(allocs, dests, k + 1, warpId, schedId, cfg)
    else
      var bank := DestBank(dests, k, warpId, schedId, cfg);
      if allocs[bank].IsFree() then
        WriteBack(allocs[bank := Allocation(WriteAlloc, Some(WriteOperand(dests[k].value, warpId, bank, schedId)))],
                  dests[k := None], k + 1, warpId, schedId, cfg)
      else (false, allocs, dests)
  }

  /** The destination registers from slot `k` on lie in pairwise distinct
      banks that are all free. */
  ghost predicate ClaimsFree(allocs: seq<Allocation>, dests: seq<Option<nat>>, k: nat, warpId: nat, schedId: nat, cfg: BankConfig)
    requires BankConfigOk(cfg) && SchedOk(cfg, schedId) && |allocs| == cfg.numBanks
  {
    && (forall j :: k <= j < |dests| && dests[j].Some? ==> allocs[DestBank(dests, j, warpId, schedId, cfg)].IsFree())
    && (forall i, j :: k <= i < j < |dests| && dests[i].Some? && dests[j].Some? ==>
          DestBank(dests, i, warpId, schedId, cfg) != DestBank(dests, j, warpId, schedId, cfg))
  }

  /** A writeback succeeds exactly when its destination registers lie in
      distinct free banks. */
  lemma {:induction false} WriteBackSucceeds(allocs: seq<Allocation>, dests: seq<Option<nat>>, k: nat, warpId: nat, schedId: nat, cfg: BankConfig)
    requires BankConfigOk(cfg) && SchedOk(cfg, schedId) && |allocs| == cfg.numBanks && k <= |dests|
    ensures WriteBack(allocs, dests, k, warpId, schedId, cfg).0 <==> ClaimsFree(allocs, dests, k, warpId, schedId, cfg)
    decreases |dests| - k
  {
    if k == |dests| {
    } else if dests[k].None? {
      WriteBackSucceeds(allocs, dests, k + 1, warpId, schedId, cfg);
      assert ClaimsFree(allocs, dests, k, warpId, schedId, cfg) <==> ClaimsFree(allocs, dests, k + 1, warpId, schedId, cfg) by {
        if ClaimsFree(allocs, dests, k + 1, warpId, schedId, cfg) {
          assert forall j :: k <= j < |dests| && dests[j].Some? ==> j > k;
        }
      }
    } else {
      var bank := DestBank(dests, k, warpId, schedId, cfg);
      if allocs[bank].IsFree() {
        var allocs' := allocs[bank := Allocation(WriteAlloc, Some(WriteOperand(dests[k].value, warpId, bank, schedId)))];
        var dests' := dests[k := None];
        WriteBackSucceeds(allocs', dests', k + 1, warpId, schedId, cfg);
        assert forall j :: k < j < |dests| && dests[j].Some? ==>
          DestBank(dests', j, warpId, schedId, cfg) == DestBank(dests, j, warpId, schedId, cfg);
        if ClaimsFree(allocs, dests, k, warpId, schedId, cfg) {
          forall j | k + 1 <= j < |dests'| && dests'[j].Some?
            ensures allocs'[DestBank(dests', j, warpId, schedId, cfg)].IsFree()
          {
            assert DestBank(dests, k, warpId, schedId, cfg) != DestBank(dests, j, warpId, schedId, cfg);
          }
        }
        if ClaimsFree(allocs', dests', k + 1, warpId, schedId, cfg) {
          forall j | k <= j < |dests| && dests[j].Some?
            ensures allocs[DestBank(dests, j, warpId, schedId, cfg)].IsFree()
          {
            if j > k {
              assert allocs'[DestBank(dests', j, warpId, schedId, cfg)].IsFree();
            }
          }
          forall i, j | k <= i < j < |dests| && dests[i].Some? && dests[j].Some?
            ensures DestBank(dests, i, warpId, schedId, cfg) != DestBank(dests, j, warpId, schedId, cfg)
          {
            if i == k {
              assert allocs'[DestBank(dests', j, warpId, schedId, cfg)].IsFree();
            } else {
              assert dests'[i].Some? && dests'[j].Some?;
            }
          }
        }
      } else {
      }
    }
  }

  /** Banks no destination register from slot `k` on maps to are left
      as they were. */
  lemma {:induction false} WriteBackFrame(allocs: seq<Allocation>, dests: seq<Option<nat>>, k: nat, warpId: nat, schedId: nat, cfg: BankConfig, b: nat)
    requires BankConfigOk(cfg) && SchedOk(cfg, schedId) && |allocs| == cfg.numBanks && k <= |dests| && b < |allocs|
    requires forall j :: k <= j < |dests| && dests[j].Some? ==> DestBank(dests, j, warpId, schedId, cfg) != b
    ensures WriteBack(allocs, dests, k, warpId, schedId, cfg).1[b] == allocs[b]
    decreases |dests| - k
  {
    if k == |dests| {
    } else if dests[k].None? {
      WriteBackFrame(allocs, dests, k + 1, warpId, schedId, cfg, b);
    } else {
      var bank := DestBank(dests, k, warpId, schedId, cfg);
      if allocs[bank].IsFree() {
        var allocs' := allocs[bank := Allocation(WriteAlloc, Some(WriteOperand(dests[k].value, warpId, bank, schedId)))];
        var dests' := dests[k := None];
        assert forall j :: k < j < |dests| && dests[j].Some? ==>
          DestBank(dests', j, warpId, schedId, cfg) == DestBank(dests, j, warpId, schedId, cfg);
        WriteBackFrame(allocs', dests', k + 1, warpId, schedId, cfg, b);
      }
    }
  }

  /** After a successful writeback every destination slot from `k` on is
      cleared, the earlier ones are as they were, and each destination
      bank holds a write claim for its register. */
  lemma {:induction false} WriteBackClaims(allocs: seq<Allocation>, dests: seq<Option<nat>>, k: nat, warpId: nat, schedId: nat, cfg: BankConfig)
    requires BankConfigOk(cfg) && SchedOk(cfg, schedId) && |allocs| == cfg.numBanks && k <= |dests|
    requires WriteBack(allocs, dests, k, warpId, schedId, cfg).0
    ensures var r := WriteBack(allocs, dests, k, warpId, schedId, cfg);
      && r.2[..k] == dests[..k]
      && (forall j :: k <= j < |dests| ==> r.2[j].None?)
      && (forall j :: k <= j < |dests| && dests[j].Some? ==>
            r.1[DestBank(dests, j, warpId, schedId, cfg)] ==
              Allocation(WriteAlloc, Some(WriteOperand(dests[j].value, warpId, DestBank(dests, j, warpId, schedId, cfg), schedId))))
    decreases |dests| - k
  {
    if k == |dests| {
    } else if dests[k].None? {
      WriteBackClaims(allocs, dests, k + 1, warpId, schedId, cfg);
      var r := WriteBack(allocs, dests, k + 1, warpId, schedId, cfg);
      assert r.2[..k] == r.2[..k + 1][..k];
    } else {
      var bank := DestBank(dests, k, warpId, schedId, cfg);
      var allocs' := allocs[bank := Allocation(WriteAlloc, Some(WriteOperand(dests[k].value, warpId, bank, schedId)))];
      var dests' := dests[k := None];
      WriteBackClaims(allocs', dests', k + 1, warpId, schedId, cfg);
      WriteBackSucceeds(allocs', dests', k + 1, warpId, schedId, cfg);
      var r := WriteBack(allocs', dests', k + 1, warpId, schedId, cfg);
      assert forall j :: k < j < |dests| && dests[j].Some? ==>
        DestBank(dests', j, warpId, schedId, cfg) == DestBank(dests, j, warpId, schedId, cfg);
      assert r.2[..k] == r.2[..k + 1][..k];
      assert r.2[..k + 1][..k] == dests'[..k + 1][..k];
      forall j | k < j < |dests| && dests[j].Some?
        ensures DestBank(dests', j, warpId, schedId, cfg) != bank
      {
        assert allocs'[DestBank(dests', j, warpId, schedId, cfg)].IsFree();
      }
      WriteBackFrame(allocs', dests', k + 1, warpId, schedId, cfg, bank);
    }
  }

  /** The register file's collector side: the arbiter whose banks
      writebacks claim. */
  class RegisterFileUnit {
    const arbiter: Arbiter

    constructor (numCollectors: nat, cfg: BankConfig)
      requires numCollectors > 0 && BankConfigOk(cfg)
      ensures fresh(arbiter) && arbiter.Valid() && arbiter.cfg == cfg && arbiter.numCollectors == numCollectors
      ensures forall b :: 0 <= b < cfg.numBanks ==> arbiter.allocatedBanks[b].IsFree()
    {
      arbiter := new Arbiter(numCollectors, cfg);
    }

    /** `writeback`: in slot order each destination register write-claims
        its bank and is cleared while the banks are idle; the first busy
        bank stops it with `false`, keeping the claims made so far. */
    method Writeback(instr: Instr) returns (ok: bool, instr': Instr)
      requires arbiter.Valid() && |instr.destRegs| == MaxRegOperands
      requires instr.schedulerId.Some? ==> SchedOk(arbiter.cfg, instr.schedulerId.value)
      requires instr.schedulerId.None? ==> forall k :: 0 <= k < |instr.destRegs| ==> instr.destRegs[k].None?
      modifies arbiter
      ensures arbiter.Valid() && arbiter.cfg == old(arbiter.cfg) && arbiter.numCollectors == old(arbiter.numCollectors)
      ensures arbiter.queue == old(arbiter.queue) && arbiter.lastCu == old(arbiter.lastCu) && arbiter.inmatch == old(arbiter.inmatch)
      ensures instr' == instr.(destRegs := instr'.destRegs)
      ensures instr.schedulerId.None? ==> ok && instr' == instr && arbiter.allocatedBanks == old(arbiter.allocatedBanks)
      ensures instr.schedulerId.Some? ==>
        (ok, arbiter.allocatedBanks, instr'.destRegs) ==
          WriteBack(old(arbiter.allocatedBanks), instr.destRegs, 0, instr.warpId, instr.schedulerId.value, arbiter.cfg)
    {
      if instr.schedulerId.None? {
        return true, instr;
      }
      var schedId := instr.schedulerId.value;
      var cfg := arbiter.cfg;
      ghost var r := WriteBack(arbiter.allocatedBanks, instr.destRegs, 0, instr.warpId, schedId, cfg);
      var dests := instr.destRegs;
      var op := 0;
      while op < MaxRegOperands
        invariant 0 <= op <= MaxRegOperands && |dests| == MaxRegOperands
        invariant arbiter.Valid() && arbiter.cfg == cfg && arbiter.numCollectors == old(arbiter.numCollectors)
        invariant arbiter.queue == old(arbiter.queue) && arbiter.lastCu == old(arbiter.lastCu) && arbiter.inmatch == old(arbiter.inmatch)
        invariant WriteBack(arbiter.allocatedBanks, dests, op, instr.warpId, schedId, cfg) == r
      {
        if dests[op].Some? {
          var reg := dests[op].value;
          var bank := RegisterBank(reg, instr.warpId, cfg, schedId);
          if !arbiter.BankIdle(bank) {
            return false, instr.(destRegs := dests);
          }
          arbiter.AllocateBankForWrite(bank, WriteOperand(reg, instr.warpId, bank, schedId));
          dests := dests[op := None];
        }
        op := op + 1;
      }
      return true, instr.(destRegs := dests);
    }
  }
}