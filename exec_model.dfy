/**
 * The instruction model of the execution tracer: memory spaces, memory
 * instructions and per-thread instructions, with the hand-written equality
 * that trace comparison uses.
 */
module ExecModel {
  import Wrappers
  import TraceModel

  datatype MemorySpace = Local | Shared | Constant | Texture | Global

  /** `From<MemorySpace> for trace_model::MemorySpace`. */
  function ToTraceSpace(s: MemorySpace): (t: TraceModel.MemorySpace)
    ensures t != TraceModel.None && t != TraceModel.Generic && t != TraceModel.GlobalToShared
    ensures t != TraceModel.Surface
  {
    match s
    case Local => TraceModel.Local
    case Shared => TraceModel.Shared
    case Constant => TraceModel.Constant
    case Texture => TraceModel.Texture
    case Global => TraceModel.Global
  }

  /** Every space maps to the trace space of the same name, and no two spaces
      share one. */
  lemma ToTraceSpaceInjective(a: MemorySpace, b: MemorySpace)
    ensures ToTraceSpace(a) == ToTraceSpace(b) ==> a == b
    ensures ToTraceSpace(Global) == TraceModel.Global && ToTraceSpace(Shared) == TraceModel.Shared
  {
  }

  /** `base_addr`, by way of the trace space; only global and shared have one. */
  function BaseAddr(s: MemorySpace): (r: Wrappers.Option<nat>)
    ensures r.Some? <==> s == Global || s == Shared
  {
    TraceModel.BaseAddr(ToTraceSpace(s))
  }

  datatype MemAccessKind = Load | Store

  datatype MemInstruction = MemInstruction(
    memSpace: MemorySpace, kind: MemAccessKind, bypassL1: bool, bypassL2: bool, addr: nat, size: nat)

  /** `PartialEq for MemInstruction`: only the space and the kind are compared. */
  predicate MemEq(a: MemInstruction, b: MemInstruction)
  {
    (a.memSpace, a.kind) == (b.memSpace, b.kind)
  }

  /** The memory equality is an equivalence that ignores addresses, sizes and
      bypass flags. */
  lemma MemEqIsEquivalence(a: MemInstruction, b: MemInstruction, c: MemInstruction)
    ensures MemEq(a, a)
    ensures MemEq(a, b) ==> MemEq(b, a)
    ensures MemEq(a, b) && MemEq(b, c) ==> MemEq(a, c)
    ensures MemEq(a, a.(addr := c.addr, size := c.size, bypassL1 := c.bypassL1, bypassL2 := c.bypassL2))
  {
  }

  datatype ThreadInstruction =
    | Access(inst: MemInstruction)
    | Barrier
    | Nop
    | Branch(target: nat)
    | TookBranch(target: nat)
    | Reconverge(target: nat)

  /** `is_access`. */
  predicate IsAccess(t: ThreadInstruction)
  {
    t.Access?
  }

  /** `instruction()`: the memory instruction of an access. */
  function Instruction(t: ThreadInstruction): (r: Wrappers.Option<MemInstruction>)
    ensures r.Some? <==> IsAccess(t)
    ensures r.Some? ==> t == Access(r.value)
  {
    match t
    case Access(a) => Wrappers.Some(a)
    case _ => Wrappers.None
  }

  /** `PartialEq for ThreadInstruction` as written: `Nop` matches anything,
      the payload variants compare their payloads, and every other pair,
      `Barrier` against `Barrier` included, is unequal. */
  predicate ThreadEqAsWritten(a: ThreadInstruction, b: ThreadInstruction)
  {
    match (a, b)
    case (Nop, _) => true
    case (_, Nop) => true
    case (Access(x), Access(y)) => MemEq(x, y)
    case (Branch(x), Branch(y)) => x == y
    case (TookBranch(x), TookBranch(y)) => x == y
    case (Reconverge(x), Reconverge(y)) => x == y
    case (_, _) => false
  }

  /** The as-written equality is not reflexive: a barrier differs from itself. */
  lemma BarrierUnequalToItself()
    ensures !ThreadEqAsWritten(Barrier, Barrier)
  {
  }

  /** The equality with `Barrier == Barrier` added, as `Eq` requires. */
  predicate ThreadEq(a: ThreadInstruction, b: ThreadInstruction)
  {
    ThreadEqAsWritten(a, b) || (a.Barrier? && b.Barrier?)
  }

  /** The corrected equality agrees with the written one everywhere except on
      the barrier pair, and is reflexive and symmetric. */
  lemma ThreadEqSpec(a: ThreadInstruction, b: ThreadInstruction)
    ensures ThreadEq(a, b) == (ThreadEqAsWritten(a, b) || a == b == Barrier)
    ensures ThreadEq(a, a)
    ensures ThreadEq(a, b) ==> ThreadEq(b, a)
  {
  }

  /** Without `Nop`, two instructions are equal iff they are the same variant
      with equal payloads (memory payloads by `MemEq`). */
  lemma ThreadEqWithoutNop(a: ThreadInstruction, b: ThreadInstruction)
    requires !a.Nop? && !b.Nop?
    ensures ThreadEq(a, b) <==>
      (a.Access? && b.Access? && MemEq(a.inst, b.inst))
      || (a.Barrier? && b.Barrier?)
      || (a.Branch? && b.Branch? && a.target == b.target)
      || (a.TookBranch? && b.TookBranch? && a.target == b.target)
      || (a.Reconverge? && b.Reconverge? && a.target == b.target)
  {
  }

  /** `Nop` equals everything on either side, so the relation is not
      transitive: two different branches both equal `Nop`. */
  lemma NopBreaksTransitivity(t: ThreadInstruction)
    ensures ThreadEq(Nop, t) && ThreadEq(t, Nop)
    ensures ThreadEq(Branch(0), Nop) && ThreadEq(Nop, Branch(1)) && !ThreadEq(Branch(0), Branch(1))
  {
  }
}
