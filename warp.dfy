/**
 * A warp of the simulator: its identity, the trace of instructions it
 * replays, its active-thread mask, counters of work still in flight and a
 * small instruction buffer that the fetch stage fills and the issue stage
 * drains in rotation.
 */
module Warps {
  import opened Wrappers
  import TraceModel

  /** The parts of a decoded warp instruction the warp itself looks at. */
  datatype WarpInstruction = WarpInstruction(uid: nat, pc: nat)

  const IBufferSize: nat := 2
  const U32Max: nat := 0xFFFF_FFFF

  /** Number of filled slots. */
  function CountFilled<T>(s: seq<Option<T>>): (n: nat)
    ensures n <= |s|
    ensures n == 0 <==> forall i :: 0 <= i < |s| ==> s[i].None?
  {
    if |s| == 0 then 0
    else CountFilled(s[..|s| - 1]) + (if s[|s| - 1].Some? then 1 else 0)
  }

  /** Number of cleared bits of an active mask. */
  function CountZeros(m: seq<bool>): (n: nat)
    ensures n <= |m|
  {
    if |m| == 0 then 0
    else CountZeros(m[..|m| - 1]) + (if m[|m| - 1] then 0 else 1)
  }

  /** A mask has all of its bits cleared exactly when it counts as many
      zeros as it is long. */
  lemma {:induction false} CountZerosAll(m: seq<bool>)
    ensures CountZeros(m) == |m| <==> forall i :: 0 <= i < |m| ==> !m[i]
  {
    if |m| > 0 {
      var p := m[..|m| - 1];
      CountZerosAll(p);
      assert forall i :: 0 <= i < |p| ==> p[i] == m[i];
    }
  }

  /** `InstructionBuffer`: fixed slots and the position of the slot to
      issue from next. */
  class InstructionBuffer {
    const inner: array<Option<WarpInstruction>>
    var next: nat

    ghost predicate Valid()
      reads this
    {
      next == 0 || next < inner.Length
    }

    /** `new(size)`: all slots empty, position 0. */
    constructor (size: nat)
      ensures Valid() && fresh(inner) && inner.Length == size && next == 0
      ensures forall i :: 0 <= i < size ==> inner[i].None?
    {
      inner := new Option<WarpInstruction>[size](_ => None);
      next := 0;
    }

    /** `size`. */
    function Size(): (n: nat)
      reads this, inner
      ensures n <= inner.Length
    {
      CountFilled(inner[..])
    }

    /** `is_empty`: no slot holds an instruction, which is the same as a
        size of 0. */
    predicate IsEmpty()
      reads this, inner
      ensures IsEmpty() <==> Size() == 0
    {
      forall i :: 0 <= i < inner.Length ==> inner[i].None?
    }

    /** `fill`: store the instruction and restart the rotation. */
    method Fill(slot: nat, instr: WarpInstruction)
      requires Valid() && slot < inner.Length
      modifies this, inner
      ensures Valid()
      ensures inner[..] == old(inner[..])[slot := Some(instr)] && next == 0
    {
      inner[slot] := Some(instr);
      next := 0;
    }

    /** `flush`: empty every slot and report how many held an instruction. */
    method Flush() returns (numFlushed: nat)
      requires Valid()
      modifies inner
      ensures Valid() && IsEmpty()
      ensures numFlushed == CountFilled(old(inner[..]))
    {
      ghost var slots := inner[..];
      numFlushed := 0;
      var i := 0;
      while i < inner.Length
        invariant 0 <= i <= inner.Length
        invariant numFlushed == CountFilled(slots[..i])
        invariant forall j :: 0 <= j < i ==> inner[j].None?
        invariant forall j :: i <= j < inner.Length ==> inner[j] == slots[j]
      {
        assert slots[..i + 1][..i] == slots[..i];
        if inner[i].Some? {
          numFlushed := numFlushed + 1;
        }
        inner[i] := None;
        i := i + 1;
      }
      assert slots[..inner.Length] == slots;
    }

    /** `peek`: the instruction at the current position, unchanged. */
    function Peek(): (r: Option<WarpInstruction>)
      requires Valid() && inner.Length > 0
      reads this, inner
      ensures r.Some? <==> Size() > 0 && inner[next].Some?
    {
      inner[next]
    }

    /** `take`: empty the slot at the current position and return what it
        held, which is what `peek` showed. */
    method Take() returns (r: Option<WarpInstruction>)
      requires Valid() && inner.Length > 0
      modifies inner
      ensures Valid()
      ensures r == old(Peek())
      ensures inner[..] == old(inner[..])[next := None]
      ensures Size() == old(Size()) - (if r.Some? then 1 else 0)
    {
      r := inner[next];
      ghost var slots := inner[..];
      inner[next] := None;
      FilledUpdate(slots, next, None);
      assert inner[..] == slots[next := None];
    }

    /** `step`: advance the position, wrapping around after the last slot. */
    method Step()
      requires Valid() && inner.Length > 0
      modifies this
      ensures Valid()
      ensures next == (old(next) + 1) % inner.Length
      ensures next < inner.Length
    {
      next := (next + 1) % inner.Length;
    }

    /** `reset`: all slots empty, position 0. */
    method Reset()
      requires Valid()
      modifies this, inner
      ensures Valid() && IsEmpty() && next == 0
    {
      var i := 0;
      while i < inner.Length
        modifies inner
        invariant 0 <= i <= inner.Length
        invariant forall j :: 0 <= j < i ==> inner[j].None?
      {
        inner[i] := None;
        i := i + 1;
      }
      next := 0;
    }
  }

  /** Overwriting one slot changes the count of filled slots by the
      difference between the old and the new content. */
  lemma {:induction false} FilledUpdate<T>(s: seq<Option<T>>, i: nat, x: Option<T>)
    requires i < |s|
    ensures CountFilled(s[i := x]) + (if s[i].Some? then 1 else 0) == CountFilled(s) + (if x.Some? then 1 else 0)
    decreases |s|
  {
    var t := s[i := x];
    if i < |s| - 1 {
      assert t[..|t| - 1] == s[..|s| - 1][i := x];
      FilledUpdate(s[..|s| - 1], i, x);
    } else {
      assert t[..|t| - 1] == s[..|s| - 1];
    }
  }

  class Warp {
    var blockId: nat
    var dynamicWarpId: nat
    var warpId: nat
    var kernelId: Option<nat>
    var tracePc: nat
    var activeMask: seq<bool>
    var traceInstructions: seq<WarpInstruction>
    var doneExit: bool
    var numInstrInPipeline: nat
    var numOutstandingStores: nat
    var numOutstandingAtomics: nat
    var waitingForMemoryBarrier: bool
    var hasImissPending: bool
    const instrBuffer: InstructionBuffer

    /** The mask has one bit per thread and the trace position never runs
        past the end of the trace. */
    ghost predicate Valid()
      reads this, instrBuffer
    {
      && |activeMask| == TraceModel.WarpSize
      && tracePc <= |traceInstructions|
      && instrBuffer.Valid()
    }

    /** Everything about the warp except its trace, trace position and
        active mask: the fields the trace and mask operations leave alone. */
    ghost function Bookkeeping(): (nat, nat, nat, Option<nat>, bool, nat, nat, nat, bool, bool)
      reads this
    {
      (blockId, dynamicWarpId, warpId, kernelId, doneExit, numInstrInPipeline, numOutstandingStores,
       numOutstandingAtomics, waitingForMemoryBarrier, hasImissPending)
    }

    /** `Warp::default`: no kernel, both ids `u32::MAX`, empty trace and
        mask, nothing in flight, a two-slot buffer. */
    constructor ()
      ensures Valid() && fresh(instrBuffer) && fresh(instrBuffer.inner)
      ensures blockId == 0 && dynamicWarpId == U32Max && warpId == U32Max && kernelId == None
      ensures tracePc == 0 && traceInstructions == [] && !doneExit
      ensures forall i :: 0 <= i < |activeMask| ==> !activeMask[i]
      ensures numInstrInPipeline == 0 && numOutstandingStores == 0 && numOutstandingAtomics == 0
      ensures !hasImissPending && !waitingForMemoryBarrier
      ensures instrBuffer.inner.Length == IBufferSize && instrBuffer.IsEmpty()
    {
      blockId := 0;
      dynamicWarpId := U32Max;
      warpId := U32Max;
      kernelId := None;
      tracePc := 0;
      traceInstructions := [];
      activeMask := seq(TraceModel.WarpSize, _ => false);
      doneExit := false;
      numInstrInPipeline := 0;
      numOutstandingStores := 0;
      numOutstandingAtomics := 0;
      hasImissPending := false;
      waitingForMemoryBarrier := false;
      instrBuffer := new InstructionBuffer(IBufferSize);
    }

    /** `init`: bind the warp to a block and a kernel with the given mask. */
    method Init(blockId: nat, warpId: nat, dynamicWarpId: nat, activeMask: seq<bool>, kernelId: nat)
      requires Valid() && |activeMask| == TraceModel.WarpSize
      modifies this
      ensures Valid()
      ensures this.blockId == blockId && this.warpId == warpId && this.dynamicWarpId == dynamicWarpId
      ensures !doneExit && this.kernelId == Some(kernelId) && this.activeMask == activeMask
      ensures tracePc == old(tracePc) && traceInstructions == old(traceInstructions)
      ensures numInstrInPipeline == old(numInstrInPipeline) && numOutstandingStores == old(numOutstandingStores)
      ensures numOutstandingAtomics == old(numOutstandingAtomics) && hasImissPending == old(hasImissPending)
      ensures waitingForMemoryBarrier == old(waitingForMemoryBarrier)
    {
      this.blockId := blockId;
      this.warpId := warpId;
      this.dynamicWarpId := dynamicWarpId;
      doneExit := false;
      this.kernelId := Some(kernelId);
      this.activeMask := activeMask;
    }

    /** `reset`: a warp with nothing in flight becomes an exited warp with
        no active thread, anonymous ids and an empty buffer. */
    method Reset()
      requires Valid() && numOutstandingStores == 0 && numInstrInPipeline == 0
      modifies this, instrBuffer, instrBuffer.inner
      ensures Valid()
      ensures !hasImissPending && warpId == U32Max && dynamicWarpId == U32Max && doneExit
      ensures forall i :: 0 <= i < |activeMask| ==> !activeMask[i]
      ensures instrBuffer.IsEmpty() && instrBuffer.next == 0
      ensures FunctionalDone() && HardwareDone() && Waiting()
      ensures blockId == old(blockId) && kernelId == old(kernelId)
      ensures tracePc == old(tracePc) && traceInstructions == old(traceInstructions)
      ensures numOutstandingAtomics == old(numOutstandingAtomics)
      ensures waitingForMemoryBarrier == old(waitingForMemoryBarrier)
    {
      hasImissPending := false;
      warpId := U32Max;
      dynamicWarpId := U32Max;
      activeMask := seq(|activeMask|, _ => false);
      doneExit := true;
      instrBuffer.Reset();
    }

    /** `current_instr`: the instruction at the trace position, if any. */
    function CurrentInstr(): (r: Option<WarpInstruction>)
      reads this
      ensures r.Some? <==> tracePc < |traceInstructions|
      ensures r.Some? ==> r.value == traceInstructions[tracePc]
    {
      if tracePc < |traceInstructions| then Some(traceInstructions[tracePc]) else None
    }

    /** `push_trace_instruction`: append to the trace. */
    method PushTraceInstruction(instr: WarpInstruction)
      requires Valid()
      modifies this
      ensures Valid()
      ensures traceInstructions == old(traceInstructions) + [instr] && tracePc == old(tracePc)
      ensures activeMask == old(activeMask) && Bookkeeping() == old(Bookkeeping())
    {
      traceInstructions := traceInstructions + [instr];
    }

    /** `next_trace_inst`: return the instruction at the trace position and
        move past it; at the end of the trace nothing moves. */
    method NextTraceInst() returns (r: Option<WarpInstruction>)
      requires Valid()
      modifies this
      ensures Valid()
      ensures r == old(CurrentInstr())
      ensures tracePc == if r.Some? then old(tracePc) + 1 else old(tracePc)
      ensures r.None? <==> old(Done())
      ensures traceInstructions == old(traceInstructions) && activeMask == old(activeMask)
      ensures Bookkeeping() == old(Bookkeeping())
    {
      if tracePc >= |traceInstructions| {
        return None;
      }
      r := Some(traceInstructions[tracePc]);
      tracePc := tracePc + 1;
    }

    function InstructionCount(): nat
      reads this
    {
      |traceInstructions|
    }

    /** `pc`: the program counter of the current instruction. */
    function Pc(): (r: Option<nat>)
      requires Valid()
      reads this, instrBuffer
      ensures r.Some? <==> !Done()
      ensures r.Some? ==> r.value == traceInstructions[tracePc].pc
    {
      if tracePc < |traceInstructions| then Some(traceInstructions[tracePc].pc) else None
    }

    /** `done`: the whole trace has been replayed. */
    predicate Done()
      reads this
    {
      tracePc == InstructionCount()
    }

    /** `clear`: forget the trace. */
    method Clear()
      requires Valid()
      modifies this
      ensures Valid() && Done() && tracePc == 0 && traceInstructions == []
      ensures activeMask == old(activeMask) && Bookkeeping() == old(Bookkeeping())
    {
      tracePc := 0;
      traceInstructions := [];
    }

    predicate StoresDone()
      reads this
    {
      numOutstandingStores == 0
    }

    /** `functional_done`: no thread of the warp is active. */
    predicate FunctionalDone()
      reads this
    {
      forall i :: 0 <= i < |activeMask| ==> !activeMask[i]
    }

    /** `hardware_done`: functionally done, with no store outstanding and
        no instruction in the pipeline. */
    predicate HardwareDone()
      reads this
    {
      FunctionalDone() && StoresDone() && numInstrInPipeline == 0
    }

    /** `num_completed`: the threads whose bit is cleared; all of them
        exactly when the warp is functionally done. */
    function NumCompleted(): (n: nat)
      requires Valid()
      reads this, instrBuffer
      ensures n <= TraceModel.WarpSize
      ensures n == TraceModel.WarpSize <==> FunctionalDone()
    {
      CountZerosAll(activeMask);
      CountZeros(activeMask)
    }

    /** `set_thread_completed`. */
    method SetThreadCompleted(threadId: nat)
      requires Valid() && threadId < TraceModel.WarpSize
      modifies this
      ensures Valid()
      ensures activeMask == old(activeMask)[threadId := false]
      ensures tracePc == old(tracePc) && traceInstructions == old(traceInstructions)
      ensures Bookkeeping() == old(Bookkeeping())
    {
      activeMask := activeMask[threadId := false];
    }

    /** `waiting`: a functionally done warp waits for a kernel; otherwise a
        warp waits exactly while atomics are outstanding. */
    predicate Waiting()
      reads this
    {
      if FunctionalDone() then true else numOutstandingAtomics > 0
    }
  }

  /** Completing a thread that was still active raises the completed
      count by one; completing one already completed changes nothing. */
  lemma {:induction false} CountZerosClear(m: seq<bool>, t: nat)
    requires t < |m|
    ensures CountZeros(m[t := false]) == CountZeros(m) + (if m[t] then 1 else 0)
    decreases |m|
  {
    var m' := m[t := false];
    if t < |m| - 1 {
      assert m'[..|m'| - 1] == m[..|m| - 1][t := false];
      CountZerosClear(m[..|m| - 1], t);
    } else {
      assert m'[..|m'| - 1] == m[..|m| - 1];
    }
  }

  /** Replaying a trace with `next_trace_inst` until it yields nothing
      returns the rest of the trace in order and leaves the warp done. */
  method ReplayTrace(w: Warp) returns (replayed: seq<WarpInstruction>)
    requires w.Valid()
    modifies w
    ensures w.Valid() && w.Done()
    ensures replayed == old(w.traceInstructions[w.tracePc..])
    ensures w.traceInstructions == old(w.traceInstructions)
  {
    replayed := [];
    var instr := w.NextTraceInst();
    while instr.Some?
      invariant w.Valid() && w.traceInstructions == old(w.traceInstructions)
      invariant instr.Some? ==> 0 < w.tracePc && instr.value == w.traceInstructions[w.tracePc - 1]
      invariant instr.None? ==> w.Done()
      invariant old(w.tracePc) <= w.tracePc
      invariant replayed + (if instr.Some? then [instr.value] else []) ==
                w.traceInstructions[old(w.tracePc)..w.tracePc]
      decreases |w.traceInstructions| - w.tracePc, instr.Some?
    {
      replayed := replayed + [instr.value];
      ghost var pc := w.tracePc;
      instr := w.NextTraceInst();
      assert w.traceInstructions[old(w.tracePc)..w.tracePc] ==
             w.traceInstructions[old(w.tracePc)..pc] + (if instr.Some? then [instr.value] else []);
    }
    assert w.tracePc == |w.traceInstructions|;
    assert w.traceInstructions[old(w.tracePc)..w.tracePc] == w.traceInstructions[old(w.tracePc)..];
  }
}
