/**
 * One warp scheduler of the reference shader core. Each cycle it walks
 * the warps in priority order, skips empty and exited ones, and lets the
 * first warp that can issue send up to `max_issue` instructions from its
 * instruction buffer to the execution units whose pipeline registers have
 * room; then it classifies the cycle for the statistics.
 */
module SchedulerUnit {
  import opened Wrappers
  import Warps

  /** The operation class of an instruction, as far as routing goes. */
  datatype Op = Load | Store | MemoryBarrier | TensorCoreLoad | TensorCoreStore
              | Sp | Alu | Dp | Sfu | AluSfu | TensorCore | Specialized(id: nat)

  /** `exec_unit_type_t`. */
  datatype Unit = NoUnit | Mem | SpUnit | IntUnit | DpUnit | SfuUnit | TensorUnit | SpecUnit

  datatype Config = Config(numSpUnits: nat, numIntUnits: nat, numDpUnits: nat, numSfuUnits: nat,
                           maxIssue: nat, diffExecUnits: bool)

  /** The units the issue loop can actually send to; the others sit in
      branches that throw. */
  const IssueUnits: set<Unit> := {Mem, SpUnit, IntUnit, SfuUnit}

  /** No two consecutive instructions went to the same unit. */
  predicate AdjacentDistinct(units: seq<Unit>)
  {
    forall k, l :: 0 <= k < |units| && 0 <= l < |units| && l == k + 1 ==> units[k] != units[l]
  }

  /** Where one instruction goes: to a unit, nowhere this cycle, or into
      a branch the source leaves unimplemented (it throws). */
  datatype Route = IssueTo(unit: Unit) | Stall | Unimplemented

  predicate IsMemOp(op: Op)
  {
    op == Load || op == Store || op == MemoryBarrier || op == TensorCoreLoad || op == TensorCoreStore
  }

  /** `has_free` of a unit's pipeline register: free slots are counted per
      unit. */
  predicate HasFree(free: map<Unit, nat>, u: Unit)
  {
    u in free && free[u] > 0
  }

  /** The routing chain of the issue loop for a hazard-free instruction,
      given the unit the previous instruction of the same warp went to. */
  function RouteOf(op: Op, cfg: Config, free: map<Unit, nat>, prev: Unit): (d: Route)
    ensures d.IssueTo? ==> d.unit != NoUnit && HasFree(free, d.unit)
    ensures d.IssueTo? && cfg.diffExecUnits ==> d.unit != prev
    ensures d.IssueTo? ==> (d.unit == Mem <==> IsMemOp(op))
    ensures d == IssueTo(IntUnit) ==> cfg.numIntUnits > 0 && op != Sp
    ensures d == IssueTo(SpUnit) ==> cfg.numSpUnits > 0 && (cfg.numIntUnits == 0 || op == Sp)
    ensures d == IssueTo(SfuUnit) ==> cfg.numSfuUnits > 0 && (op == Sfu || (op == Dp && cfg.numDpUnits == 0))
    ensures d.IssueTo? ==> d.unit in IssueUnits
  {
    var blocked := (u: Unit) => cfg.diffExecUnits && prev == u;
    if IsMemOp(op) then
      if HasFree(free, Mem) && !blocked(Mem) then IssueTo(Mem) else Stall
    else if op != TensorCore && op != Sfu && op != Dp && !op.Specialized? then
      var spAvail := cfg.numSpUnits > 0 && HasFree(free, SpUnit);
      var intAvail := cfg.numIntUnits > 0 && HasFree(free, IntUnit);
      if cfg.numIntUnits > 0 && intAvail && op != Sp && !blocked(IntUnit) then IssueTo(IntUnit)
      else if spAvail && (cfg.numIntUnits == 0 || op == Sp) && !blocked(SpUnit) then IssueTo(SpUnit)
      else Stall
    else if cfg.numDpUnits > 0 && op == Dp && !blocked(DpUnit) then Unimplemented
    else if ((cfg.numDpUnits == 0 && op == Dp) || op == Sfu || op == AluSfu) && !blocked(SfuUnit) then
      if cfg.numSfuUnits > 0 && HasFree(free, SfuUnit) then IssueTo(SfuUnit) else Stall
    else if op == TensorCore && !blocked(TensorUnit) then Unimplemented
    else if op.Specialized? && !blocked(SpecUnit) then Unimplemented
    else Stall
  }

  /** `ALU_SFU_OP` is caught by the SP/INT branch before the SFU branch
      that also names it, so it never reaches the SFU. */
  lemma AluSfuNeverOnSfu(cfg: Config, free: map<Unit, nat>, prev: Unit)
    ensures RouteOf(AluSfu, cfg, free, prev) != IssueTo(SfuUnit)
    ensures RouteOf(AluSfu, cfg, free, prev) != Unimplemented
  {
  }

  /** The scheduler's view of a warp: its instruction buffer (operation of
      each slot) and the position to issue from. */
  datatype IBuffer = IBuffer(slots: seq<Option<Op>>, next: nat)

  ghost predicate WfBuffer(b: IBuffer)
  {
    0 < |b.slots| && b.next < |b.slots|
  }

  predicate BufferEmpty(b: IBuffer)
  {
    forall i :: 0 <= i < |b.slots| ==> b.slots[i].None?
  }

  /** What the shader core answers about a warp during the cycle, as a
      function of how many instructions the warp has issued so far: whether
      it is waiting, and whether the scoreboard reports a collision for the
      instruction at the buffer position. */
  datatype WarpEnv = WarpEnv(waitingAfter: nat -> bool, collidesAfter: nat -> bool)

  /** Number of instructions sent to unit `u`. */
  function CountUnit(units: seq<Unit>, u: Unit): (n: nat)
    ensures n <= |units|
  {
    if |units| == 0 then 0
    else CountUnit(units[..|units| - 1], u) + (if units[|units| - 1] == u then 1 else 0)
  }

  /** What one warp did within a cycle. */
  datatype WarpIssue = WarpIssue(units: seq<Unit>, validInst: bool, readyInst: bool, panicked: bool,
                                 buf: IBuffer, free: map<Unit, nat>)

  /** The variables of the per-warp issue loop. */
  datatype IssueState = IssueState(checked: nat, units: seq<Unit>, prev: Unit, validInst: bool, readyInst: bool,
                                   buf: IBuffer, free: map<Unit, nat>)

  /** Every slot of the free units at the start is either still free or
      taken by one of the instructions sent. */
  ghost predicate FreeAccounted(free: map<Unit, nat>, f: map<Unit, nat>, units: seq<Unit>)
  {
    && f.Keys == free.Keys
    && forall u :: u in free ==> u in f && f[u] + CountUnit(units, u) == free[u]
  }

  /** The units sent to so far: issue units, the last one remembered as
      the previous unit, and no unit twice in a row when the configuration
      asks for different units. */
  ghost predicate UnitsIssued(cfg: Config, units: seq<Unit>, prev: Unit)
  {
    && (forall k :: 0 <= k < |units| ==> units[k] in IssueUnits)
    && (|units| > 0 ==> prev == units[|units| - 1])
    && (cfg.diffExecUnits ==> AdjacentDistinct(units))
  }

  lemma UnitsIssuedAppend(cfg: Config, units: seq<Unit>, prev: Unit, u: Unit)
    requires UnitsIssued(cfg, units, prev) && u in IssueUnits
    requires cfg.diffExecUnits && |units| > 0 ==> u != prev
    ensures UnitsIssued(cfg, units + [u], u)
  {
    var units' := units + [u];
    assert forall k :: 0 <= k < |units| ==> units'[k] == units[k];
  }

  /** What the loop keeps true, relative to the buffer and free slots at
      the start of the warp's turn. */
  ghost predicate IssueInv(cfg: Config, buf: IBuffer, free: map<Unit, nat>, s: IssueState)
  {
    && WfBuffer(s.buf) && |s.buf.slots| == |buf.slots|
    && |s.units| <= s.checked <= cfg.maxIssue
    && UnitsIssued(cfg, s.units, s.prev)
    && (|s.units| > 0 ==> s.readyInst)
    && (s.readyInst ==> s.validInst)
    && FreeAccounted(free, s.free, s.units)
    && Warps.CountFilled(s.buf.slots) + |s.units| == Warps.CountFilled(buf.slots)
    && (|s.units| == 0 ==> s.buf == buf && s.free == free)
  }

  /** Checking an instruction that does not issue only raises the check
      count and the two flags. */
  lemma CheckKeepsInv(cfg: Config, buf: IBuffer, free: map<Unit, nat>, s: IssueState, valid: bool, ready: bool)
    requires IssueInv(cfg, buf, free, s) && s.checked < cfg.maxIssue
    requires s.validInst ==> valid
    requires ready ==> valid
    requires s.readyInst ==> ready
    ensures IssueInv(cfg, buf, free, s.(checked := s.checked + 1, validInst := valid, readyInst := ready))
  {
  }

  /** Issuing to a free unit other than the previous one (when that is
      required) keeps the loop invariant. */
  lemma IssueKeepsInv(cfg: Config, buf: IBuffer, free: map<Unit, nat>, s: IssueState, u: Unit)
    requires IssueInv(cfg, buf, free, s) && s.checked < cfg.maxIssue
    requires s.buf.slots[s.buf.next].Some?
    requires HasFree(s.free, u) && u in IssueUnits
    requires cfg.diffExecUnits ==> u != s.prev
    ensures IssueInv(cfg, buf, free, IssueState(s.checked + 1, s.units + [u], u, true, true,
                                                IBuffer(s.buf.slots[s.buf.next := None], (s.buf.next + 1) % |s.buf.slots|),
                                                s.free[u := s.free[u] - 1]))
  {
    var units := s.units + [u];
    var b := IBuffer(s.buf.slots[s.buf.next := None], (s.buf.next + 1) % |s.buf.slots|);
    var f := s.free[u := s.free[u] - 1];
    assert WfBuffer(b) && |b.slots| == |buf.slots|;
    UnitsIssuedAppend(cfg, s.units, s.prev, u);
    Warps.FilledUpdate(s.buf.slots, s.buf.next, None);
    assert Warps.CountFilled(b.slots) + |units| == Warps.CountFilled(buf.slots);
    IssueAccounting(free, s.free, s.units, u);
    var s' := IssueState(s.checked + 1, units, u, true, true, b, f);
    assert |s'.units| <= s'.checked <= cfg.maxIssue;
  }

  /** One pass of the loop body: look at the instruction at the buffer
      position and, when it has no hazard, route it. The flag says that the
      route ran into a branch that throws. */
  function Step(cfg: Config, env: WarpEnv, s: IssueState): (IssueState, bool)
    requires WfBuffer(s.buf)
  {
    match s.buf.slots[s.buf.next]
    case None => (s.(checked := s.checked + 1), false)
    case Some(op) =>
      if env.collidesAfter(|s.units|) then (s.(checked := s.checked + 1, validInst := true), false)
      else match RouteOf(op, cfg, s.free, s.prev)
        case IssueTo(u) =>
          (IssueState(s.checked + 1, s.units + [u], u, true, true,
                      IBuffer(s.buf.slots[s.buf.next := None], (s.buf.next + 1) % |s.buf.slots|),
                      s.free[u := s.free[u] - 1]), false)
        case Stall => (s.(checked := s.checked + 1, validInst := true, readyInst := true), false)
        case Unimplemented => (s.(checked := s.checked + 1, validInst := true, readyInst := true), true)
  }

  /** The loop condition: the warp is not waiting, its buffer is not
      empty, every instruction checked so far issued and fewer than
      `max_issue` have been checked. */
  predicate Continues(cfg: Config, env: WarpEnv, s: IssueState)
  {
    !env.waitingAfter(|s.units|) && !BufferEmpty(s.buf) && s.checked < cfg.maxIssue
    && s.checked <= |s.units| && |s.units| < cfg.maxIssue
  }

  /** The rest of the per-warp issue loop from state `s`. */
  function Run(cfg: Config, env: WarpEnv, s: IssueState): WarpIssue
    requires WfBuffer(s.buf)
    decreases cfg.maxIssue - s.checked
  {
    if !Continues(cfg, env, s) then WarpIssue(s.units, s.validInst, s.readyInst, false, s.buf, s.free)
    else
      var (s', panicked) := Step(cfg, env, s);
      if panicked then WarpIssue(s'.units, s'.validInst, s'.readyInst, true, s'.buf, s'.free)
      else Run(cfg, env, s')
  }

  /** What one warp does in its turn, from a fresh loop state. */
  function IssueOf(cfg: Config, env: WarpEnv, buf: IBuffer, free: map<Unit, nat>): WarpIssue
    requires WfBuffer(buf)
  {
    Run(cfg, env, IssueState(0, [], NoUnit, false, false, buf, free))
  }

  /** Whether the loop body sends the head instruction to a unit. */
  predicate IssuesHead(cfg: Config, env: WarpEnv, s: IssueState)
    requires WfBuffer(s.buf)
  {
    && s.buf.slots[s.buf.next].Some? && !env.collidesAfter(|s.units|)
    && RouteOf(s.buf.slots[s.buf.next].value, cfg, s.free, s.prev).IssueTo?
  }

  /** One pass of the loop body keeps the loop invariant and raises the
      check count by one. */
  lemma StepKeepsInv(cfg: Config, env: WarpEnv, buf: IBuffer, free: map<Unit, nat>, s: IssueState)
    requires IssueInv(cfg, buf, free, s) && s.checked < cfg.maxIssue
    ensures IssueInv(cfg, buf, free, Step(cfg, env, s).0) && Step(cfg, env, s).0.checked == s.checked + 1
  {
    if IssuesHead(cfg, env, s) {
      IssueStepKeepsInv(cfg, env, buf, free, s);
    } else {
      CheckStepKeepsInv(cfg, env, buf, free, s);
    }
  }

  lemma IssueStepKeepsInv(cfg: Config, env: WarpEnv, buf: IBuffer, free: map<Unit, nat>, s: IssueState)
    requires IssueInv(cfg, buf, free, s) && s.checked < cfg.maxIssue && IssuesHead(cfg, env, s)
    ensures IssueInv(cfg, buf, free, Step(cfg, env, s).0) && Step(cfg, env, s).0.checked == s.checked + 1
  {
    var u := RouteOf(s.buf.slots[s.buf.next].value, cfg, s.free, s.prev).unit;
    IssueKeepsInv(cfg, buf, free, s, u);
    StepIssues(cfg, env, s);
  }

  /** The state after the loop body issues the head instruction. */
  lemma StepIssues(cfg: Config, env: WarpEnv, s: IssueState)
    requires WfBuffer(s.buf) && IssuesHead(cfg, env, s)
    ensures var u := RouteOf(s.buf.slots[s.buf.next].value, cfg, s.free, s.prev).unit;
      Step(cfg, env, s).0 ==
        IssueState(s.checked + 1, s.units + [u], u, true, true,
                   IBuffer(s.buf.slots[s.buf.next := None], (s.buf.next + 1) % |s.buf.slots|),
                   s.free[u := s.free[u] - 1])
  {
  }

  lemma CheckStepKeepsInv(cfg: Config, env: WarpEnv, buf: IBuffer, free: map<Unit, nat>, s: IssueState)
    requires IssueInv(cfg, buf, free, s) && s.checked < cfg.maxIssue && !IssuesHead(cfg, env, s)
    ensures IssueInv(cfg, buf, free, Step(cfg, env, s).0) && Step(cfg, env, s).0.checked == s.checked + 1
  {
    var s' := Step(cfg, env, s).0;
    assert s' == s.(checked := s.checked + 1, validInst := s'.validInst, readyInst := s'.readyInst);
    CheckKeepsInv(cfg, buf, free, s, s'.validInst, s'.readyInst);
  }

  /** The rest of the loop only appends to the units sent and never lowers
      the valid and ready flags. */
  lemma {:induction false} RunExtends(cfg: Config, env: WarpEnv, s: IssueState)
    requires WfBuffer(s.buf)
    ensures var o := Run(cfg, env, s);
      && |s.units| <= |o.units| && o.units[..|s.units|] == s.units
      && (s.validInst ==> o.validInst) && (s.readyInst ==> o.readyInst)
    decreases cfg.maxIssue - s.checked
  {
    if Continues(cfg, env, s) {
      var (s', panicked) := Step(cfg, env, s);
      assert |s.units| <= |s'.units| && s'.units[..|s.units|] == s.units;
      if !panicked {
        RunExtends(cfg, env, s');
        var o := Run(cfg, env, s');
        assert o.units[..|s.units|] == o.units[..|s'.units|][..|s.units|];
      }
    }
  }

  /** The first check decides whether a warp issues at all. A warp that is
      waiting, has an empty buffer or may issue nothing checks nothing; an
      empty head slot, a scoreboard collision or a stalled route ends the
      turn with nothing issued and the flags that check raised; a head
      instruction with a route is issued, first, to the unit it routes to
      with no previous unit. */
  lemma IssueFirstCheck(cfg: Config, env: WarpEnv, buf: IBuffer, free: map<Unit, nat>)
    requires WfBuffer(buf)
    ensures var o, starts := IssueOf(cfg, env, buf, free), !env.waitingAfter(0) && !BufferEmpty(buf) && cfg.maxIssue > 0;
      && (!starts ==> o == WarpIssue([], false, false, false, buf, free))
      && (starts && buf.slots[buf.next].None? ==> o == WarpIssue([], false, false, false, buf, free))
      && (starts && buf.slots[buf.next].Some? && env.collidesAfter(0) ==> o == WarpIssue([], true, false, false, buf, free))
      && (starts && buf.slots[buf.next].Some? && !env.collidesAfter(0) ==>
            var d := RouteOf(buf.slots[buf.next].value, cfg, free, NoUnit);
            && (d == Stall ==> o == WarpIssue([], true, true, false, buf, free))
            && (d == Unimplemented ==> o == WarpIssue([], true, true, true, buf, free))
            && (d.IssueTo? ==> |o.units| > 0 && o.units[0] == d.unit && o.validInst && o.readyInst))
  {
    var s := IssueState(0, [], NoUnit, false, false, buf, free);
    if Continues(cfg, env, s) {
      var (s', panicked) := Step(cfg, env, s);
      if buf.slots[buf.next].Some? && !env.collidesAfter(0) &&
         RouteOf(buf.slots[buf.next].value, cfg, free, NoUnit).IssueTo? {
        assert s'.units == [RouteOf(buf.slots[buf.next].value, cfg, free, NoUnit).unit] && s'.readyInst;
        RunExtends(cfg, env, s');
      } else if !panicked {
        // nothing issued in the first check, so the second is not made
        assert s'.units == [] && s'.checked == 1 && s'.buf == buf && s'.free == free;
        assert !Continues(cfg, env, s');
        assert Run(cfg, env, s) == Run(cfg, env, s');
      }
    }
  }

  /** The per-warp issue loop: it goes on while `Continues` holds. An
      issued instruction leaves its slot empty and the buffer steps to the
      next slot. */
  method IssueWarp(cfg: Config, env: WarpEnv, buf: IBuffer, free: map<Unit, nat>) returns (o: WarpIssue)
    requires WfBuffer(buf)
    ensures o == IssueOf(cfg, env, buf, free)
    ensures WfBuffer(o.buf) && |o.buf.slots| == |buf.slots|
    ensures |o.units| <= cfg.maxIssue
    ensures forall k :: 0 <= k < |o.units| ==> o.units[k] in IssueUnits
    ensures cfg.diffExecUnits ==> AdjacentDistinct(o.units)
    ensures |o.units| > 0 ==> o.readyInst
    ensures o.readyInst ==> o.validInst
    ensures forall u :: u in free ==> u in o.free && o.free[u] + CountUnit(o.units, u) == free[u]
    ensures o.free.Keys == free.Keys
    ensures Warps.CountFilled(o.buf.slots) + |o.units| == Warps.CountFilled(buf.slots)
    ensures |o.units| == 0 ==> o.buf == buf && o.free == free
  {
    var s := IssueState(0, [], NoUnit, false, false, buf, free);
    while Continues(cfg, env, s)
      invariant IssueInv(cfg, buf, free, s)
      invariant Run(cfg, env, s) == IssueOf(cfg, env, buf, free)
      decreases cfg.maxIssue - s.checked
    {
      StepKeepsInv(cfg, env, buf, free, s);
      var (s', panicked) := Step(cfg, env, s);
      if panicked {
        return WarpIssue(s'.units, s'.validInst, s'.readyInst, true, s'.buf, s'.free);
      }
      s := s';
    }
    o := WarpIssue(s.units, s.validInst, s.readyInst, false, s.buf, s.free);
  }

  /** Sending one more instruction to `u` moves one free slot of `u` into
      the count of instructions sent there. */
  lemma IssueAccounting(free: map<Unit, nat>, f: map<Unit, nat>, units: seq<Unit>, u: Unit)
    requires FreeAccounted(free, f, units) && HasFree(f, u)
    ensures FreeAccounted(free, f[u := f[u] - 1], units + [u])
  {
    assert (units + [u])[..|units|] == units;
  }

  /** An entry of the prioritised warp list: a null pointer, or a warp
      with its id, whether it exited, its dynamic id and its environment. */
  datatype SchedWarp = NullWarp | SchedWarp(warpId: nat, doneExit: bool, dynamicWarpId: nat, env: WarpEnv)

  /** `sort_warps_by_oldest_dynamic_id`: warps that exited or wait sort
      last, others by dynamic id; when either side is null the pointers
      are compared, null first. */
  predicate OlderFirst(lhs: SchedWarp, rhs: SchedWarp, lhsWaiting: bool, rhsWaiting: bool)
  {
    if lhs.SchedWarp? && rhs.SchedWarp? then
      if lhs.doneExit || lhsWaiting then false
      else if rhs.doneExit || rhsWaiting then true
      else lhs.dynamicWarpId < rhs.dynamicWarpId
    else lhs.NullWarp? && rhs.SchedWarp?
  }

  /** The comparator is a strict order: irreflexive, asymmetric and
      transitive. */
  lemma OlderFirstStrict(a: SchedWarp, b: SchedWarp, c: SchedWarp, wa: bool, wb: bool, wc: bool)
    ensures !OlderFirst(a, a, wa, wa)
    ensures OlderFirst(a, b, wa, wb) ==> !OlderFirst(b, a, wb, wa)
    ensures OlderFirst(a, b, wa, wb) && OlderFirst(b, c, wb, wc) ==> OlderFirst(a, c, wa, wc)
  {
  }

  /** How the statistics classify a cycle. */
  datatype CycleKind = Issued | Idle | RawHazard | PipelineStalled

  datatype CycleOutcome = CycleOutcome(issuedFrom: Option<nat>, numIssued: nat, kind: CycleKind,
                                       panicked: bool, bufs: seq<IBuffer>, free: map<Unit, nat>)

  /** A warp the issue loop looks at: not null and not exited. */
  predicate Live(w: SchedWarp)
  {
    w.SchedWarp? && !w.doneExit
  }

  /** The stall classification of a cycle in which nothing issued. */
  function StallKind(validInst: bool, readyInst: bool): CycleKind
  {
    if !validInst then Idle else if !readyInst then RawHazard else PipelineStalled
  }

  /** What every warp does when it gets its turn with the free slots at
      the start of the cycle; warps the loop skips do nothing. */
  function Outcomes(cfg: Config, warps: seq<SchedWarp>, bufs: seq<IBuffer>, free: map<Unit, nat>): (outs: seq<WarpIssue>)
    requires |bufs| == |warps| && forall i :: 0 <= i < |bufs| ==> WfBuffer(bufs[i])
    ensures |outs| == |warps|
    ensures forall j :: 0 <= j < |warps| ==>
      outs[j] == if Live(warps[j]) then IssueOf(cfg, warps[j].env, bufs[j], free) else WarpIssue([], false, false, false, bufs[j], free)
  {
    seq(|warps|, j requires 0 <= j < |warps| =>
      if Live(warps[j]) then IssueOf(cfg, warps[j].env, bufs[j], free) else WarpIssue([], false, false, false, bufs[j], free))
  }

  /** The rest of the walk over the prioritised warps from position `i`,
      given each warp's outcome and the valid and ready flags raised so
      far. The first live warp that issues (or throws) ends the walk. */
  function CycleFrom(warps: seq<SchedWarp>, outs: seq<WarpIssue>, bufs: seq<IBuffer>, free: map<Unit, nat>,
                     i: nat, validInst: bool, readyInst: bool): CycleOutcome
    requires |outs| == |warps| == |bufs| && i <= |warps|
    decreases |warps| - i
  {
    if i == |warps| then CycleOutcome(None, 0, StallKind(validInst, readyInst), false, bufs, free)
    else if !Live(warps[i]) then CycleFrom(warps, outs, bufs, free, i + 1, validInst, readyInst)
    else
      var o := outs[i];
      if o.panicked then
        CycleOutcome(if |o.units| > 0 then Some(i) else None, |o.units|, Issued, true,
                     if |o.units| > 0 then bufs[i := o.buf] else bufs, if |o.units| > 0 then o.free else free)
      else if |o.units| > 0 then CycleOutcome(Some(i), |o.units|, Issued, false, bufs[i := o.buf], o.free)
      else CycleFrom(warps, outs, bufs, free, i + 1, validInst || o.validInst, readyInst || o.readyInst)
  }

  /** The issuing warp is the first live warp in priority order that issues
      anything: every live warp before it issued nothing and did not throw,
      and the cycle's buffers and free slots are that warp's. */
  lemma {:induction false} CycleIssuerIsFirst(warps: seq<SchedWarp>, outs: seq<WarpIssue>, bufs: seq<IBuffer>,
                                              free: map<Unit, nat>, i: nat, validInst: bool, readyInst: bool)
    requires |outs| == |warps| == |bufs| && i <= |warps|
    ensures var r := CycleFrom(warps, outs, bufs, free, i, validInst, readyInst);
      r.issuedFrom.Some? ==>
        var k := r.issuedFrom.value;
        && i <= k < |warps| && Live(warps[k])
        && r.numIssued == |outs[k].units| > 0 && r.bufs == bufs[k := outs[k].buf] && r.free == outs[k].free
        && forall j :: i <= j < k && Live(warps[j]) ==> outs[j].units == [] && !outs[j].panicked
    decreases |warps| - i
  {
    if i < |warps| {
      if !Live(warps[i]) {
        CycleIssuerIsFirst(warps, outs, bufs, free, i + 1, validInst, readyInst);
      } else if !outs[i].panicked && |outs[i].units| == 0 {
        CycleIssuerIsFirst(warps, outs, bufs, free, i + 1, validInst || outs[i].validInst, readyInst || outs[i].readyInst);
      }
    }
  }

  /** A cycle in which nothing issued and nothing threw: no live warp
      issued, and the cycle counts as idle when no live warp had a valid
      instruction, as waiting for a RAW hazard when none had a ready one,
      and as a stalled pipeline otherwise. */
  lemma {:induction false} CycleStallKind(warps: seq<SchedWarp>, outs: seq<WarpIssue>, bufs: seq<IBuffer>,
                                          free: map<Unit, nat>, i: nat, validInst: bool, readyInst: bool)
    requires |outs| == |warps| == |bufs| && i <= |warps|
    ensures var r := CycleFrom(warps, outs, bufs, free, i, validInst, readyInst);
      r.issuedFrom.None? && !r.panicked ==>
        && r.numIssued == 0 && r.bufs == bufs && r.free == free
        && (forall j :: i <= j < |warps| && Live(warps[j]) ==> outs[j].units == [] && !outs[j].panicked)
        && r.kind == StallKind(validInst || exists j :: i <= j < |warps| && Live(warps[j]) && outs[j].validInst,
                               readyInst || exists j :: i <= j < |warps| && Live(warps[j]) && outs[j].readyInst)
    decreases |warps| - i
  {
    if i < |warps| {
      if !Live(warps[i]) {
        CycleStallKind(warps, outs, bufs, free, i + 1, validInst, readyInst);
      } else if !outs[i].panicked && |outs[i].units| == 0 {
        CycleStallKind(warps, outs, bufs, free, i + 1, validInst || outs[i].validInst, readyInst || outs[i].readyInst);
      }
    }
  }

  /** One scheduler cycle over the prioritised warps and their buffers. */
  method CycleWarps(cfg: Config, warps: seq<SchedWarp>, bufs: seq<IBuffer>, free: map<Unit, nat>)
    returns (r: CycleOutcome)
    requires |bufs| == |warps| && forall i :: 0 <= i < |bufs| ==> WfBuffer(bufs[i])
    ensures r == CycleFrom(warps, Outcomes(cfg, warps, bufs, free), bufs, free, 0, false, false)
    ensures |r.bufs| == |bufs|
    ensures r.issuedFrom.Some? ==>
      var i := r.issuedFrom.value;
      && i < |warps| && Live(warps[i])
      && 0 < r.numIssued <= cfg.maxIssue
      && (forall j :: 0 <= j < |bufs| && j != i ==> r.bufs[j] == bufs[j])
    ensures r.issuedFrom.None? ==> r.numIssued == 0 && r.bufs == bufs && r.free == free
    ensures !r.panicked ==> (r.kind == Issued <==> r.issuedFrom.Some?)
    ensures forall j :: 0 <= j < |warps| && !Live(warps[j]) ==> r.bufs[j] == bufs[j]
  {
    ghost var outs := Outcomes(cfg, warps, bufs, free);
    var validInst := false;
    var readyInst := false;
    var i := 0;
    while i < |warps|
      invariant 0 <= i <= |warps|
      invariant CycleFrom(warps, outs, bufs, free, i, validInst, readyInst) == CycleFrom(warps, outs, bufs, free, 0, false, false)
    {
      var w := warps[i];
      if Live(w) {
        var o := IssueWarp(cfg, w.env, bufs[i], free);
        validInst := validInst || o.validInst;
        readyInst := readyInst || o.readyInst;
        if o.panicked {
          var bs := bufs[i := o.buf];
          return CycleOutcome(if |o.units| > 0 then Some(i) else None, |o.units|, Issued, true,
                              if |o.units| > 0 then bs else bufs, if |o.units| > 0 then o.free else free);
        }
        if |o.units| > 0 {
          return CycleOutcome(Some(i), |o.units|, Issued, false, bufs[i := o.buf], o.free);
        }
      }
      i := i + 1;
    }
    r := CycleOutcome(None, 0, StallKind(validInst, readyInst), false, bufs, free);
  }

  /** `scheduler_unit`: the supervised warps and the counters one cycle
      updates. */
  class Scheduler {
    const id: nat
    const supervisedWarps: seq<nat>
    var lastSupervisedIssued: nat
    var numIssuedLastCycle: nat
    var singleIssueNums: nat
    var dualIssueNums: nat
    var cycleDistro: seq<nat>

    ghost predicate Valid()
      reads this
    {
      |cycleDistro| == 3
    }

    constructor (id: nat, supervisedWarps: seq<nat>)
      ensures Valid() && this.id == id && this.supervisedWarps == supervisedWarps
      ensures lastSupervisedIssued == 0 && numIssuedLastCycle == 0
      ensures singleIssueNums == 0 && dualIssueNums == 0 && cycleDistro == [0, 0, 0]
    {
      this.id := id;
      this.supervisedWarps := supervisedWarps;
      lastSupervisedIssued := 0;
      numIssuedLastCycle := 0;
      singleIssueNums := 0;
      dualIssueNums := 0;
      cycleDistro := [0, 0, 0];
    }

    /** `cycle` after `order_warps`: issue, then record the issuing warp's
        position among the supervised warps, count a single or a dual
        issue, or count the stall in the first of idle, RAW hazard and
        pipeline stall that applies. */
    method Cycle(cfg: Config, warps: seq<SchedWarp>, bufs: seq<IBuffer>, free: map<Unit, nat>)
      returns (r: CycleOutcome)
      requires Valid()
      requires |bufs| == |warps| && forall i :: 0 <= i < |bufs| ==> WfBuffer(bufs[i])
      modifies this
      ensures Valid()
      ensures r.issuedFrom.Some? ==> r.issuedFrom.value < |warps| && Live(warps[r.issuedFrom.value]) && 0 < r.numIssued <= cfg.maxIssue
      ensures !r.panicked && r.numIssued == 1 ==> singleIssueNums == old(singleIssueNums) + 1 && dualIssueNums == old(dualIssueNums)
      ensures !r.panicked && r.numIssued > 1 ==> dualIssueNums == old(dualIssueNums) + 1 && singleIssueNums == old(singleIssueNums)
      ensures !r.panicked && r.numIssued > 0 ==> numIssuedLastCycle == r.numIssued && cycleDistro == old(cycleDistro)
      ensures !r.panicked && r.numIssued == 0 ==>
        && singleIssueNums == old(singleIssueNums) && dualIssueNums == old(dualIssueNums)
        && numIssuedLastCycle == old(numIssuedLastCycle)
        && cycleDistro == old(cycleDistro)[StallIndex(r.kind) := old(cycleDistro)[StallIndex(r.kind)] + 1]
      ensures r == CycleFrom(warps, Outcomes(cfg, warps, bufs, free), bufs, free, 0, false, false)
      ensures r.panicked ==>
        && lastSupervisedIssued == old(lastSupervisedIssued) && numIssuedLastCycle == old(numIssuedLastCycle)
        && singleIssueNums == old(singleIssueNums) && dualIssueNums == old(dualIssueNums) && cycleDistro == old(cycleDistro)
      ensures r.panicked || r.issuedFrom.None? ==> lastSupervisedIssued == old(lastSupervisedIssued)
      ensures !r.panicked && r.issuedFrom.Some? ==>
        var w := warps[r.issuedFrom.value].warpId;
        && ((exists k :: 0 <= k < |supervisedWarps| && supervisedWarps[k] == w) ==>
              && lastSupervisedIssued < |supervisedWarps| && supervisedWarps[lastSupervisedIssued] == w
              && forall k :: lastSupervisedIssued < k < |supervisedWarps| ==> supervisedWarps[k] != w)
        && (!(exists k :: 0 <= k < |supervisedWarps| && supervisedWarps[k] == w) ==>
              lastSupervisedIssued == old(lastSupervisedIssued))
    {
      r := CycleWarps(cfg, warps, bufs, free);
      if r.panicked {
        return;
      }
      if r.issuedFrom.Some? {
        var warpId := warps[r.issuedFrom.value].warpId;
        var k := 0;
        while k < |supervisedWarps|
          invariant 0 <= k <= |supervisedWarps|
          invariant (exists j :: 0 <= j < k && supervisedWarps[j] == warpId) ==>
                      && lastSupervisedIssued < k && supervisedWarps[lastSupervisedIssued] == warpId
                      && forall j :: lastSupervisedIssued < j < k ==> supervisedWarps[j] != warpId
          invariant !(exists j :: 0 <= j < k && supervisedWarps[j] == warpId) ==>
                      lastSupervisedIssued == old(lastSupervisedIssued)
          invariant cycleDistro == old(cycleDistro) && singleIssueNums == old(singleIssueNums)
          invariant dualIssueNums == old(dualIssueNums)
        {
          if supervisedWarps[k] == warpId {
            lastSupervisedIssued := k;
          }
          k := k + 1;
        }
        numIssuedLastCycle := r.numIssued;
        if r.numIssued == 1 {
          singleIssueNums := singleIssueNums + 1;
        } else {
          dualIssueNums := dualIssueNums + 1;
        }
      } else {
        var s := StallIndex(r.kind);
        cycleDistro := cycleDistro[s := cycleDistro[s] + 1];
      }
    }
  }

  /** The slot of `shader_cycle_distro` a stalled cycle counts in. */
  function StallIndex(k: CycleKind): (n: nat)
    ensures n < 3
    ensures k == Idle ==> n == 0
    ensures k == RawHazard ==> n == 1
    ensures k == PipelineStalled ==> n == 2
  {
    match k
    case Idle => 0
    case RawHazard => 1
    case PipelineStalled => 2
    case Issued => 2
  }

  /** With at most two instructions per warp and cycle and dual issue to
      different units, the instructions of one warp in a cycle go to
      pairwise different unit types. */
  lemma DualIssueDistinct(cfg: Config, units: seq<Unit>)
    requires cfg.maxIssue <= 2 && |units| <= cfg.maxIssue
    requires cfg.diffExecUnits ==> AdjacentDistinct(units)
    ensures cfg.diffExecUnits ==> forall k, l :: 0 <= k < l < |units| ==> units[k] != units[l]
  {
  }
}
