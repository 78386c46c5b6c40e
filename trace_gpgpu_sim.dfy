/**
 * The top-level control of the reference simulator: the slots of running
 * kernels and the choice of the kernel that issues next, the four clock
 * domains, the per-kernel statistics folded into the totals, the rotation
 * over the SIMT clusters that issue thread blocks, the conditions under
 * which simulation goes on, and the bookkeeping of a copy to device memory.
 */
module TraceGpgpuSim {
  import opened Wrappers
  import opened Arith

  // ---------------------------------------------------------------------
  // Device memory allocations and copies

  /** One copy destination: `[startAddr, endAddr)` under id `id`. */
  datatype Allocation = Allocation(id: nat, startAddr: nat, endAddr: nat)

  /** `Allocation::contains`. */
  predicate Contains(a: Allocation, addr: nat)
  {
    a.startAddr <= addr && addr < a.endAddr
  }

  /** One 32-byte chunk of a copy: its address and the sector of its
      128-byte line. */
  datatype Chunk = Chunk(addr: nat, sector: nat)

  const ChunkSize: nat := 32
  const LineSize: nat := 128

  /** The chunk the copy writes at byte offset `counter`. */
  function ChunkAt(dst: nat, counter: nat): Chunk
  {
    Chunk(dst + counter, (dst + counter) % LineSize / ChunkSize)
  }

  /** The chunks of a copy of `count` bytes to `dst`, one per 32 bytes
      started, in address order. */
  function Chunks(dst: nat, count: nat): (r: seq<Chunk>)
    ensures |r| == (count + ChunkSize - 1) / ChunkSize
    ensures forall i :: 0 <= i < |r| ==> r[i] == ChunkAt(dst, i * ChunkSize)
    decreases count
  {
    if count == 0 then []
    else if count <= ChunkSize then [ChunkAt(dst, 0)]
    else
      var rest := Chunks(dst + ChunkSize, count - ChunkSize);
      assert forall i :: 0 <= i < |rest| ==> rest[i] == ChunkAt(dst, (i + 1) * ChunkSize);
      [ChunkAt(dst, 0)] + rest
  }

  /** Every chunk starts inside the new allocation, names one of the four
      sectors of its line, and every byte of the copy lies in exactly the
      chunk `(byte - dst) / 32`. */
  lemma ChunksCoverCopy(dst: nat, count: nat, id: nat)
    ensures var r := Chunks(dst, count);
      forall i :: 0 <= i < |r| ==> Contains(Allocation(id, dst, dst + count), r[i].addr) && r[i].sector < 4
    ensures var r := Chunks(dst, count);
      forall b :: dst <= b < dst + count ==>
        ChunkIndex(dst, b) < |r| && r[ChunkIndex(dst, b)].addr <= b < r[ChunkIndex(dst, b)].addr + ChunkSize
  {
    var r := Chunks(dst, count);
    forall i | 0 <= i < |r|
      ensures i * ChunkSize < count
    {
      var n := (count + ChunkSize - 1) / ChunkSize;
      assert n * ChunkSize <= count + ChunkSize - 1;
      MulBounds(n - i, ChunkSize);
    }
    forall b | dst <= b < dst + count
      ensures ChunkIndex(dst, b) < |r| && r[ChunkIndex(dst, b)].addr <= b < r[ChunkIndex(dst, b)].addr + ChunkSize
    {
      var i := ChunkIndex(dst, b);
      var n := (count + ChunkSize - 1) / ChunkSize;
      assert i * ChunkSize <= b - dst < i * ChunkSize + ChunkSize;
      assert (count + ChunkSize - 1) - n * ChunkSize < ChunkSize;
      if i >= n {
        MulBounds(i - n + 1, ChunkSize);
      }
    }
  }

  /** The chunk a byte of the copy falls in. */
  function ChunkIndex(dst: nat, b: nat): nat
    requires dst <= b
  {
    (b - dst) / ChunkSize
  }

  /** The allocation `perf_memcpy_to_gpu` records: id zero is reserved for
      instructions, so the `n`-th allocation gets id `n`. */
  function NewAllocation(existing: nat, dst: nat, count: nat): (a: Allocation)
    ensures a.id > 0 && a.id == existing + 1
    ensures forall addr: nat :: Contains(a, addr) <==> dst <= addr < dst + count
  {
    Allocation(existing + 1, dst, dst + count)
  }

  // ---------------------------------------------------------------------
  // Elapsed-time decomposition of the liveness message

  /** The elapsed wall-clock seconds: at least one. */
  function ElapsedSeconds(now: int, start: int): (t: nat)
    ensures t >= 1 && t >= now - start
  {
    if now - start > 1 then now - start else 1
  }

  /** Days, hours, minutes and seconds of `t` seconds, computed with the
      subtractions of the liveness message. */
  function ElapsedParts(t: nat): (r: (int, int, int, int))
  {
    var days := t / (3600 * 24);
    var hrs := t / 3600 - 24 * days;
    var minutes := t / 60 - 60 * (hrs + 24 * days);
    var sec := t - 60 * (minutes + 60 * (hrs + 24 * days));
    (days, hrs, minutes, sec)
  }

  /** The parts are in range and add back up to `t`. */
  lemma ElapsedPartsInRange(t: nat)
    ensures var (d, h, m, s) := ElapsedParts(t);
      && d >= 0 && 0 <= h < 24 && 0 <= m < 60 && 0 <= s < 60
      && d * 86400 + h * 3600 + m * 60 + s == t
  {
    var days := t / 86400;
    var hours := t / 3600;
    var mins := t / 60;
    assert hours / 24 == days by {
      DivDiv(t, 3600, 24);
    }
    assert mins / 60 == hours by {
      DivDiv(t, 60, 60);
    }
  }

  // ---------------------------------------------------------------------
  // Clock domains

  /** The domains one call of `next_clock_domain` selects. */
  datatype Domains = Domains(l2: bool, icnt: bool, dram: bool, core: bool)

  /** The four domain times: core, interconnect, DRAM and L2. */
  datatype Clocks = Clocks(core: int, icnt: int, dram: int, l2: int)

  function Min(a: int, b: int): int { if a <= b then a else b }

  /** The earliest of the four times. */
  function Earliest(c: Clocks): (m: int)
    ensures m <= c.core && m <= c.icnt && m <= c.dram && m <= c.l2
    ensures m == c.core || m == c.icnt || m == c.dram || m == c.l2
  {
    Min(Min(Min(c.core, c.icnt), c.dram), c.l2)
  }

  /** The periods of the four domains. */
  datatype Periods = Periods(core: int, icnt: int, dram: int, l2: int)

  /** `next_clock_domain` on the times alone: it compares L2 with the
      least of the other three and then each of those with the result. */
  method NextClockDomainOf(c: Clocks, p: Periods) returns (mask: Domains, c': Clocks)
    ensures mask.l2 <==> c.l2 == Earliest(c)
    ensures mask.icnt <==> c.icnt == Earliest(c)
    ensures mask.dram <==> c.dram == Earliest(c)
    ensures mask.core <==> c.core == Earliest(c)
    ensures mask.l2 || mask.icnt || mask.dram || mask.core
    ensures c'.l2 == (if mask.l2 then c.l2 + p.l2 else c.l2)
    ensures c'.icnt == (if mask.icnt then c.icnt + p.icnt else c.icnt)
    ensures c'.dram == (if mask.dram then c.dram + p.dram else c.dram)
    ensures c'.core == (if mask.core then c.core + p.core else c.core)
  {
    var smallest := Min(Min(c.core, c.icnt), c.dram);
    mask := Domains(false, false, false, false);
    c' := c;
    if c.l2 <= smallest {
      smallest := c.l2;
      mask := mask.(l2 := true);
      c' := c'.(l2 := c.l2 + p.l2);
    }
    if c.icnt <= smallest {
      mask := mask.(icnt := true);
      c' := c'.(icnt := c.icnt + p.icnt);
    }
    if c.dram <= smallest {
      mask := mask.(dram := true);
      c' := c'.(dram := c.dram + p.dram);
    }
    if c.core <= smallest {
      mask := mask.(core := true);
      c' := c'.(core := c.core + p.core);
    }
  }

  /** With positive periods the earliest time strictly advances on every
      call: each domain at the minimum moves past it and the others were
      already past it. */
  lemma {:induction false} ClocksAdvance(c: Clocks, p: Periods, mask: Domains, c': Clocks)
    requires p.core > 0 && p.icnt > 0 && p.dram > 0 && p.l2 > 0
    requires mask.l2 <==> c.l2 == Earliest(c)
    requires mask.icnt <==> c.icnt == Earliest(c)
    requires mask.dram <==> c.dram == Earliest(c)
    requires mask.core <==> c.core == Earliest(c)
    requires c'.l2 == (if mask.l2 then c.l2 + p.l2 else c.l2)
    requires c'.icnt == (if mask.icnt then c.icnt + p.icnt else c.icnt)
    requires c'.dram == (if mask.dram then c.dram + p.dram else c.dram)
    requires c'.core == (if mask.core then c.core + p.core else c.core)
    ensures Earliest(c') > Earliest(c)
  {
    var m := Earliest(c);
    assert c'.core > m && c'.icnt > m && c'.dram > m && c'.l2 > m;
  }

  // ---------------------------------------------------------------------
  // Kernels

  /** What the control loop sees of a launched kernel: its launch uid,
      whether it is done, whether thread blocks remain to be issued
      (the negation of `no_more_ctas_to_run`), its remaining launch
      latency, its block size and the cycle it was first selected. */
  datatype Kernel = Kernel(uid: nat, done: bool, moreCtas: bool, latency: nat, threadsPerCta: nat, startCycle: nat)

  /** A slot a new kernel may take: empty or holding a finished kernel. */
  predicate Free(slot: Option<Kernel>)
  {
    slot.None? || slot.value.done
  }

  /** The first slot a new kernel may take. */
  function FirstFree(s: seq<Option<Kernel>>): (r: Option<nat>)
    ensures r.Some? ==> r.value < |s| && Free(s[r.value]) && forall j :: 0 <= j < r.value ==> !Free(s[j])
    ensures r.None? <==> forall j :: 0 <= j < |s| ==> !Free(s[j])
  {
    if s == [] then None
    else if Free(s[0]) then Some(0)
    else match FirstFree(s[1..])
      case None => None
      case Some(i) => Some(i + 1)
  }

  /** A slot's kernel after `decrement_kernel_latency`. */
  function Decremented(slot: Option<Kernel>): (r: Option<Kernel>)
  {
    if slot.Some? && slot.value.latency > 0 then Some(slot.value.(latency := slot.value.latency - 1)) else slot
  }

  /** Only a kernel's latency changes, and only a nonzero one, by one. */
  lemma DecrementedLowersLatency(slot: Option<Kernel>)
    ensures Decremented(slot).Some? == slot.Some?
    ensures slot.Some? ==> var k, k' := slot.value, Decremented(slot).value;
      && k'.uid == k.uid && k'.done == k.done && k'.moreCtas == k.moreCtas && k'.startCycle == k.startCycle
      && k'.latency == (if k.latency > 0 then k.latency - 1 else 0)
  {
  }

  /** `decrement_kernel_latency` on the slots. */
  method DecrementAll(s: seq<Option<Kernel>>) returns (s': seq<Option<Kernel>>)
    ensures |s'| == |s| && forall n :: 0 <= n < |s| ==> s'[n] == Decremented(s[n])
  {
    s' := s;
    var n := 0;
    while n < |s'|
      invariant 0 <= n <= |s'| == |s|
      invariant forall j :: 0 <= j < n ==> s'[j] == Decremented(s[j])
      invariant forall j :: n <= j < |s| ==> s'[j] == s[j]
    {
      if s'[n].Some? && s'[n].value.latency > 0 {
        s' := s'[n := Some(s'[n].value.(latency := s'[n].value.latency - 1))];
      }
      n := n + 1;
    }
  }

  /** No uid occurs twice. */
  predicate NoDuplicates(s: seq<nat>)
  {
    forall i, j :: 0 <= i < j < |s| ==> s[i] != s[j]
  }

  /** The slot `n` steps into the round-robin scan after slot `last`. */
  function ScanSlot(n: nat, last: nat, size: nat): nat
    requires size > 0
  {
    (n + last + 1) % size
  }

  /** A kernel `select_kernel` may pick in its scan: `kernel_more_cta_left`
      and a zero latency. */
  predicate Selectable(slot: Option<Kernel>, hitMaxCta: bool)
  {
    !hitMaxCta && slot.Some? && slot.value.moreCtas && slot.value.latency == 0
  }

  /** The first selectable slot among the first `k` of the scan after
      `last`. */
  function RoundRobinPick(s: seq<Option<Kernel>>, last: nat, k: nat, hitMaxCta: bool): (r: Option<nat>)
    requires |s| > 0 && k <= |s|
    ensures r.Some? ==> r.value < |s| && Selectable(s[r.value], hitMaxCta)
    ensures r.None? <==> forall j :: 0 <= j < k ==> !Selectable(s[ScanSlot(j, last, |s|)], hitMaxCta)
  {
    if k == 0 then None
    else
      var prev := RoundRobinPick(s, last, k - 1, hitMaxCta);
      if prev.Some? then prev
      else if Selectable(s[ScanSlot(k - 1, last, |s|)], hitMaxCta) then Some(ScanSlot(k - 1, last, |s|))
      else None
  }

  /** The pick is the first selectable slot of the scan. */
  lemma {:induction false} RoundRobinPickFirst(s: seq<Option<Kernel>>, last: nat, k: nat, hitMaxCta: bool)
    requires |s| > 0 && k <= |s| && RoundRobinPick(s, last, k, hitMaxCta).Some?
    ensures exists n :: (0 <= n < k && RoundRobinPick(s, last, k, hitMaxCta).value == ScanSlot(n, last, |s|) &&
                         forall j :: 0 <= j < n ==> !Selectable(s[ScanSlot(j, last, |s|)], hitMaxCta))
  {
    if RoundRobinPick(s, last, k - 1, hitMaxCta).Some? {
      RoundRobinPickFirst(s, last, k - 1, hitMaxCta);
    } else {
      assert RoundRobinPick(s, last, k, hitMaxCta).value == ScanSlot(k - 1, last, |s|);
    }
  }

  /** The last-issued kernel is kept while it has blocks left and no
      latency; the cap on issued blocks is not consulted here. */
  predicate KeepsLast(s: seq<Option<Kernel>>, last: nat)
  {
    last < |s| && s[last].Some? && s[last].value.moreCtas && s[last].value.latency == 0
  }

  // ---------------------------------------------------------------------
  // Cluster rotation

  /** The cluster visited `i` steps into `issue_block2core`'s rotation. */
  function ClusterAt(i: nat, last: nat, n: nat): nat
    requires n > 0
  {
    (i + last + 1) % n
  }

  /** Blocks issued over the first `k` steps of the rotation. */
  function RotationSum(issued: seq<nat>, last: nat, k: nat): nat
    requires |issued| > 0 && k <= |issued|
  {
    if k == 0 then 0 else RotationSum(issued, last, k - 1) + issued[ClusterAt(k - 1, last, |issued|)]
  }

  /** The sum of `issued[lo..hi]`. */
  function SumRange(issued: seq<nat>, lo: nat, hi: nat): nat
    requires lo <= hi <= |issued|
    decreases hi - lo
  {
    if lo == hi then 0 else issued[lo] + SumRange(issued, lo + 1, hi)
  }

  lemma {:induction false} SumRangeSplit(issued: seq<nat>, lo: nat, mid: nat, hi: nat)
    requires lo <= mid <= hi <= |issued|
    ensures SumRange(issued, lo, hi) == SumRange(issued, lo, mid) + SumRange(issued, mid, hi)
    decreases mid - lo
  {
    if lo < mid {
      SumRangeSplit(issued, lo + 1, mid, hi);
    }
  }

  /** The first `k` steps of the rotation from `start` cover
      `issued[start..start + k]` and then wrap to the front. */
  lemma {:induction false} RotationSumSplit(issued: seq<nat>, last: nat, k: nat)
    requires |issued| > 0 && k <= |issued|
    ensures var n, start := |issued|, (last + 1) % |issued|;
      RotationSum(issued, last, k) ==
        if start + k <= n then SumRange(issued, start, start + k)
        else SumRange(issued, start, n) + SumRange(issued, 0, start + k - n)
  {
    var n, start := |issued|, (last + 1) % |issued|;
    if k > 0 {
      RotationSumSplit(issued, last, k - 1);
      ClusterAtUnwrapped(k - 1, last, n);
      if start + k <= n {
        SumRangeSplit(issued, start, start + k - 1, start + k);
      } else {
        if start + k - 1 == n {
          SumRangeSplit(issued, 0, 0, 1);
        } else {
          SumRangeSplit(issued, 0, start + k - 1 - n, start + k - n);
        }
      }
    }
  }

  /** Step `i` of the rotation from `last` without the remainder. */
  lemma ClusterAtUnwrapped(i: nat, last: nat, n: nat)
    requires i < n
    ensures var start := (last + 1) % n;
      ClusterAt(i, last, n) == if start + i < n then start + i else start + i - n
  {
    var start := (last + 1) % n;
    var q := (last + 1) / n;
    assert i + last + 1 == (start + i) + q * n;
    AddMultiple(start + i, q, n);
    if start + i < n {
      ModUnique(start + i, n, 0, start + i);
    } else {
      ModUnique(start + i, n, 1, start + i - n);
    }
  }

  /** Every cluster is visited once: the rotation adds up all blocks. */
  lemma RotationSumIsTotal(issued: seq<nat>, last: nat)
    requires |issued| > 0
    ensures RotationSum(issued, last, |issued|) == SumRange(issued, 0, |issued|)
  {
    var n, start := |issued|, (last + 1) % |issued|;
    RotationSumSplit(issued, last, n);
    if start > 0 {
      SumRangeSplit(issued, 0, start, n);
    }
  }

  /** The last cluster, within the first `k` steps of the rotation, that
      issued blocks. */
  function LastIssuer(issued: seq<nat>, last: nat, k: nat): (r: Option<nat>)
    requires |issued| > 0 && k <= |issued|
    ensures r.Some? ==> r.value < |issued| && issued[r.value] > 0
    ensures r.None? <==> forall i :: 0 <= i < k ==> issued[ClusterAt(i, last, |issued|)] == 0
  {
    if k == 0 then None
    else if issued[ClusterAt(k - 1, last, |issued|)] > 0 then Some(ClusterAt(k - 1, last, |issued|))
    else LastIssuer(issued, last, k - 1)
  }

  /** The statistics counters `update_stats` folds: simulated cycles and
      instructions, launched blocks, and the partition-parallelism
      counters. */
  datatype Counters = Counters(simCycle: nat, simInsn: nat, ctaLaunched: nat, reqsInParallel: nat,
                               replysInParallel: nat, reqsInParallelUtil: nat, simCycleUtil: nat)

  const NoCounts := Counters(0, 0, 0, 0, 0, 0, 0)

  /** Field-wise sums. */
  function AddCounters(a: Counters, b: Counters): Counters
  {
    Counters(a.simCycle + b.simCycle, a.simInsn + b.simInsn, a.ctaLaunched + b.ctaLaunched,
             a.reqsInParallel + b.reqsInParallel, a.replysInParallel + b.replysInParallel,
             a.reqsInParallelUtil + b.reqsInParallelUtil, a.simCycleUtil + b.simCycleUtil)
  }

  /** The simulator's control state. Kernels are held by value in their
      slots: a slot's kernel is the only copy the control loop updates. */
  class Simulator {
    const maxConcurrentKernel: nat
    const nThreadPerShader: nat
    const nClusters: nat
    const maxCycle: nat
    const maxInsn: nat
    const maxCta: nat
    const maxCompletedCta: nat
    const deadlockDetect: bool
    const periods: Periods
    /** The memory configuration's `m_perf_sim_memcpy`: copies are sent
        to the memory partitions. */
    const perfSimMemcpy: bool

    var running: seq<Option<Kernel>>
    var lastIssuedKernel: nat
    var lastClusterIssue: nat
    var executedUids: seq<nat>
    var finishedUids: seq<nat>
    var allocations: seq<Allocation>
    var clocks: Clocks
    var deadlock: bool

    /** The counters of the current kernel and their totals. */
    var current: Counters
    var totals: Counters
    var completedCta: nat

    ghost predicate Valid()
      reads this
    {
      |running| == maxConcurrentKernel > 0 && lastIssuedKernel < |running| && NoDuplicates(executedUids)
    }

    /** A simulator with every kernel slot empty. */
    constructor (maxConcurrentKernel: nat, nThreadPerShader: nat, nClusters: nat, maxCycle: nat, maxInsn: nat,
                 maxCta: nat, maxCompletedCta: nat, deadlockDetect: bool, periods: Periods, perfSimMemcpy: bool)
      requires maxConcurrentKernel > 0
      ensures Valid()
      ensures this.maxConcurrentKernel == maxConcurrentKernel && this.nThreadPerShader == nThreadPerShader
      ensures this.nClusters == nClusters && this.maxCycle == maxCycle && this.maxInsn == maxInsn
      ensures this.maxCta == maxCta && this.maxCompletedCta == maxCompletedCta
      ensures this.deadlockDetect == deadlockDetect && this.periods == periods && this.perfSimMemcpy == perfSimMemcpy
      ensures running == seq(maxConcurrentKernel, _ => None) && executedUids == [] && finishedUids == []
      ensures allocations == [] && !deadlock && current == NoCounts && totals == NoCounts && completedCta == 0
    {
      this.maxConcurrentKernel := maxConcurrentKernel;
      this.nThreadPerShader := nThreadPerShader;
      this.nClusters := nClusters;
      this.maxCycle := maxCycle;
      this.maxInsn := maxInsn;
      this.maxCta := maxCta;
      this.maxCompletedCta := maxCompletedCta;
      this.deadlockDetect := deadlockDetect;
      this.periods := periods;
      this.perfSimMemcpy := perfSimMemcpy;
      running := seq(maxConcurrentKernel, _ => None);
      lastIssuedKernel := 0;
      lastClusterIssue := 0;
      executedUids := [];
      finishedUids := [];
      allocations := [];
      clocks := Clocks(0, 0, 0, 0);
      deadlock := false;
      current, totals, completedCta := NoCounts, NoCounts, 0;
    }

    /** `init`: the per-kernel counters and the four clocks start again
        from zero. */
    method Init()
      modifies this
      ensures current == NoCounts && completedCta == 0 && clocks == Clocks(0, 0, 0, 0)
      ensures totals == old(totals) && running == old(running) && lastIssuedKernel == old(lastIssuedKernel)
      ensures executedUids == old(executedUids) && finishedUids == old(finishedUids)
      ensures lastClusterIssue == old(lastClusterIssue) && allocations == old(allocations) && deadlock == old(deadlock)
    {
      current, completedCta := NoCounts, 0;
      clocks := Clocks(0, 0, 0, 0);
    }

    /** `perf_memcpy_to_gpu`: records the destination as a new allocation
        and, when copies are simulated, returns the 32-byte chunks written
        to the memory partitions; otherwise none. */
    method PerfMemcpyToGpu(dst: nat, count: nat) returns (chunks: seq<Chunk>)
      modifies this
      ensures allocations == old(allocations) + [NewAllocation(|old(allocations)|, dst, count)]
      ensures chunks == if perfSimMemcpy then Chunks(dst, count) else []
      ensures running == old(running) && lastIssuedKernel == old(lastIssuedKernel) && executedUids == old(executedUids)
      ensures finishedUids == old(finishedUids) && lastClusterIssue == old(lastClusterIssue) && clocks == old(clocks)
      ensures deadlock == old(deadlock) && current == old(current) && totals == old(totals) && completedCta == old(completedCta)
    {
      allocations := allocations + [NewAllocation(|allocations|, dst, count)];
      chunks := [];
      if !perfSimMemcpy {
        return;
      }
      var counter := 0;
      while counter < count
        invariant counter % ChunkSize == 0
        invariant counter <= count + ChunkSize - 1
        invariant chunks == Chunks(dst, count)[..counter / ChunkSize]
        invariant counter < count ==> counter / ChunkSize < |Chunks(dst, count)|
        decreases count - counter
      {
        chunks := chunks + [ChunkAt(dst, counter)];
        counter := counter + ChunkSize;
      }
    }

    /** `can_start_kernel`: some slot is empty or holds a finished
        kernel. */
    method CanStartKernel() returns (r: bool)
      ensures r <==> exists n :: 0 <= n < |running| && Free(running[n])
    {
      var n := 0;
      while n < |running|
        invariant 0 <= n <= |running|
        invariant forall j :: 0 <= j < n ==> !Free(running[j])
      {
        if running[n].None? || running[n].value.done {
          return true;
        }
        n := n + 1;
      }
      return false;
    }

    /** `launch`: a kernel whose blocks are larger than a shader aborts
        the simulation; otherwise it takes the first free slot, which must
        exist. */
    method Launch(k: Kernel) returns (aborted: bool)
      requires Valid()
      requires k.threadsPerCta <= nThreadPerShader ==> exists n :: 0 <= n < |running| && Free(running[n])
      modifies this
      ensures Valid()
      ensures aborted <==> k.threadsPerCta > nThreadPerShader
      ensures aborted ==> running == old(running)
      ensures !aborted ==> FirstFree(old(running)).Some? && running == old(running)[FirstFree(old(running)).value := Some(k)]
      ensures lastIssuedKernel == old(lastIssuedKernel) && executedUids == old(executedUids)
      ensures finishedUids == old(finishedUids) && lastClusterIssue == old(lastClusterIssue) && clocks == old(clocks)
      ensures allocations == old(allocations) && deadlock == old(deadlock)
      ensures current == old(current) && totals == old(totals) && completedCta == old(completedCta)
    {
      if k.threadsPerCta > nThreadPerShader {
        return true;
      }
      var n := 0;
      while n < |running|
        invariant 0 <= n <= |running|
        invariant forall j :: 0 <= j < n ==> !Free(running[j])
      {
        if running[n].None? || running[n].value.done {
          break;
        }
        n := n + 1;
      }
      assert n < |running|;
      assert FirstFree(running) == Some(n);
      running := running[n := Some(k)];
      return false;
    }

    /** `hit_max_cta_count`: a nonzero cap on issued blocks is reached. */
    predicate HitMaxCtaCount()
      reads this
    {
      maxCta != 0 && totals.ctaLaunched + current.ctaLaunched >= maxCta
    }

    /** One of the configured limits stops the simulation. */
    predicate LimitHit()
      reads this
    {
      || (maxCycle != 0 && totals.simCycle + current.simCycle >= maxCycle)
      || (maxInsn != 0 && totals.simInsn + current.simInsn >= maxInsn)
      || (maxCta != 0 && totals.ctaLaunched >= maxCta)
      || (maxCompletedCta != 0 && completedCta >= maxCompletedCta)
      || (deadlockDetect && deadlock)
    }

    /** `get_more_cta_left`: the cap on issued blocks is not reached and
        some running kernel has blocks left. */
    method GetMoreCtaLeft() returns (r: bool)
      ensures r <==> !HitMaxCtaCount() && exists n :: 0 <= n < |running| && running[n].Some? && running[n].value.moreCtas
    {
      if HitMaxCtaCount() {
        return false;
      }
      var n := 0;
      while n < |running|
        invariant 0 <= n <= |running|
        invariant forall j :: 0 <= j < n ==> !(running[j].Some? && running[j].value.moreCtas)
      {
        if running[n].Some? && running[n].value.moreCtas {
          return true;
        }
        n := n + 1;
      }
      return false;
    }

    /** Some unit has work left: a cluster with unfinished threads, a busy
        memory partition or interconnect, or a kernel with blocks left
        under the cap. */
    predicate HasWork(notCompleted: seq<nat>, partitionBusy: seq<bool>, icntBusy: bool)
      reads this
    {
      || (exists i :: 0 <= i < |notCompleted| && notCompleted[i] > 0)
      || (exists i :: 0 <= i < |partitionBusy| && partitionBusy[i])
      || icntBusy
      || (!HitMaxCtaCount() && exists n :: 0 <= n < |running| && running[n].Some? && running[n].value.moreCtas)
    }

    /** `active`: no limit is hit and some cluster has unfinished threads,
        some memory partition or the interconnect is busy, or a kernel
        has blocks left. The per-cluster, per-partition and interconnect
        states are the callers' view of those units. */
    method Active(notCompleted: seq<nat>, partitionBusy: seq<bool>, icntBusy: bool) returns (r: bool)
      ensures r <==> !LimitHit() && HasWork(notCompleted, partitionBusy, icntBusy)
    {
      if maxCycle != 0 && totals.simCycle + current.simCycle >= maxCycle {
        return false;
      }
      if maxInsn != 0 && totals.simInsn + current.simInsn >= maxInsn {
        return false;
      }
      if maxCta != 0 && totals.ctaLaunched >= maxCta {
        return false;
      }
      if maxCompletedCta != 0 && completedCta >= maxCompletedCta {
        return false;
      }
      if deadlockDetect && deadlock {
        return false;
      }
      var i := 0;
      while i < |notCompleted|
        invariant 0 <= i <= |notCompleted|
        invariant forall j :: 0 <= j < i ==> notCompleted[j] == 0
      {
        if notCompleted[i] > 0 {
          return true;
        }
        i := i + 1;
      }
      i := 0;
      while i < |partitionBusy|
        invariant 0 <= i <= |partitionBusy|
        invariant forall j :: 0 <= j < i ==> !partitionBusy[j]
      {
        if partitionBusy[i] {
          return true;
        }
        i := i + 1;
      }
      if icntBusy {
        return true;
      }
      r := GetMoreCtaLeft();
    }

    /** `next_clock_domain`: the domains whose time is the earliest are
        selected and each advances by its period. */
    method NextClockDomain() returns (mask: Domains)
      modifies this
      ensures mask.l2 <==> old(clocks).l2 == Earliest(old(clocks))
      ensures mask.icnt <==> old(clocks).icnt == Earliest(old(clocks))
      ensures mask.dram <==> old(clocks).dram == Earliest(old(clocks))
      ensures mask.core <==> old(clocks).core == Earliest(old(clocks))
      ensures mask.l2 || mask.icnt || mask.dram || mask.core
      ensures clocks.l2 == (if mask.l2 then old(clocks).l2 + periods.l2 else old(clocks).l2)
      ensures clocks.icnt == (if mask.icnt then old(clocks).icnt + periods.icnt else old(clocks).icnt)
      ensures clocks.dram == (if mask.dram then old(clocks).dram + periods.dram else old(clocks).dram)
      ensures clocks.core == (if mask.core then old(clocks).core + periods.core else old(clocks).core)
      ensures running == old(running) && lastIssuedKernel == old(lastIssuedKernel) && executedUids == old(executedUids)
      ensures finishedUids == old(finishedUids) && lastClusterIssue == old(lastClusterIssue)
      ensures allocations == old(allocations) && deadlock == old(deadlock)
      ensures current == old(current) && totals == old(totals) && completedCta == old(completedCta)
    {
      var c;
      mask, c := NextClockDomainOf(clocks, periods);
      clocks := c;
    }

    /** `update_stats`: each per-kernel counter is added to its total and
        reset; the completed-block count is reset without a total. */
    method UpdateStats()
      modifies this
      ensures totals == AddCounters(old(totals), old(current)) && current == NoCounts && completedCta == 0
      ensures running == old(running) && lastIssuedKernel == old(lastIssuedKernel) && executedUids == old(executedUids)
      ensures clocks == old(clocks) && deadlock == old(deadlock)
      ensures finishedUids == old(finishedUids) && lastClusterIssue == old(lastClusterIssue) && allocations == old(allocations)
      // the cycle, instruction and issued-block limits see the same sums
      ensures totals.simCycle + current.simCycle == old(totals.simCycle + current.simCycle)
      ensures totals.simInsn + current.simInsn == old(totals.simInsn + current.simInsn)
      ensures HitMaxCtaCount() == old(HitMaxCtaCount())
    {
      totals := AddCounters(totals, current);
      current := NoCounts;
      completedCta := 0;
    }

    /** `issue_block2core`: the clusters are visited once each, starting
        after the last one that issued; `issued[c]` is the number of
        blocks cluster `c` issues. The last cluster that issued any is
        remembered, and all of them count as launched. */
    method IssueBlock2Core(issued: seq<nat>)
      requires |issued| == nClusters
      modifies this
      ensures nClusters > 0 ==> lastClusterIssue == match LastIssuer(issued, old(lastClusterIssue), nClusters)
                                                      case None => old(lastClusterIssue)
                                                      case Some(c) => c
      ensures nClusters == 0 ==> lastClusterIssue == old(lastClusterIssue)
      ensures current == old(current).(ctaLaunched := old(current).ctaLaunched + SumRange(issued, 0, |issued|))
      ensures running == old(running) && lastIssuedKernel == old(lastIssuedKernel) && executedUids == old(executedUids)
      ensures totals == old(totals) && completedCta == old(completedCta)
      ensures finishedUids == old(finishedUids) && allocations == old(allocations) && clocks == old(clocks)
      ensures deadlock == old(deadlock)
    {
      var lastIssued := lastClusterIssue;
      var i := 0;
      while i < nClusters
        invariant 0 <= i <= nClusters
        invariant lastClusterIssue == match (if i == 0 then None else LastIssuer(issued, lastIssued, i))
                                        case None => lastIssued
                                        case Some(c) => c
        invariant current == old(current).(ctaLaunched := old(current).ctaLaunched +
                                             (if i == 0 then 0 else RotationSum(issued, lastIssued, i)))
        invariant running == old(running) && lastIssuedKernel == old(lastIssuedKernel) && executedUids == old(executedUids)
        invariant totals == old(totals) && completedCta == old(completedCta)
        invariant finishedUids == old(finishedUids) && allocations == old(allocations) && clocks == old(clocks)
        invariant deadlock == old(deadlock)
      {
        var idx := (i + lastIssued + 1) % nClusters;
        var num := issued[idx];
        if num > 0 {
          lastClusterIssue := idx;
          current := current.(ctaLaunched := current.ctaLaunched + num);
        }
        i := i + 1;
      }
      if nClusters > 0 {
        RotationSumIsTotal(issued, lastIssued);
      }
    }

    /** `decrement_kernel_latency`: every running kernel with a nonzero
        latency is one cycle closer to issuing. */
    method DecrementKernelLatency()
      requires Valid()
      modifies this
      ensures Valid()
      ensures |running| == |old(running)| && forall n :: 0 <= n < |running| ==> running[n] == Decremented(old(running)[n])
      ensures lastIssuedKernel == old(lastIssuedKernel) && executedUids == old(executedUids)
      ensures finishedUids == old(finishedUids) && lastClusterIssue == old(lastClusterIssue) && clocks == old(clocks)
      ensures allocations == old(allocations) && deadlock == old(deadlock)
      ensures current == old(current) && totals == old(totals) && completedCta == old(completedCta)
    {
      running := DecrementAll(running);
    }

    /** `set_kernel_done`: the first slot holding the kernel, which must be
        running, becomes empty and its uid joins the finished list; the
        slot is returned with the cycle the kernel ended, the current cycle. */
    method SetKernelDone(uid: nat) returns (slot: nat, endCycle: nat)
      requires Valid()
      requires exists n :: 0 <= n < |running| && running[n].Some? && running[n].value.uid == uid
      modifies this
      ensures Valid()
      ensures slot < |old(running)| && old(running)[slot].Some? && old(running)[slot].value.uid == uid
      ensures forall j :: 0 <= j < slot ==> !(old(running)[j].Some? && old(running)[j].value.uid == uid)
      ensures running == old(running)[slot := None]
      ensures finishedUids == old(finishedUids) + [uid]
      ensures endCycle == current.simCycle + totals.simCycle
      ensures lastIssuedKernel == old(lastIssuedKernel) && executedUids == old(executedUids)
      ensures lastClusterIssue == old(lastClusterIssue) && clocks == old(clocks)
      ensures allocations == old(allocations) && deadlock == old(deadlock)
      ensures current == old(current) && totals == old(totals) && completedCta == old(completedCta)
    {
      finishedUids := finishedUids + [uid];
      var n := 0;
      while n < |running|
        invariant 0 <= n <= |running|
        invariant forall j :: 0 <= j < n ==> !(running[j].Some? && running[j].value.uid == uid)
      {
        if running[n].Some? && running[n].value.uid == uid {
          break;
        }
        n := n + 1;
      }
      slot := n;
      endCycle := current.simCycle + totals.simCycle;
      running := running[n := None];
    }

    /** `select_kernel`. The last-issued kernel is kept while it has blocks
        left and no latency, and recorded if it was not yet. Otherwise the
        slots are scanned round robin after it, and the first kernel with
        blocks left under the cap and no latency becomes the last issued,
        starts at the current cycle, and is recorded; its uid must not be
        recorded yet (the source asserts so). No uid is recorded twice. */
    method SelectKernel() returns (r: Option<nat>)
      requires Valid()
      requires !KeepsLast(running, lastIssuedKernel) ==>
        var p := RoundRobinPick(running, lastIssuedKernel, |running|, HitMaxCtaCount());
        p.Some? ==> running[p.value].value.uid !in executedUids
      modifies this
      ensures Valid()
      ensures var s, last, now := old(running), old(lastIssuedKernel), old(current.simCycle + totals.simCycle);
        KeepsLast(s, last) ==> (
          && r == Some(last) && lastIssuedKernel == last
          && var k := s[last].value;
          && (k.uid in old(executedUids) ==> running == s && executedUids == old(executedUids))
          && (k.uid !in old(executedUids) ==>
                running == s[last := Some(k.(startCycle := now))] && executedUids == old(executedUids) + [k.uid]))
      ensures var s, last, now := old(running), old(lastIssuedKernel), old(current.simCycle + totals.simCycle);
        !KeepsLast(s, last) ==> (
          && r == RoundRobinPick(s, last, |s|, old(HitMaxCtaCount()))
          && (r.None? ==> running == s && lastIssuedKernel == last && executedUids == old(executedUids))
          && (r.Some? ==>
                var k := s[r.value].value;
                && lastIssuedKernel == r.value
                && running == s[r.value := Some(k.(startCycle := now))]
                && executedUids == old(executedUids) + [k.uid]))
      ensures finishedUids == old(finishedUids) && lastClusterIssue == old(lastClusterIssue) && clocks == old(clocks)
      ensures allocations == old(allocations) && deadlock == old(deadlock)
      ensures current == old(current) && totals == old(totals) && completedCta == old(completedCta)
    {
      var now := current.simCycle + totals.simCycle;
      if running[lastIssuedKernel].Some? && running[lastIssuedKernel].value.moreCtas &&
         running[lastIssuedKernel].value.latency == 0 {
        var k := running[lastIssuedKernel].value;
        if k.uid !in executedUids {
          running := running[lastIssuedKernel := Some(k.(startCycle := now))];
          executedUids := executedUids + [k.uid];
        }
        return Some(lastIssuedKernel);
      }
      var hit := HitMaxCtaCount();
      ghost var last := lastIssuedKernel;
      var n := 0;
      while n < |running|
        invariant 0 <= n <= |running| && running == old(running) && lastIssuedKernel == last
        invariant RoundRobinPick(running, last, n, hit).None?
        invariant executedUids == old(executedUids)
      {
        var idx := (n + lastIssuedKernel + 1) % maxConcurrentKernel;
        if !hit && running[idx].Some? && running[idx].value.moreCtas && running[idx].value.latency == 0 {
          assert RoundRobinPick(running, last, n + 1, hit) == Some(idx);
          RoundRobinPickStable(running, last, n + 1, hit);
          var k := running[idx].value;
          lastIssuedKernel := idx;
          running := running[idx := Some(k.(startCycle := now))];
          executedUids := executedUids + [k.uid];
          return Some(idx);
        }
        n := n + 1;
      }
      return None;
    }
  }

  /** Once the scan has found a kernel, scanning further finds the same. */
  lemma {:induction false} RoundRobinPickStable(s: seq<Option<Kernel>>, last: nat, k: nat, hitMaxCta: bool)
    requires |s| > 0 && k <= |s| && RoundRobinPick(s, last, k, hitMaxCta).Some?
    ensures RoundRobinPick(s, last, |s|, hitMaxCta) == RoundRobinPick(s, last, k, hitMaxCta)
    decreases |s| - k
  {
    if k < |s| {
      RoundRobinPickStable(s, last, k + 1, hitMaxCta);
    }
  }
}
