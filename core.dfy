/**
 * A streaming-multiprocessor core: the translation of per-thread local
 * memory addresses into the shared address space, the search for free
 * hardware threads, and the bookkeeping of hardware block slots, warps,
 * active threads, the fetch and issue rotations and the result busses.
 *
 * Thread and warp masks are `seq<bool>`, barrier warp masks are sets of
 * warp ids, and the kernel the core runs is a value carrying the few
 * numbers the core reads from it.
 */
module Core {
  import opened Wrappers
  import opened Arith
  import TraceModel

  /** Threads per warp (`WARP_SIZE`). */
  const WarpSize: nat := TraceModel.WarpSize

  // ---------------------------------------------------------------------
  // Local memory address translation
  // ---------------------------------------------------------------------

  /** Position of a thread in the numbering of all threads that share
      the local region, in the per-block mapping (`local_mem_map`) or in
      the legacy per-core mapping. */
  function ThreadSlot(localMemMap: bool, globalCoreId: nat, threadId: nat, numCores: nat,
                      threadBlockSize: nat, maxThreadsPerCore: nat): nat
    requires localMemMap ==> threadBlockSize > 0
  {
    if localMemMap then
      threadBlockSize * (globalCoreId + numCores * (threadId / threadBlockSize)) + threadId % threadBlockSize
    else
      maxThreadsPerCore * globalCoreId + threadId
  }

  /** Byte offset of a thread's first local word in the shared local
      region: four bytes per thread slot. */
  function ThreadBase(localMemMap: bool, globalCoreId: nat, threadId: nat, numCores: nat,
                      threadBlockSize: nat, maxThreadsPerCore: nat): (base: nat)
    requires localMemMap ==> threadBlockSize > 0
    ensures base % 4 == 0
  {
    4 * ThreadSlot(localMemMap, globalCoreId, threadId, numCores, threadBlockSize, maxThreadsPerCore)
  }

  /** The number of threads that share the local region, which is the
      stride (in words) between successive words of one thread. */
  function MaxConcurrentThreads(localMemMap: bool, numCores: nat, threadBlockSize: nat,
                                maxBlocksPerCore: nat, maxThreadsPerCore: nat): nat
  {
    if localMemMap then threadBlockSize * maxBlocksPerCore * numCores
    else numCores * maxThreadsPerCore
  }

  /** A thread of a core in range lies below the number of concurrent
      threads, in both mappings: the bound the translation asserts. */
  lemma {:induction false} ThreadBaseBounded(localMemMap: bool, globalCoreId: nat, threadId: nat, numCores: nat,
                                             threadBlockSize: nat, maxBlocksPerCore: nat, maxThreadsPerCore: nat)
    requires globalCoreId < numCores
    requires localMemMap ==> threadBlockSize > 0 && threadId < threadBlockSize * maxBlocksPerCore
    requires !localMemMap ==> threadId < maxThreadsPerCore
    ensures ThreadBase(localMemMap, globalCoreId, threadId, numCores, threadBlockSize, maxThreadsPerCore)
            < 4 * MaxConcurrentThreads(localMemMap, numCores, threadBlockSize, maxBlocksPerCore, maxThreadsPerCore)
  {
    if localMemMap {
      DivBelow(threadId, threadBlockSize, maxBlocksPerCore);
      SlotBelow(threadBlockSize, globalCoreId, numCores, threadId / threadBlockSize, threadId % threadBlockSize, maxBlocksPerCore);
    } else {
      SlotBelow(maxThreadsPerCore, 0, 1, globalCoreId, threadId, numCores);
    }
  }

  /** The slot arithmetic of both mappings: a row-major position below
      the grid's size. */
  lemma {:induction false} SlotBelow(n: nat, c: nat, nc: nat, q: nat, r: nat, m: nat)
    requires c < nc && q < m && r < n
    ensures n * (c + nc * q) + r < n * m * nc
  {
    assert c + nc * q + 1 <= nc * m by {
      MulMono(q + 1, m, nc);
      assert (q + 1) * nc == nc * q + nc;
    }
    MulMono(c + nc * q + 1, nc * m, n);
    assert (c + nc * q + 1) * n == n * (c + nc * q) + n;
    assert nc * m * n == n * m * nc;
  }

  /** In the per-block mapping the slot determines the core, the block
      and the thread within the block. */
  lemma {:induction false} BlockSlotDecodes(c: nat, t: nat, numCores: nat, n: nat)
    requires c < numCores && n > 0
    ensures ThreadSlot(true, c, t, numCores, n, 0) % n == t % n
    ensures ThreadSlot(true, c, t, numCores, n, 0) / n % numCores == c
    ensures ThreadSlot(true, c, t, numCores, n, 0) / n / numCores == t / n
  {
    var v := ThreadSlot(true, c, t, numCores, n, 0);
    assert v == (c + numCores * (t / n)) * n + t % n;
    ModUnique(v, n, c + numCores * (t / n), t % n);
    ModUnique(c + numCores * (t / n), numCores, t / n, c);
  }

  /** Two distinct threads in range never share a local slot, in either
      mapping: no thread's local memory aliases another's. */
  lemma {:induction false} ThreadSlotInjective(localMemMap: bool, c1: nat, t1: nat, c2: nat, t2: nat, numCores: nat,
                                               threadBlockSize: nat, maxThreadsPerCore: nat)
    requires c1 < numCores && c2 < numCores
    requires localMemMap ==> threadBlockSize > 0
    requires !localMemMap ==> t1 < maxThreadsPerCore && t2 < maxThreadsPerCore
    requires ThreadSlot(localMemMap, c1, t1, numCores, threadBlockSize, maxThreadsPerCore)
             == ThreadSlot(localMemMap, c2, t2, numCores, threadBlockSize, maxThreadsPerCore)
    ensures c1 == c2 && t1 == t2
  {
    if localMemMap {
      var n := threadBlockSize;
      assert ThreadSlot(true, c1, t1, numCores, n, maxThreadsPerCore) == ThreadSlot(true, c1, t1, numCores, n, 0);
      assert ThreadSlot(true, c2, t2, numCores, n, maxThreadsPerCore) == ThreadSlot(true, c2, t2, numCores, n, 0);
      BlockSlotDecodes(c1, t1, numCores, n);
      BlockSlotDecodes(c2, t2, numCores, n);
      assert t1 == (t1 / n) * n + t1 % n;
      assert t2 == (t2 / n) * n + t2 % n;
    } else {
      ModUnique(maxThreadsPerCore * c1 + t1, maxThreadsPerCore, c1, t1);
      ModUnique(maxThreadsPerCore * c2 + t2, maxThreadsPerCore, c2, t2);
    }
  }

  /** The shared-space address of byte `byteInWord` of local word `word`
      of the thread whose region starts at `base`, with `n` concurrent
      threads, above the start of the local generic region. */
  function LocalAddress(word: nat, byteInWord: nat, base: nat, n: nat, regionStart: nat): nat
  {
    word * n * 4 + byteInWord + base + regionStart
  }

  /** A local address decodes back to its word and to the thread's base
      plus byte: the translation is invertible, so distinct (word, thread,
      byte) triples never collide. */
  lemma {:induction false} LocalAddressDecodes(word: nat, byteInWord: nat, base: nat, n: nat, regionStart: nat)
    requires base % 4 == 0 && base < 4 * n && byteInWord < 4
    ensures LocalAddress(word, byteInWord, base, n, regionStart) >= regionStart
    ensures (LocalAddress(word, byteInWord, base, n, regionStart) - regionStart) / (4 * n) == word
    ensures (LocalAddress(word, byteInWord, base, n, regionStart) - regionStart) % (4 * n) == base + byteInWord
    ensures (LocalAddress(word, byteInWord, base, n, regionStart) - regionStart) % 4 == byteInWord
  {
    var x := LocalAddress(word, byteInWord, base, n, regionStart) - regionStart;
    assert x == word * (4 * n) + (base + byteInWord);
    assert base + byteInWord < 4 * n by {
      var k := base / 4;
      ModUnique(base, 4, k, 0);
      assert k < n;
      assert base + 4 <= 4 * n;
    }
    ModUnique(x, 4 * n, word, base + byteInWord);
    assert x == (word * n + base / 4) * 4 + byteInWord;
    ModUnique(x, 4, word * n + base / 4, byteInWord);
  }

  /** `translate_local_memaddr`: a request of four or more bytes becomes
      one address per 4-byte word, successive words `4·N` bytes apart; a
      smaller request becomes one address carrying the byte offset.  Each
      address decodes back to its word and to the thread's base. */
  method TranslateLocalMemaddr(localAddr: nat, globalCoreId: nat, threadId: nat, numCores: nat,
                               dataSize: nat, threadBlockSize: nat, maxBlocksPerCore: nat,
                               localMemMap: bool, maxThreadsPerCore: nat, maxAccesses: nat,
                               regionStart: nat)
    returns (addrs: seq<nat>)
    requires localMemMap ==> threadBlockSize > 0
    requires ThreadBase(localMemMap, globalCoreId, threadId, numCores, threadBlockSize, maxThreadsPerCore)
             < 4 * MaxConcurrentThreads(localMemMap, numCores, threadBlockSize, maxBlocksPerCore, maxThreadsPerCore)
    requires dataSize >= 4 ==> dataSize % 4 == 0 && dataSize / 4 <= maxAccesses && localAddr % 4 == 0
    requires dataSize < 4 ==> dataSize > 0 && (localAddr + dataSize - 1) / 4 == localAddr / 4
    ensures |addrs| == if dataSize >= 4 then dataSize / 4 else 1
    ensures |addrs| <= maxAccesses || dataSize < 4
    ensures forall i :: 0 <= i < |addrs| ==>
      var base := ThreadBase(localMemMap, globalCoreId, threadId, numCores, threadBlockSize, maxThreadsPerCore);
      var n := MaxConcurrentThreads(localMemMap, numCores, threadBlockSize, maxBlocksPerCore, maxThreadsPerCore);
      && addrs[i] >= regionStart
      && (addrs[i] - regionStart) / (4 * n) == localAddr / 4 + i
      && (addrs[i] - regionStart) % (4 * n) == base + localAddr % 4
    ensures forall i :: 0 < i < |addrs| ==>
      addrs[i] == addrs[i - 1]
                  + 4 * MaxConcurrentThreads(localMemMap, numCores, threadBlockSize, maxBlocksPerCore, maxThreadsPerCore)
  {
    var base := ThreadBase(localMemMap, globalCoreId, threadId, numCores, threadBlockSize, maxThreadsPerCore);
    var n := MaxConcurrentThreads(localMemMap, numCores, threadBlockSize, maxBlocksPerCore, maxThreadsPerCore);
    if dataSize >= 4 {
      var numAccesses := dataSize / 4;
      addrs := [];
      var i: nat := 0;
      while i < numAccesses
        invariant i <= numAccesses && |addrs| == i
        invariant forall j :: 0 <= j < i ==> addrs[j] == LocalAddress(localAddr / 4 + j, 0, base, n, regionStart)
      {
        addrs := addrs + [LocalAddress(localAddr / 4 + i, 0, base, n, regionStart)];
        i := i + 1;
      }
      assert localAddr % 4 == 0;
      forall j | 0 <= j < |addrs|
        ensures addrs[j] >= regionStart
        ensures (addrs[j] - regionStart) / (4 * n) == localAddr / 4 + j
        ensures (addrs[j] - regionStart) % (4 * n) == base + localAddr % 4
      {
        LocalAddressDecodes(localAddr / 4 + j, 0, base, n, regionStart);
      }
      forall j | 0 < j < |addrs|
        ensures addrs[j] == addrs[j - 1] + 4 * n
      {
        assert (localAddr / 4 + j) * n * 4 == (localAddr / 4 + (j - 1)) * n * 4 + 4 * n;
      }
    } else {
      addrs := [LocalAddress(localAddr / 4, localAddr % 4, base, n, regionStart)];
      assert localAddr / 4 + 0 == localAddr / 4;
      LocalAddressDecodes(localAddr / 4, localAddr % 4, base, n, regionStart);
    }
  }

  // ---------------------------------------------------------------------
  // Hardware thread search
  // ---------------------------------------------------------------------

  /** No thread of `[start, start + size)` is occupied. */
  predicate RangeFree(occupied: seq<bool>, start: nat, size: nat)
    requires start + size <= |occupied|
  {
    forall i :: start <= i < start + size ==> !occupied[i]
  }

  /** A block-aligned start below a multiple of the block size leaves room
      for a whole block. */
  lemma {:induction false} AlignedStepFits(start: nat, size: nat, limit: nat)
    requires size > 0 && start % size == 0 && limit % size == 0 && start < limit
    ensures start + size <= limit
  {
    var q := start / size;
    var m := limit / size;
    ModUnique(start, size, q, 0);
    ModUnique(limit, size, m, 0);
    DivBelow(start, size, m);
    assert (q + 1) * size <= m * size;
  }

  /** No other multiple of `size` lies within one block of an aligned
      start. */
  lemma {:induction false} AlignedBetween(s: nat, step: nat, size: nat)
    requires size > 0 && s % size == 0 && step % size == 0 && step <= s < step + size
    ensures s == step
  {
    ModUnique(s, size, s / size, 0);
    ModUnique(step, size, step / size, 0);
    DivBelow(s, size, step / size + 1);
    DivBelow(step, size, s / size + 1);
  }

  /** The scan of `find_available_hw_thread_id`: starts 0, size, 2·size, …
      below `limit`.  The result is the first start whose range is free,
      or None when every aligned range below the limit holds an occupied
      thread. */
  method FirstFreeRange(occupied: seq<bool>, limit: nat, size: nat) returns (r: Option<nat>)
    requires size > 0 && limit % size == 0 && |occupied| == limit
    ensures r.Some? ==> r.value % size == 0 && r.value + size <= limit && RangeFree(occupied, r.value, size)
    ensures forall s: nat :: s < (if r.Some? then r.value else limit) && s % size == 0 ==>
      s + size <= limit && !RangeFree(occupied, s, size)
  {
    var step: nat := 0;
    while step < limit
      invariant step % size == 0
      invariant step <= limit
      invariant forall s: nat :: s < step && s % size == 0 ==> s + size <= limit && !RangeFree(occupied, s, size)
      decreases limit - step
    {
      AlignedStepFits(step, size, limit);
      if RangeFree(occupied, step, size) {
        return Some(step);
      }
      forall s: nat | s < step + size && s % size == 0
        ensures s + size <= limit && !RangeFree(occupied, s, size)
      {
        if s >= step {
          AlignedBetween(s, step, size);
        }
      }
      AddPeriod(step, size);
      step := step + size;
    }
    return None;
  }

  /** The occupancy mask with `[start, start + size)` marked occupied. */
  function Occupy(occupied: seq<bool>, start: nat, size: nat): (r: seq<bool>)
    requires start + size <= |occupied|
    ensures |r| == |occupied|
    ensures forall i :: 0 <= i < |r| ==> r[i] == (occupied[i] || start <= i < start + size)
  {
    seq(|occupied|, i requires 0 <= i < |occupied| => occupied[i] || (start <= i < start + size))
  }

  // ---------------------------------------------------------------------
  // Warps of a block
  // ---------------------------------------------------------------------

  /** The warps `init_warps` binds to a block of threads `[start, end)`:
      from the warp of `start` up to the warp holding `end - 1`. */
  predicate InInitWarps(w: nat, start: nat, end: nat)
  {
    start / WarpSize <= w < end / WarpSize + (if end % WarpSize != 0 then 1 else 0)
  }

  /** The warp ids `[lo, hi)`. */
  function WarpRange(lo: nat, hi: nat): (r: set<nat>)
    ensures forall w :: w in r <==> lo <= w < hi
    decreases hi - lo
  {
    if hi <= lo then {} else {lo} + WarpRange(lo + 1, hi)
  }

  /** The barrier mask `issue_block_actually` registers for the block, as
      written: the last warp is `end / WARP_SIZE`, rounded down. */
  function BarrierWarpsAsWritten(start: nat, end: nat): (r: set<nat>)
    ensures forall w :: w in r <==> start / WarpSize <= w < end / WarpSize
  {
    WarpRange(start / WarpSize, end / WarpSize)
  }

  /** The barrier mask with the last warp rounded up, as `init_warps` and
      the per-thread loop it replaced do. */
  function BarrierWarps(start: nat, end: nat): (r: set<nat>)
    ensures forall w: nat :: w in r <==> InInitWarps(w, start, end)
  {
    WarpRange(start / WarpSize, end / WarpSize + (if end % WarpSize != 0 then 1 else 0))
  }

  /** A 48-thread block in slot 0 runs two warps, but the written mask
      holds only warp 0: warp 1 is bound to the block yet is not one of
      its barrier participants. */
  lemma BarrierMaskMissesPartialWarp()
    ensures InInitWarps(1, 0, 48) && 1 !in BarrierWarpsAsWritten(0, 48)
  {
  }

  /** A warp holds one of the block's threads exactly when it is in the
      corrected mask: every thread's warp takes part in its barriers. */
  lemma {:induction false} BarrierWarpsHoldEveryThread(start: nat, end: nat, t: nat)
    requires start % WarpSize == 0 && start <= t < end
    ensures t / WarpSize in BarrierWarps(start, end)
  {
    var w := t / WarpSize;
    ModUnique(t, WarpSize, w, t % WarpSize);
    ModUnique(start, WarpSize, start / WarpSize, 0);
    ModUnique(end, WarpSize, end / WarpSize, end % WarpSize);
  }

  /** The lane mask `init_warps` gives warp `w`: lane `l` is active iff its
      hardware thread `w·WARP_SIZE + l` is below the block's end. */
  function LaneMask(w: nat, end: nat): (m: seq<bool>)
    ensures |m| == WarpSize
    ensures forall l :: 0 <= l < WarpSize ==> (m[l] <==> w * WarpSize + l < end)
  {
    seq(WarpSize, l => w * WarpSize + l < end)
  }

  /** Number of set entries of a mask. */
  function CountTrue(m: seq<bool>): nat
  {
    if m == [] then 0 else CountTrue(m[..|m| - 1]) + (if m[|m| - 1] then 1 else 0)
  }

  /** A mask that is true exactly on a prefix of length `k` counts `k`. */
  lemma {:induction false} CountPrefix(m: seq<bool>, k: nat)
    requires k <= |m|
    requires forall l :: 0 <= l < |m| ==> (m[l] <==> l < k)
    ensures CountTrue(m) == k
    decreases |m|
  {
    if m != [] {
      var p := m[..|m| - 1];
      if k == |m| {
        CountPrefix(p, k - 1);
      } else {
        CountPrefix(p, k);
      }
    }
  }

  /** The active-lane count of warp `w` for a block ending at `end`. */
  function ActiveLanes(w: nat, end: nat): (n: nat)
    ensures n <= WarpSize
  {
    if end <= w * WarpSize then 0
    else if end - w * WarpSize >= WarpSize then WarpSize
    else end - w * WarpSize
  }

  /** `num_active_threads_in_warp` of `init_warps` counts the lane mask. */
  lemma LaneMaskCount(w: nat, end: nat)
    ensures CountTrue(LaneMask(w, end)) == ActiveLanes(w, end)
  {
    CountPrefix(LaneMask(w, end), ActiveLanes(w, end));
  }

  /** Total active lanes of warps `[from, to)`. */
  function LanesOf(from: nat, to: nat, end: nat): nat
    decreases if to <= from then 0 else to - from
  {
    if to <= from then 0 else ActiveLanes(from, end) + LanesOf(from + 1, to, end)
  }

  /** The warps `init_warps` binds to a block starting on a warp boundary
      hold exactly the block's threads: `num_active_threads` grows by the
      block size. */
  lemma {:induction false} InitWarpsCountBlock(start: nat, end: nat)
    requires start % WarpSize == 0 && start <= end
    ensures LanesOf(start / WarpSize, end / WarpSize + (if end % WarpSize != 0 then 1 else 0), end) == end - start
  {
    ModUnique(start, WarpSize, start / WarpSize, 0);
    ModUnique(end, WarpSize, end / WarpSize, end % WarpSize);
    LanesFrom(start / WarpSize, end / WarpSize + (if end % WarpSize != 0 then 1 else 0), end);
  }

  /** From a warp at or below the end, the lanes up to the end's warp add
      up to the threads from that warp's first thread to the end. */
  lemma {:induction false} LanesFrom(from: nat, to: nat, end: nat)
    requires from * WarpSize <= end
    requires to == end / WarpSize + (if end % WarpSize != 0 then 1 else 0)
    requires end == (end / WarpSize) * WarpSize + end % WarpSize
    ensures LanesOf(from, to, end) == end - from * WarpSize
    decreases if to <= from then 0 else to - from
  {
    if to <= from {
    } else if end - from * WarpSize >= WarpSize {
      assert (from + 1) * WarpSize <= end;
      LanesFrom(from + 1, to, end);
    } else {
      assert LanesOf(from + 1, to, end) == 0;
    }
  }

  // ---------------------------------------------------------------------
  // Core state
  // ---------------------------------------------------------------------

  /** The kernel the core runs, as far as the core reads it: its id, block
      size (and the size padded to whole warps), how many blocks it may
      hold per core, whether blocks remain to be issued, and its running
      block count. */
  datatype KernelState = KernelState(
    id: nat,
    threadsPerBlock: nat,
    paddedThreadsPerBlock: nat,
    maxBlocksPerCore: nat,
    moreBlocks: bool,
    runningBlocks: nat)

  /** A warp's identifier when it is not bound to any block. */
  const U32Max: nat := 0xFFFF_FFFF

  /** The fields of a hardware warp that the core reads and writes. */
  datatype WarpContext = WarpContext(
    blockHwId: nat,
    warpId: nat,
    dynamicWarpId: nat,
    kernelId: Option<nat>,
    activeMask: seq<bool>,
    doneExit: bool,
    hasImissPending: bool)

  /** A freshly built warp (`Warp::default`). */
  const DefaultWarp: WarpContext :=
    WarpContext(0, U32Max, U32Max, None, seq(WarpSize, _ => false), false, false)

  /** No lane of the mask is set (`functional_done`). */
  predicate NoneSet(m: seq<bool>)
  {
    forall l :: 0 <= l < |m| ==> !m[l]
  }

  /** `Warp::reset`: unbound, exited and with no active lane. */
  function ResetWarp(w: WarpContext): (r: WarpContext)
    ensures r.doneExit && NoneSet(r.activeMask) && |r.activeMask| == |w.activeMask|
    ensures !r.hasImissPending && r.warpId == U32Max && r.dynamicWarpId == U32Max
    ensures r.blockHwId == w.blockHwId && r.kernelId == w.kernelId
  {
    w.(hasImissPending := false, warpId := U32Max, dynamicWarpId := U32Max,
       activeMask := seq(|w.activeMask|, _ => false), doneExit := true)
  }

  /** `Warp::init`: bound to a block and a kernel with a lane mask. */
  function InitWarp(w: WarpContext, blockHwId: nat, warpId: nat, dynamicWarpId: nat,
                    mask: seq<bool>, kernelId: nat): WarpContext
  {
    w.(blockHwId := blockHwId, warpId := warpId, dynamicWarpId := dynamicWarpId,
       doneExit := false, kernelId := Some(kernelId), activeMask := mask)
  }

  /** The mask with `[lo, hi)` set to `v` (`fill` on a range). */
  function FillRange(m: seq<bool>, lo: nat, hi: nat, v: bool): (r: seq<bool>)
    ensures |r| == |m|
    ensures forall i :: 0 <= i < |m| ==> r[i] == (if lo <= i < hi then v else m[i])
  {
    seq(|m|, i requires 0 <= i < |m| => if lo <= i < hi then v else m[i])
  }

  /** Number of hardware block slots holding threads. */
  function CountPositive(s: seq<nat>): nat
  {
    if s == [] then 0 else CountPositive(s[..|s| - 1]) + (if s[|s| - 1] > 0 then 1 else 0)
  }

  /** Changing one slot changes the count by that slot's contribution only. */
  lemma {:induction false} CountPositiveUpdate(s: seq<nat>, i: nat, v: nat)
    requires i < |s|
    ensures CountPositive(s[i := v]) + (if s[i] > 0 then 1 else 0) == CountPositive(s) + (if v > 0 then 1 else 0)
    decreases |s|
  {
    var t := s[i := v];
    if i < |s| - 1 {
      assert t[..|t| - 1] == s[..|s| - 1][i := v];
      CountPositiveUpdate(s[..|s| - 1], i, v);
    } else {
      assert t[..|t| - 1] == s[..|s| - 1];
    }
  }

  /** A prefix of occupied slots is counted in full. */
  lemma {:induction false} CountPositivePrefix(s: seq<nat>, k: nat)
    requires k <= |s| && forall j :: 0 <= j < k ==> s[j] > 0
    ensures CountPositive(s) >= k
    decreases |s|
  {
    if |s| > 0 {
      if k == |s| {
        CountPositivePrefix(s[..|s| - 1], k - 1);
      } else {
        CountPositivePrefix(s[..|s| - 1], k);
      }
    }
  }

  /** The slot `position(|n| n == 0)` finds: the first slot without
      threads, or None when every slot holds a block. */
  function FirstZero(s: seq<nat>): (r: Option<nat>)
    ensures r.Some? ==> r.value < |s| && s[r.value] == 0 && forall j :: 0 <= j < r.value ==> s[j] > 0
    ensures r.None? <==> forall j :: 0 <= j < |s| ==> s[j] > 0
  {
    if s == [] then None
    else if s[0] == 0 then Some(0)
    else
      var rest := FirstZero(s[1..]);
      if rest.Some? then
        assert forall j :: 1 <= j < rest.value + 1 ==> s[j] == s[1..][j - 1];
        Some(rest.value + 1)
      else
        assert forall j :: 1 <= j < |s| ==> s[j] == s[1..][j - 1];
        None
  }

  /** The first free slot is never beyond the number of occupied slots:
      with fewer than `k` blocks, a free slot below `k` exists. */
  lemma FirstZeroWithinCount(s: seq<nat>)
    requires FirstZero(s).Some?
    ensures FirstZero(s).value <= CountPositive(s)
  {
    CountPositivePrefix(s, FirstZero(s).value);
  }

  /** With fewer occupied slots than slots, one is free. */
  lemma {:induction false} FreeSlotExists(s: seq<nat>)
    requires CountPositive(s) < |s|
    ensures FirstZero(s).Some?
  {
    if FirstZero(s).None? {
      CountPositivePrefix(s, |s|);
    }
  }

  /** The hardware block slots of a core: the live threads and the block
      id of each slot, the warp mask each live slot registered with the
      barrier set, and the number of active blocks. */
  datatype Slots = Slots(
    activeThreads: seq<nat>,
    blockIds: seq<Option<nat>>,
    barriers: map<nat, set<nat>>,
    numActiveBlocks: nat)

  /** `n` slots whose active-block count is the number of slots with live
      threads (the count `issue_block_actually` asserts), and where a slot
      holds a block id and a barrier registration exactly while it has
      live threads. */
  ghost predicate SlotsOk(s: Slots, n: nat)
  {
    && |s.activeThreads| == n && |s.blockIds| == n
    && s.numActiveBlocks == CountPositive(s.activeThreads)
    && (forall b :: 0 <= b < n ==> (s.activeThreads[b] > 0 <==> s.blockIds[b].Some?))
    && (forall b: nat :: b in s.barriers <==> b < n && s.activeThreads[b] > 0)
  }

  /** No slot in use. */
  function EmptySlots(n: nat): (s: Slots)
    ensures SlotsOk(s, n) && s.numActiveBlocks == 0
  {
    AllZeroCount(seq(n, _ => 0));
    Slots(seq(n, _ => 0), seq(n, _ => None), map[], 0)
  }

  /** Slot `slot` takes block `block` with `threads` live threads and the
      barrier warp mask `mask`. */
  function OccupySlot(s: Slots, slot: nat, block: nat, threads: nat, mask: set<nat>): (r: Slots)
    requires slot < |s.activeThreads| && slot < |s.blockIds|
  {
    Slots(s.activeThreads[slot := threads], s.blockIds[slot := Some(block)], s.barriers[slot := mask],
          s.numActiveBlocks + 1)
  }

  /** Occupying a free slot with a non-empty block keeps the slots
      consistent, the block being counted once. */
  lemma OccupySlotOk(s: Slots, n: nat, slot: nat, block: nat, threads: nat, mask: set<nat>)
    requires SlotsOk(s, n) && slot < n && s.activeThreads[slot] == 0 && threads > 0
    ensures SlotsOk(OccupySlot(s, slot, block, threads, mask), n)
    ensures OccupySlot(s, slot, block, threads, mask).numActiveBlocks == s.numActiveBlocks + 1
  {
    CountPositiveUpdate(s.activeThreads, slot, threads);
  }

  /** `k` threads of slot `slot` exit; an emptied slot gives up its block
      id and its barrier registration and is counted out. */
  function ReleaseThreads(s: Slots, slot: nat, k: nat): (r: Slots)
    requires SlotsOk(s, |s.activeThreads|) && slot < |s.activeThreads|
    requires 0 < s.activeThreads[slot] && k <= s.activeThreads[slot]
    ensures SlotsOk(r, |s.activeThreads|)
    ensures r.activeThreads == s.activeThreads[slot := s.activeThreads[slot] - k]
    ensures k < s.activeThreads[slot] ==> r.blockIds == s.blockIds && r.barriers == s.barriers
    ensures k == s.activeThreads[slot] ==>
      r.blockIds == s.blockIds[slot := None] && r.barriers == s.barriers - {slot}
    ensures r.numActiveBlocks == s.numActiveBlocks - (if k == s.activeThreads[slot] then 1 else 0)
  {
    var left := s.activeThreads[slot] - k;
    CountPositiveUpdate(s.activeThreads, slot, left);
    if left > 0 then s.(activeThreads := s.activeThreads[slot := left])
    else Slots(s.activeThreads[slot := 0], s.blockIds[slot := None], s.barriers - {slot}, s.numActiveBlocks - 1)
  }

  /** The thread side of a core: the hardware warps, the active-thread
      mask and the active-warp, active-thread and dynamic-warp counters. */
  datatype Threads = Threads(
    warps: seq<WarpContext>,
    mask: seq<bool>,
    numActiveWarps: nat,
    numActiveThreads: nat,
    dynamicWarpId: nat)

  /** One warp per `WARP_SIZE` hardware threads, each with a full lane
      mask, and one mask bit per hardware thread. */
  ghost predicate ThreadsOk(t: Threads, maxThreads: nat)
  {
    && |t.warps| == maxThreads / WarpSize && |t.mask| == maxThreads
    && forall w :: 0 <= w < |t.warps| ==> |t.warps[w].activeMask| == WarpSize
  }

  /** The threads after `reinit` of `[start, end)`. */
  function ReinitOf(t: Threads, start: nat, end: nat, resetNotCompleted: bool): Threads
  {
    var m := if resetNotCompleted then FillRange(t.mask, 0, |t.mask|, false) else t.mask;
    Threads(seq(|t.warps|, w requires 0 <= w < |t.warps| =>
                  if start / WarpSize <= w < end / WarpSize then ResetWarp(t.warps[w]) else t.warps[w]),
            FillRange(m, start, end, false),
            if resetNotCompleted then 0 else t.numActiveWarps,
            if resetNotCompleted then 0 else t.numActiveThreads,
            t.dynamicWarpId)
  }

  /** What `reinit` leaves: the threads `[start, end)` inactive and the
      warps wholly inside them reset, everything else as it was; with
      `resetNotCompleted`, no thread active and both counters zero. */
  lemma ReinitOfClears(t: Threads, start: nat, end: nat, resetNotCompleted: bool)
    ensures var r := ReinitOf(t, start, end, resetNotCompleted);
      && |r.warps| == |t.warps| && |r.mask| == |t.mask| && r.dynamicWarpId == t.dynamicWarpId
      && (forall i :: start <= i < end && i < |r.mask| ==> !r.mask[i])
      && (resetNotCompleted ==> NoneSet(r.mask) && r.numActiveWarps == 0 && r.numActiveThreads == 0)
      && (!resetNotCompleted ==>
            && r.numActiveWarps == t.numActiveWarps && r.numActiveThreads == t.numActiveThreads
            && forall i :: 0 <= i < |t.mask| && !(start <= i < end) ==> r.mask[i] == t.mask[i])
      && forall w :: 0 <= w < |t.warps| ==>
           if start / WarpSize <= w < end / WarpSize then r.warps[w].doneExit && NoneSet(r.warps[w].activeMask)
           else r.warps[w] == t.warps[w]
  {
  }

  /** The threads after `init_warps` of `[start, end)` for slot
      `blockHwId` and kernel `kernelId`. */
  function InitOf(t: Threads, blockHwId: nat, start: nat, end: nat, kernelId: nat): Threads
  {
    Threads(seq(|t.warps|, w requires 0 <= w < |t.warps| =>
                  if InInitWarps(w, start, end)
                  then InitWarp(t.warps[w], blockHwId, w, t.dynamicWarpId + (w - start / WarpSize), LaneMask(w, end), kernelId)
                  else t.warps[w]),
            FillRange(t.mask, start, end, true),
            t.numActiveWarps + WarpCount(start, end),
            t.numActiveThreads + LanesOf(start / WarpSize, EndWarp(end), end),
            t.dynamicWarpId + WarpCount(start, end))
  }

  /** What `init_warps` leaves: the threads `[start, end)` active, every
      warp holding one bound to the slot and the kernel with the lanes
      below `end` active and the next dynamic id, the other warps as they
      were, and the counters grown by the warps and lanes bound: by the
      block's size when it starts on a warp boundary. */
  lemma InitOfBinds(t: Threads, blockHwId: nat, start: nat, end: nat, kernelId: nat)
    ensures var r := InitOf(t, blockHwId, start, end, kernelId);
      && |r.warps| == |t.warps|
      && r.mask == FillRange(t.mask, start, end, true)
      && (forall w :: 0 <= w < |t.warps| && InInitWarps(w, start, end) ==>
            && r.warps[w].blockHwId == blockHwId && r.warps[w].warpId == w && !r.warps[w].doneExit
            && r.warps[w].kernelId == Some(kernelId) && r.warps[w].activeMask == LaneMask(w, end)
            && r.warps[w].dynamicWarpId == t.dynamicWarpId + (w - start / WarpSize))
      && (forall w :: 0 <= w < |t.warps| && !InInitWarps(w, start, end) ==> r.warps[w] == t.warps[w])
      && r.numActiveWarps == t.numActiveWarps + WarpCount(start, end)
      && r.dynamicWarpId == t.dynamicWarpId + WarpCount(start, end)
      && (start % WarpSize == 0 && start <= end ==> r.numActiveThreads == t.numActiveThreads + (end - start))
  {
    if start % WarpSize == 0 && start <= end {
      InitWarpsCountBlock(start, end);
    }
  }

  /** Every thread of a block issued on a warp boundary ends up active, in
      an active lane of a warp bound to the block's slot, and that warp is
      one of the block's barrier participants. */
  lemma {:induction false} IssuedThreadBound(t: Threads, blockHwId: nat, start: nat, end: nat, kernelId: nat, i: nat)
    requires start % WarpSize == 0 && start <= i < end && end <= |t.mask| && EndWarp(end) <= |t.warps|
    ensures var r := InitOf(ReinitOf(t, start, end, false), blockHwId, start, end, kernelId);
      && r.mask[i]
      && r.warps[i / WarpSize].blockHwId == blockHwId
      && r.warps[i / WarpSize].activeMask[i % WarpSize]
      && i / WarpSize in BarrierWarps(start, end)
  {
    var c := ReinitOf(t, start, end, false);
    ReinitOfClears(t, start, end, false);
    InitOfBinds(c, blockHwId, start, end, kernelId);
    BarrierWarpsHoldEveryThread(start, end, i);
    ModUnique(i, WarpSize, i / WarpSize, i % WarpSize);
  }

  /** `reinit` and `init_warps` keep every warp's lane mask full width. */
  lemma ReinitKeepsShape(t: Threads, n: nat, start: nat, end: nat, resetNotCompleted: bool)
    requires ThreadsOk(t, n)
    ensures ThreadsOk(ReinitOf(t, start, end, resetNotCompleted), n)
  {
    ReinitOfClears(t, start, end, resetNotCompleted);
  }

  lemma InitKeepsShape(t: Threads, n: nat, blockHwId: nat, start: nat, end: nat, kernelId: nat)
    requires ThreadsOk(t, n)
    ensures ThreadsOk(InitOf(t, blockHwId, start, end, kernelId), n)
  {
    InitOfBinds(t, blockHwId, start, end, kernelId);
  }

  /** The loop of `reinit`, on the thread side. */
  method ReinitThreads(t: Threads, start: nat, end: nat, resetNotCompleted: bool) returns (r: Threads)
    requires end / WarpSize <= |t.warps|
    ensures r == ReinitOf(t, start, end, resetNotCompleted)
  {
    r := t;
    if resetNotCompleted {
      r := r.(numActiveWarps := 0, numActiveThreads := 0, mask := FillRange(r.mask, 0, |r.mask|, false));
    }
    r := r.(mask := FillRange(r.mask, start, end, false));
    var ws := ResetWarps(r.warps, start / WarpSize, end / WarpSize);
    r := r.(warps := ws);
    assert r.warps == ReinitOf(t, start, end, resetNotCompleted).warps;
  }

  /** `init_warps`, on the thread side. */
  method InitThreads(t: Threads, blockHwId: nat, start: nat, end: nat, kernelId: nat) returns (r: Threads)
    requires EndWarp(end) <= |t.warps|
    ensures r == InitOf(t, blockHwId, start, end, kernelId)
  {
    var mask := FillRange(t.mask, start, end, true);
    var ws, added, lanes := BindWarps(t.warps, blockHwId, start, end, t.dynamicWarpId, kernelId);
    r := Threads(ws, mask, t.numActiveWarps + added, t.numActiveThreads + lanes, t.dynamicWarpId + added);
    assert r.warps == InitOf(t, blockHwId, start, end, kernelId).warps;
  }

  /** The outcome of `issue_block_actually` (without concurrent kernels)
      from slots `s`, threads `t` and kernel `k`: with no slot free, success
      without issuing; otherwise the first free slot's share of hardware
      threads is reset and, when the kernel has a current block, the slot
      takes the block with the warps holding its threads as barrier mask,
      the kernel counts it as running and the block's warps are bound. */
  ghost predicate IssuedFrom(s: Slots, t: Threads, k: KernelState, block: Option<nat>,
                             s': Slots, t': Threads, k': KernelState, issued: bool)
    requires |s.blockIds| == |s.activeThreads|
  {
    match FirstZero(s.activeThreads)
    case None => issued && s' == s && t' == t && k' == k
    case Some(slot) =>
      var start := slot * k.paddedThreadsPerBlock;
      var end := start + k.threadsPerBlock;
      && issued == block.Some?
      && (block.None? ==> t' == ReinitOf(t, start, end, false) && s' == s && k' == k)
      && (block.Some? ==>
            && t' == InitOf(ReinitOf(t, start, end, false), slot, start, end, k.id)
            && s' == OccupySlot(s, slot, block.value, k.threadsPerBlock, BarrierWarps(start, end))
            && k' == k.(runningBlocks := k.runningBlocks + 1))
  }

  /** The threads the first free slot gets lie within the core, and so do
      the warps holding them. */
  lemma IssueRangeFits(a: seq<nat>, slot: nat, k: KernelState, maxThreads: nat, end: int)
    requires FirstZero(a) == Some(slot) && CountPositive(a) < k.maxBlocksPerCore
    requires k.threadsPerBlock <= k.paddedThreadsPerBlock && k.paddedThreadsPerBlock * k.maxBlocksPerCore <= maxThreads
    requires maxThreads % WarpSize == 0 && end == slot * k.paddedThreadsPerBlock + k.threadsPerBlock
    ensures 0 <= slot * k.paddedThreadsPerBlock <= end <= maxThreads
    ensures end / WarpSize <= maxThreads / WarpSize && EndWarp(end) <= maxThreads / WarpSize
  {
    MulMono(0, slot, k.paddedThreadsPerBlock);
    FirstZeroWithinCount(a);
    SlotWithinThreads(slot, k.paddedThreadsPerBlock, k.maxBlocksPerCore, maxThreads);
    EndWarpWithin(end, maxThreads);
  }

  /** Issuing the kernel's current block into free slot `slot`. */
  lemma IssuedWithBlock(s: Slots, t: Threads, k: KernelState, block: Option<nat>, slot: nat, start: nat, end: nat,
                        s': Slots, t': Threads, k': KernelState)
    requires |s.blockIds| == |s.activeThreads| && FirstZero(s.activeThreads) == Some(slot) && block.Some?
    requires start == slot * k.paddedThreadsPerBlock && end == start + k.threadsPerBlock
    requires t' == InitOf(ReinitOf(t, start, end, false), slot, start, end, k.id)
    requires s' == OccupySlot(s, slot, block.value, k.threadsPerBlock, BarrierWarps(start, end))
    requires k' == k.(runningBlocks := k.runningBlocks + 1)
    ensures IssuedFrom(s, t, k, block, s', t', k', true)
  {
  }

  /** A free slot but no current block: the slot's threads are reset only. */
  lemma IssuedWithoutBlock(s: Slots, t: Threads, k: KernelState, slot: nat, start: nat, end: nat, t': Threads)
    requires |s.blockIds| == |s.activeThreads| && FirstZero(s.activeThreads) == Some(slot)
    requires start == slot * k.paddedThreadsPerBlock && end == start + k.threadsPerBlock
    requires t' == ReinitOf(t, start, end, false)
    ensures IssuedFrom(s, t, k, None, s, t', k, false)
  {
  }

  /** `issue_block_actually` on the slot and thread state of a core with
      `maxBlocks` slots and `maxThreads` hardware threads. */
  method IssueInto(s: Slots, t: Threads, k: KernelState, block: Option<nat>, maxBlocks: nat, maxThreads: nat)
    returns (s': Slots, t': Threads, k': KernelState, issued: bool)
    requires SlotsOk(s, maxBlocks) && ThreadsOk(t, maxThreads) && maxThreads % WarpSize == 0
    requires s.numActiveBlocks < k.maxBlocksPerCore
    requires 0 < k.threadsPerBlock <= k.paddedThreadsPerBlock && k.paddedThreadsPerBlock * k.maxBlocksPerCore <= maxThreads
    ensures SlotsOk(s', maxBlocks) && ThreadsOk(t', maxThreads)
    ensures IssuedFrom(s, t, k, block, s', t', k', issued)
  {
    var free := FirstZero(s.activeThreads);
    if free.None? {
      return s, t, k, true;
    }
    var slot := free.value;
    var start := slot * k.paddedThreadsPerBlock;
    var end := start + k.threadsPerBlock;
    IssueRangeFits(s.activeThreads, slot, k, maxThreads, end);
    var cleared := ReinitThreads(t, start, end, false);
    ReinitKeepsShape(t, maxThreads, start, end, false);
    if block.None? {
      IssuedWithoutBlock(s, t, k, slot, start, end, cleared);
      return s, cleared, k, false;
    }
    var warpMask := BarrierWarps(start, end);
    OccupySlotOk(s, maxBlocks, slot, block.value, k.threadsPerBlock, warpMask);
    s' := OccupySlot(s, slot, block.value, k.threadsPerBlock, warpMask);
    k' := k.(runningBlocks := k.runningBlocks + 1);
    t' := InitThreads(cleared, slot, start, end, k.id);
    InitKeepsShape(cleared, maxThreads, slot, start, end, k.id);
    issued := true;
    IssuedWithBlock(s, t, k, block, slot, start, end, s', t', k');
  }

  /** Recording the scan's pick: nothing picked leaves the warps, the last
      warp fetched and the empty buffer; a picked warp becomes the last
      fetched and is marked missing on a miss or given the buffer on a
      hit. */
  function Picked(t: Threads, fetched: Option<nat>, last: nat, status: FetchStatus): (Threads, nat, Option<nat>)
    requires fetched.Some? ==> fetched.value < |t.warps|
  {
    match fetched
    case None => (t, last, None)
    case Some(w) =>
      (if status == Miss then t.(warps := t.warps[w := t.warps[w].(hasImissPending := true)]) else t,
       w,
       if status == Hit then Some(w) else None)
  }

  /** A scan that does not panic leaves the slots and the threads of a
      core with `maxBlocks` slots and `maxThreads` hardware threads
      consistent, and every warp's pending instruction miss as it was. */
  lemma ScanKeepsCoreShape(o: Occupancy, views: seq<WarpStatus>, order: seq<nat>, maxBlocks: nat, maxThreads: nat)
    requires SlotsOk(o.slots, maxBlocks) && ThreadsOk(o.threads, maxThreads)
    requires |views| == |o.threads.warps| > 0 && InRange(order, |views|)
    requires Scan(o, views, order).Scanned?
    ensures SlotsOk(Scan(o, views, order).occ.slots, maxBlocks)
    ensures ThreadsOk(Scan(o, views, order).occ.threads, maxThreads)
  {
    ScanKeepsShape(o, views, order);
  }

  /** The state of one core. */
  class Core {
    const maxBlocks: nat
    const maxThreads: nat
    const numSchedulers: nat
    const maxAluLatency: nat
    var currentKernel: Option<KernelState>
    var slots: Slots
    var threads: Threads
    var occupiedHwThreadIds: seq<bool>
    var lastWarpFetched: nat
    var fetchBuffer: Option<nat>
    var resultBusses: seq<seq<bool>>
    var schedulerIssuePriority: nat

    /** The sizes fixed by the configuration and the consistency of the
        slots. */
    ghost predicate Valid()
      reads this
    {
      && maxThreads > 0 && maxThreads % WarpSize == 0
      && SlotsOk(slots, maxBlocks) && ThreadsOk(threads, maxThreads)
      && |occupiedHwThreadIds| == maxThreads
      && numSchedulers > 0 && schedulerIssuePriority < numSchedulers
      && lastWarpFetched < maxThreads / WarpSize
      && (forall i :: 0 <= i < |resultBusses| ==> |resultBusses[i]| == maxAluLatency)
    }

    /** `Core::new`: no kernel, empty slots, default warps, clear masks and
        result busses. */
    constructor (maxBlocks: nat, maxThreads: nat, numSchedulers: nat, numResultBusses: nat, maxAluLatency: nat)
      requires maxThreads > 0 && maxThreads % WarpSize == 0 && numSchedulers > 0
      ensures Valid()
      ensures this.maxBlocks == maxBlocks && this.maxThreads == maxThreads
      ensures this.numSchedulers == numSchedulers && this.maxAluLatency == maxAluLatency
      ensures currentKernel.None? && slots == EmptySlots(maxBlocks)
      ensures threads.numActiveWarps == 0 && threads.numActiveThreads == 0 && threads.dynamicWarpId == 0
      ensures forall w :: 0 <= w < |threads.warps| ==> threads.warps[w] == DefaultWarp
      ensures NoneSet(threads.mask) && NoneSet(occupiedHwThreadIds)
      ensures |resultBusses| == numResultBusses && forall i :: 0 <= i < numResultBusses ==> NoneSet(resultBusses[i])
      ensures fetchBuffer.None? && lastWarpFetched == 0 && schedulerIssuePriority == 0
    {
      this.maxBlocks := maxBlocks;
      this.maxThreads := maxThreads;
      this.numSchedulers := numSchedulers;
      this.maxAluLatency := maxAluLatency;
      currentKernel := None;
      slots := EmptySlots(maxBlocks);
      threads := Threads(seq(maxThreads / WarpSize, _ => DefaultWarp), seq(maxThreads, _ => false), 0, 0, 0);
      occupiedHwThreadIds := seq(maxThreads, _ => false);
      lastWarpFetched := 0;
      fetchBuffer := None;
      resultBusses := seq(numResultBusses, _ => seq(maxAluLatency, _ => false));
      schedulerIssuePriority := 0;
    }

    /** `can_issue_block`: fewer blocks than the kernel allows per core. */
    predicate CanIssueBlock(kernel: KernelState)
      reads this
    {
      slots.numActiveBlocks < kernel.maxBlocksPerCore
    }

    /** `reinit`: clear the hardware threads `[start, end)` and reset the
        warps wholly inside them; with `resetNotCompleted`, first forget
        every active warp, thread and occupied thread. */
    method Reinit(start: nat, end: nat, resetNotCompleted: bool)
      requires Valid() && start <= end <= maxThreads
      modifies this
      ensures Valid()
      ensures threads == ReinitOf(old(threads), start, end, resetNotCompleted)
      ensures occupiedHwThreadIds == (if resetNotCompleted then FillRange(old(occupiedHwThreadIds), 0, maxThreads, false)
                                      else old(occupiedHwThreadIds))
      ensures currentKernel == old(currentKernel) && slots == old(slots)
      ensures lastWarpFetched == old(lastWarpFetched) && fetchBuffer == old(fetchBuffer)
      ensures resultBusses == old(resultBusses) && schedulerIssuePriority == old(schedulerIssuePriority)
    {
      if resetNotCompleted {
        occupiedHwThreadIds := FillRange(occupiedHwThreadIds, 0, maxThreads, false);
      }
      DivBelow(end, WarpSize, maxThreads / WarpSize + 1);
      threads := ReinitThreads(threads, start, end, resetNotCompleted);
    }

    /** `init_warps`: bind the block's threads and warps to the slot and
        the current kernel. */
    method InitWarps(blockHwId: nat, start: nat, end: nat)
      requires Valid() && currentKernel.Some? && start <= end <= maxThreads
      modifies this
      ensures Valid()
      ensures threads == InitOf(old(threads), blockHwId, start, end, old(currentKernel.value.id))
      ensures currentKernel == old(currentKernel) && slots == old(slots)
      ensures occupiedHwThreadIds == old(occupiedHwThreadIds)
      ensures lastWarpFetched == old(lastWarpFetched) && fetchBuffer == old(fetchBuffer)
      ensures resultBusses == old(resultBusses) && schedulerIssuePriority == old(schedulerIssuePriority)
    {
      EndWarpWithin(end, maxThreads);
      threads := InitThreads(threads, blockHwId, start, end, currentKernel.value.id);
    }

    /** `issue_block_actually` (without concurrent kernels): take the first
        slot without threads (none: report success without issuing), give
        the block the slot's share of hardware threads and reset them; when
        the kernel has a current block, record it in the slot with the
        warps holding its threads as barrier mask, count it on the kernel
        and bind its warps. */
    method IssueBlockActually(block: Option<nat>) returns (issued: bool)
      requires Valid() && currentKernel.Some? && CanIssueBlock(currentKernel.value)
      requires 0 < currentKernel.value.threadsPerBlock <= currentKernel.value.paddedThreadsPerBlock
      requires currentKernel.value.paddedThreadsPerBlock * currentKernel.value.maxBlocksPerCore <= maxThreads
      modifies this
      ensures Valid() && currentKernel.Some?
      ensures FirstZero(old(slots.activeThreads)).None? ==> issued && unchanged(this)
      ensures IssuedFrom(old(slots), old(threads), old(currentKernel.value), block, slots, threads, currentKernel.value, issued)
      ensures occupiedHwThreadIds == old(occupiedHwThreadIds)
      ensures lastWarpFetched == old(lastWarpFetched) && fetchBuffer == old(fetchBuffer)
      ensures resultBusses == old(resultBusses) && schedulerIssuePriority == old(schedulerIssuePriority)
    {
      if FirstZero(slots.activeThreads).None? {
        return true;
      }
      var s, t, k;
      s, t, k, issued := IssueInto(slots, threads, currentKernel.value, block, maxBlocks, maxThreads);
      slots, threads, currentKernel := s, t, Some(k);
    }

    /** `register_threads_in_block_exited`: take the exited threads off the
        slot; once none remain, the slot is released, the block comes off
        the kernel's running count, and the kernel is dropped when it has
        no block left to issue or run, or when the core holds no block. */
    method RegisterThreadsInBlockExited(blockHwId: nat, kernelId: Option<nat>, numThreadsExited: nat)
      requires Valid() && blockHwId < maxBlocks
      requires 0 < slots.activeThreads[blockHwId] && numThreadsExited <= slots.activeThreads[blockHwId]
      requires numThreadsExited == slots.activeThreads[blockHwId] ==>
        currentKernel.Some? && kernelId == Some(currentKernel.value.id)
      modifies this
      ensures Valid()
      ensures slots == ReleaseThreads(old(slots), blockHwId, numThreadsExited)
      ensures numThreadsExited < old(slots.activeThreads[blockHwId]) ==> currentKernel == old(currentKernel)
      ensures numThreadsExited == old(slots.activeThreads[blockHwId]) ==>
        var k := DecrementRunning(old(currentKernel.value));
        currentKernel == (if slots.numActiveBlocks == 0 || KernelFinished(k) then None else Some(k))
      ensures threads == old(threads) && occupiedHwThreadIds == old(occupiedHwThreadIds)
      ensures lastWarpFetched == old(lastWarpFetched) && fetchBuffer == old(fetchBuffer)
      ensures resultBusses == old(resultBusses) && schedulerIssuePriority == old(schedulerIssuePriority)
    {
      var emptied := numThreadsExited == slots.activeThreads[blockHwId];
      slots := ReleaseThreads(slots, blockHwId, numThreadsExited);
      if emptied {
        var k := DecrementRunning(currentKernel.value);
        currentKernel := if KernelFinished(k) then None else Some(k);
        if slots.numActiveBlocks == 0 {
          currentKernel := None;
        }
      }
    }

    /** `find_available_hw_thread_id`: the first block-aligned range of
        hardware threads none of which is occupied, marked occupied when
        asked; `None` when every range holds an occupied thread. An empty
        block finds the empty range at 0 whenever the core has threads. */
    method FindAvailableHwThreadId(threadBlockSize: nat, occupy: bool) returns (r: Option<nat>)
      requires Valid() && (threadBlockSize > 0 ==> maxThreads % threadBlockSize == 0)
      modifies this
      ensures Valid()
      ensures threadBlockSize == 0 ==>
        r == (if maxThreads > 0 then Some(0) else None) && occupiedHwThreadIds == old(occupiedHwThreadIds)
      ensures threadBlockSize > 0 && r.Some? ==>
        r.value % threadBlockSize == 0 && r.value + threadBlockSize <= maxThreads
        && RangeFree(old(occupiedHwThreadIds), r.value, threadBlockSize)
      ensures threadBlockSize > 0 ==> forall s: nat :: s < (if r.Some? then r.value else maxThreads) && s % threadBlockSize == 0 ==>
        s + threadBlockSize <= maxThreads && !RangeFree(old(occupiedHwThreadIds), s, threadBlockSize)
      ensures threadBlockSize > 0 ==>
        occupiedHwThreadIds == if occupy && r.Some? then Occupy(old(occupiedHwThreadIds), r.value, threadBlockSize)
                               else old(occupiedHwThreadIds)
      ensures currentKernel == old(currentKernel) && slots == old(slots) && threads == old(threads)
      ensures lastWarpFetched == old(lastWarpFetched) && fetchBuffer == old(fetchBuffer)
      ensures resultBusses == old(resultBusses) && schedulerIssuePriority == old(schedulerIssuePriority)
    {
      if threadBlockSize == 0 {
        r := if maxThreads > 0 then Some(0) else None;
        return;
      }
      r := FirstFreeRange(occupiedHwThreadIds, maxThreads, threadBlockSize);
      if occupy && r.Some? {
        occupiedHwThreadIds := Occupy(occupiedHwThreadIds, r.value, threadBlockSize);
      }
    }

    /** `issue`: the order in which the schedulers issue this cycle, the
        priority passing on to the next scheduler. */
    method Issue() returns (order: seq<nat>)
      requires Valid()
      modifies this
      ensures Valid()
      ensures order == IssueOrder(old(schedulerIssuePriority), numSchedulers)
      ensures schedulerIssuePriority == (old(schedulerIssuePriority) + 1) % numSchedulers
      ensures currentKernel == old(currentKernel) && slots == old(slots) && threads == old(threads)
      ensures occupiedHwThreadIds == old(occupiedHwThreadIds)
      ensures lastWarpFetched == old(lastWarpFetched) && fetchBuffer == old(fetchBuffer)
      ensures resultBusses == old(resultBusses)
    {
      order := IssueRound(schedulerIssuePriority, numSchedulers);
      schedulerIssuePriority := (schedulerIssuePriority + 1) % numSchedulers;
    }

    /** `fetch`: with the fetch buffer empty, an instruction the cache has
        ready fills it for its warp and clears the warp's miss; otherwise
        the warps are scanned for one to fetch for. Returns false where the
        source panics, leaving the core as it was. */
    method Fetch(ready: Option<nat>, views: seq<WarpStatus>, status: FetchStatus) returns (ok: bool)
      requires Valid() && |views| == |threads.warps|
      requires ready.Some? ==> ready.value < |threads.warps|
      modifies this
      ensures Valid()
      ensures old(fetchBuffer).Some? ==> ok && unchanged(this)
      ensures old(fetchBuffer).None? && ready.Some? ==>
        && ok && fetchBuffer == ready && currentKernel == old(currentKernel) && slots == old(slots)
        && lastWarpFetched == old(lastWarpFetched)
        && threads == old(threads).(warps := old(threads).warps[ready.value :=
                                      old(threads).warps[ready.value].(hasImissPending := false)])
      ensures old(fetchBuffer).None? && ready.None? ==>
        var o := Occupancy(old(currentKernel), old(slots), old(threads));
        ScanFetched(o, Scan(o, views, VisitOrder(old(lastWarpFetched), |views|)), old(lastWarpFetched), status, ok)
      ensures occupiedHwThreadIds == old(occupiedHwThreadIds)
      ensures resultBusses == old(resultBusses) && schedulerIssuePriority == old(schedulerIssuePriority)
    {
      if fetchBuffer.Some? {
        return true;
      }
      if ready.Some? {
        var w := ready.value;
        threads := threads.(warps := threads.warps[w := threads.warps[w].(hasImissPending := false)]);
        fetchBuffer := ready;
        return true;
      }
      ghost var scan;
      ok, scan := FindActiveWarpAndFetch(views, status);
    }

    /** The core after `find_active_warp_and_fetch_instructions` from
        occupancy `o`, with `last` the last warp fetched, met scan result
        `r`: a panic leaves it as it was; otherwise it takes the scan's
        occupancy and, when a warp was picked, records it, marks it missing
        on a miss or gives it the buffer on a hit. */
    ghost predicate ScanFetched(o: Occupancy, r: ScanResult, last: nat, status: FetchStatus, ok: bool)
      reads this
    {
      match r
      case Panicked => !ok && currentKernel == o.kernel && slots == o.slots && threads == o.threads
                       && lastWarpFetched == last && fetchBuffer.None?
      case Scanned(occ, fetched) =>
        && ok && currentKernel == occ.kernel && slots == occ.slots
        && (fetched.Some? ==> fetched.value < |occ.threads.warps|)
        && (threads, lastWarpFetched, fetchBuffer) == Picked(occ.threads, fetched, last, status)
    }

    /** `find_active_warp_and_fetch_instructions` with the fetch buffer
        empty and nothing ready: the scan, and on a pick the warp recorded
        as the last fetched, marked missing on a miss or given the buffer
        on a hit. */
    method FindActiveWarpAndFetch(views: seq<WarpStatus>, status: FetchStatus) returns (ok: bool, ghost scan: ScanResult)
      requires Valid() && |views| == |threads.warps| && fetchBuffer.None?
      modifies this
      ensures Valid()
      ensures var o := Occupancy(old(currentKernel), old(slots), old(threads));
        scan == Scan(o, views, VisitOrder(old(lastWarpFetched), |views|))
      ensures ScanFetched(Occupancy(old(currentKernel), old(slots), old(threads)), scan, old(lastWarpFetched), status, ok)
      ensures occupiedHwThreadIds == old(occupiedHwThreadIds)
      ensures resultBusses == old(resultBusses) && schedulerIssuePriority == old(schedulerIssuePriority)
    {
      var o := Occupancy(currentKernel, slots, threads);
      var r := FindActiveWarp(o, views, lastWarpFetched);
      scan := r;
      if r.Panicked? {
        return false, scan;
      }
      ScanKeepsCoreShape(o, views, VisitOrder(lastWarpFetched, |views|), maxBlocks, maxThreads);
      var picked := Picked(r.occ.threads, r.fetched, lastWarpFetched, status);
      currentKernel, slots := r.occ.kernel, r.occ.slots;
      threads, lastWarpFetched, fetchBuffer := picked.0, picked.1, picked.2;
      ok := true;
    }

    /** `execute` on the result busses: every bus moves on a cycle, then
        each unit in turn issues, reserving the first bus free at its
        latency when it is not stallable, or stalls. */
    method Execute(units: seq<FuRequest>) returns (outcomes: seq<FuOutcome>)
      requires Valid() && RequestsFit(units, maxAluLatency)
      modifies this
      ensures Valid()
      ensures (resultBusses, outcomes) == ReserveAll(ShiftAll(old(resultBusses)), maxAluLatency, units)
      ensures currentKernel == old(currentKernel) && slots == old(slots) && threads == old(threads)
      ensures occupiedHwThreadIds == old(occupiedHwThreadIds)
      ensures lastWarpFetched == old(lastWarpFetched) && fetchBuffer == old(fetchBuffer)
      ensures schedulerIssuePriority == old(schedulerIssuePriority)
    {
      var bs;
      bs, outcomes := ExecuteBusses(resultBusses, maxAluLatency, units);
      resultBusses := bs;
    }
  }

  /** One past the last warp `init_warps` binds for a block ending at
      `end` (the block's end rounded up to a whole warp). */
  function EndWarp(end: nat): nat
  {
    end / WarpSize + (if end % WarpSize != 0 then 1 else 0)
  }

  /** Number of warps `init_warps` binds for the threads `[start, end)`. */
  function WarpCount(start: nat, end: nat): nat
  {
    if EndWarp(end) <= start / WarpSize then 0 else EndWarp(end) - start / WarpSize
  }

  /** A block ending within the core's threads binds only existing warps. */
  lemma {:induction false} EndWarpWithin(end: nat, maxThreads: nat)
    requires end <= maxThreads && maxThreads % WarpSize == 0
    ensures EndWarp(end) <= maxThreads / WarpSize
  {
    ModUnique(end, WarpSize, end / WarpSize, end % WarpSize);
    ModUnique(maxThreads, WarpSize, maxThreads / WarpSize, 0);
    if end % WarpSize != 0 {
      DivBelow(end, WarpSize, maxThreads / WarpSize);
      assert end / WarpSize < maxThreads / WarpSize;
    } else {
      DivBelow(end, WarpSize, maxThreads / WarpSize + 1);
    }
  }

  /** A slot below the kernel's per-core block limit ends within the
      core's threads when the kernel's blocks fit the core. */
  lemma {:induction false} SlotWithinThreads(slot: nat, padded: nat, maxBlocksPerCore: nat, maxThreads: nat)
    requires slot < maxBlocksPerCore && padded * maxBlocksPerCore <= maxThreads
    ensures slot * padded + padded <= maxThreads
  {
    MulMono(slot + 1, maxBlocksPerCore, padded);
  }

  /** The running count after `decrement_running_blocks`. */
  function DecrementRunning(k: KernelState): KernelState
  {
    k.(runningBlocks := if k.runningBlocks > 0 then k.runningBlocks - 1 else 0)
  }

  /** `no_more_blocks_to_run() && !running()`. */
  predicate KernelFinished(k: KernelState)
  {
    !k.moreBlocks && k.runningBlocks == 0
  }

  /** The inner loop of `init_warps` for one warp: the lane mask and the
      number of active lanes. */
  method WarpLanes(w: nat, end: nat) returns (mask: seq<bool>, count: nat)
    ensures mask == LaneMask(w, end) && count == ActiveLanes(w, end)
  {
    mask := seq(WarpSize, _ => false);
    count := 0;
    var lane: nat := 0;
    while lane < WarpSize
      invariant lane <= WarpSize && |mask| == WarpSize
      invariant forall l :: 0 <= l < WarpSize ==> mask[l] == (l < lane && w * WarpSize + l < end)
      invariant count == CountTrue(mask[..lane])
    {
      var hwtid := w * WarpSize + lane;
      ghost var before := mask;
      if hwtid < end {
        mask := mask[lane := true];
        count := count + 1;
      }
      assert mask[..lane] == before[..lane];
      assert mask[..lane + 1] == mask[..lane] + [mask[lane]];
      lane := lane + 1;
    }
    assert mask == LaneMask(w, end);
    assert mask[..WarpSize] == mask;
    LaneMaskCount(w, end);
  }

  /** Lanes of warps `[from, to + 1)` are those of `[from, to)` plus warp
      `to`'s. */
  lemma {:induction false} LanesOfSnoc(from: nat, to: nat, end: nat)
    requires from <= to
    ensures LanesOf(from, to + 1, end) == LanesOf(from, to, end) + ActiveLanes(to, end)
    decreases if to <= from then 0 else to - from
  {
    if from < to {
      LanesOfSnoc(from + 1, to, end);
    }
  }

  /** The warp loop of `init_warps`: every warp of the block is bound to
      the slot and the kernel with its lane mask and the next dynamic id;
      the number of warps bound and of active lanes are returned. */
  method BindWarps(ws: seq<WarpContext>, blockHwId: nat, start: nat, end: nat, dyn0: nat, kernelId: nat)
    returns (r: seq<WarpContext>, added: nat, lanes: nat)
    requires EndWarp(end) <= |ws|
    ensures |r| == |ws|
    ensures forall w :: 0 <= w < |ws| ==>
      r[w] == if InInitWarps(w, start, end)
              then InitWarp(ws[w], blockHwId, w, dyn0 + (w - start / WarpSize), LaneMask(w, end), kernelId)
              else ws[w]
    ensures added == WarpCount(start, end)
    ensures lanes == LanesOf(start / WarpSize, EndWarp(end), end)
  {
    var startWarp := start / WarpSize;
    var endWarp := EndWarp(end);
    r := ws;
    added := 0;
    lanes := 0;
    var w := startWarp;
    while w < endWarp
      invariant startWarp <= w && (w <= endWarp || w == startWarp)
      invariant |r| == |ws| && added == w - startWarp
      invariant lanes == LanesOf(startWarp, w, end)
      invariant forall v :: 0 <= v < |ws| ==>
        r[v] == if startWarp <= v < w
                then InitWarp(ws[v], blockHwId, v, dyn0 + (v - startWarp), LaneMask(v, end), kernelId)
                else ws[v]
    {
      var mask, count := WarpLanes(w, end);
      r := r[w := InitWarp(r[w], blockHwId, w, dyn0 + added, mask, kernelId)];
      LanesOfSnoc(startWarp, w, end);
      lanes := lanes + count;
      added := added + 1;
      w := w + 1;
    }
  }

  /** The loop of `reinit` over the warps `[lo, hi)`: each is reset, the
      others are kept. */
  method ResetWarps(ws: seq<WarpContext>, lo: nat, hi: nat) returns (r: seq<WarpContext>)
    requires hi <= |ws|
    ensures |r| == |ws|
    ensures forall v :: 0 <= v < |ws| ==> r[v] == if lo <= v < hi then ResetWarp(ws[v]) else ws[v]
  {
    r := ws;
    var w := lo;
    while w < hi
      invariant lo <= w && (w <= hi || w == lo)
      invariant |r| == |ws|
      invariant forall v :: 0 <= v < |ws| ==> r[v] == if lo <= v < w then ResetWarp(ws[v]) else ws[v]
    {
      r := r[w := ResetWarp(r[w])];
      w := w + 1;
    }
  }

  /** A sequence of empty slots counts no block. */
  lemma {:induction false} AllZeroCount(s: seq<nat>)
    requires forall j :: 0 <= j < |s| ==> s[j] == 0
    ensures CountPositive(s) == 0
    decreases |s|
  {
    if s != [] {
      AllZeroCount(s[..|s| - 1]);
    }
  }

  // ---------------------------------------------------------------------
  // Issue: fair round robin between schedulers
  // ---------------------------------------------------------------------

  /** The order in which `issue` visits the `n` schedulers, from the one
      holding the issue priority on. */
  function IssueOrder(prio: nat, n: nat): (r: seq<nat>)
    requires n > 0
    ensures |r| == n && forall i :: 0 <= i < n ==> r[i] < n
  {
    seq(n, i requires 0 <= i < n => (prio + i) % n)
  }

  /** Two positions less than `n` apart are distinct modulo `n`. */
  lemma {:induction false} ModDistinct(p: nat, i: nat, j: nat, n: nat)
    requires i < j < n
    ensures (p + i) % n != (p + j) % n
  {
    var qi, qj := (p + i) / n, (p + j) / n;
    if (p + i) % n == (p + j) % n {
      assert j - i == (qj - qi) * n;
      if qj - qi <= 0 {
        MulMono(0, qi - qj, n);
      } else {
        MulMono(1, qj - qi, n);
      }
    }
  }

  /** One round of `issue` gives every scheduler exactly one turn. */
  lemma {:induction false} IssueOrderIsPermutation(prio: nat, n: nat)
    requires n > 0
    ensures forall c :: 0 <= c < n ==> c in IssueOrder(prio, n)
    ensures forall i, j :: 0 <= i < j < n ==> IssueOrder(prio, n)[i] != IssueOrder(prio, n)[j]
  {
    var r := IssueOrder(prio, n);
    forall c | 0 <= c < n
      ensures c in r
    {
      RotationCovers(prio, n, c);
      var i := (c - prio) % n;
      assert r[i] == c;
    }
    forall i, j | 0 <= i < j < n
      ensures r[i] != r[j]
    {
      ModDistinct(prio, i, j, n);
    }
  }

  /** The loop of `issue` over the schedulers, in the order it visits
      them. */
  method IssueRound(prio: nat, n: nat) returns (order: seq<nat>)
    requires n > 0
    ensures order == IssueOrder(prio, n)
  {
    order := [];
    var i := 0;
    while i < n
      invariant i <= n && order == IssueOrder(prio, n)[..i]
    {
      order := order + [(prio + i) % n];
      i := i + 1;
    }
  }

  /** The warps scheduler `c` of `n` supervises among the first `numWarps`,
      in warp order: those whose index is `c` modulo `n`. */
  function SupervisedWarps(c: nat, n: nat, numWarps: nat): (r: seq<nat>)
    requires n > 0
    ensures forall w: nat :: w in r <==> w < numWarps && w % n == c
    ensures forall i, j :: 0 <= i < j < |r| ==> r[i] < r[j]
    decreases numWarps
  {
    if numWarps == 0 then []
    else
      var p := SupervisedWarps(c, n, numWarps - 1);
      assert forall i :: 0 <= i < |p| ==> p[i] in p && p[i] < numWarps - 1;
      p + (if (numWarps - 1) % n == c then [numWarps - 1] else [])
  }

  /** Every warp is supervised by exactly one scheduler: the one its index
      selects modulo the number of schedulers. */
  lemma SupervisedPartition(numWarps: nat, n: nat, w: nat)
    requires n > 0 && w < numWarps
    ensures w % n < n && w in SupervisedWarps(w % n, n, numWarps)
    ensures forall c: nat :: c != w % n ==> w !in SupervisedWarps(c, n, numWarps)
  {
  }

  // ---------------------------------------------------------------------
  // Execute: result-bus reservation
  // ---------------------------------------------------------------------

  /** A functional unit as `execute` sees it after its cycle: whether its
      issue register holds a ready instruction, whether the unit accepts
      it, whether the unit is stallable, and the instruction's latency. */
  datatype FuRequest = FuRequest(ready: bool, canIssue: bool, stallable: bool, latency: nat)

  /** What `execute` does with a unit's ready instruction. */
  datatype FuOutcome =
    | Idle                    // nothing ready, or the unit refuses it
    | IssuedOnBus(bus: nat)   // issued, writeback reserved on this bus
    | IssuedStallable         // issued to a stallable unit, no bus
    | Stalled                 // every bus is taken at the latency

  /** `shift_left(1)`: one cycle of a result bus, each reservation moving a
      cycle closer and the last cycle becoming free. */
  function ShiftLeft(bus: seq<bool>): (r: seq<bool>)
    ensures |r| == |bus|
    ensures forall i :: 0 <= i < |bus| ==> r[i] == (i + 1 < |bus| && bus[i + 1])
  {
    if bus == [] then [] else bus[1..] + [false]
  }

  /** Busses that all span `width` cycles. */
  ghost predicate BussesOfWidth(bs: seq<seq<bool>>, width: nat)
  {
    forall b :: 0 <= b < |bs| ==> |bs[b]| == width
  }

  /** The first bus free at cycle `lat`, as the source's `find` returns. */
  function FirstFreeBus(bs: seq<seq<bool>>, lat: nat): (r: Option<nat>)
    requires forall b :: 0 <= b < |bs| ==> lat < |bs[b]|
    ensures r.Some? ==> r.value < |bs| && !bs[r.value][lat]
    ensures forall b :: 0 <= b < (if r.Some? then r.value else |bs|) ==> bs[b][lat]
    decreases |bs|
  {
    if bs == [] then None
    else if !bs[0][lat] then Some(0)
    else
      var rest := FirstFreeBus(bs[1..], lat);
      if rest.Some? then Some(rest.value + 1) else None
  }

  /** A unit's instruction needs a bus lookup exactly when it is ready and
      accepted; its latency must then be a cycle the busses hold. */
  predicate Indexable(bs: seq<seq<bool>>, q: FuRequest)
  {
    q.ready && q.canIssue ==> forall b :: 0 <= b < |bs| ==> q.latency < |bs[b]|
  }

  /** What `execute` does with one unit, on the busses as it finds them. */
  function ReserveOne(bs: seq<seq<bool>>, q: FuRequest): (r: (seq<seq<bool>>, FuOutcome))
    requires Indexable(bs, q)
  {
    if !(q.ready && q.canIssue) then (bs, Idle)
    else
      var free := FirstFreeBus(bs, q.latency);
      if free.Some? && !q.stallable then (bs[free.value := bs[free.value][q.latency := true]], IssuedOnBus(free.value))
      else if q.stallable then (bs, IssuedStallable)
      else (bs, Stalled)
  }

  /** One unit's reservation: a non-stallable unit takes the first bus free
      at its latency and reserves that cycle, a stallable one issues
      without a bus, and a non-stallable one stalls when every bus is
      taken; the busses only gain the reserved cycle. */
  lemma ReserveOneMeaning(bs: seq<seq<bool>>, q: FuRequest)
    requires Indexable(bs, q)
    ensures var (bs', o) := ReserveOne(bs, q);
      && |bs'| == |bs|
      && (forall b :: 0 <= b < |bs| ==> |bs'[b]| == |bs[b]|)
      && (o.Idle? <==> !(q.ready && q.canIssue))
      && (o.IssuedStallable? <==> q.ready && q.canIssue && q.stallable)
      && (o.IssuedOnBus? ==>
            && q.ready && q.canIssue && !q.stallable && o.bus < |bs|
            && !bs[o.bus][q.latency] && bs'[o.bus][q.latency]
            && (forall b :: 0 <= b < o.bus ==> bs[b][q.latency]))
      && (o.Stalled? ==> q.ready && q.canIssue && !q.stallable && forall b :: 0 <= b < |bs| ==> bs[b][q.latency])
      && (forall b, i :: 0 <= b < |bs| && 0 <= i < |bs[b]| ==>
            bs'[b][i] == (bs[b][i] || (o.IssuedOnBus? && b == o.bus && i == q.latency)))
  {
  }

  /** All units' requests fit busses of `width` cycles. */
  predicate RequestsFit(qs: seq<FuRequest>, width: nat)
  {
    forall j :: 0 <= j < |qs| && qs[j].ready && qs[j].canIssue ==> qs[j].latency < width
  }

  /** The busses and outcomes after `execute` has visited the units `qs`
      in order. */
  function ReserveAll(bs: seq<seq<bool>>, width: nat, qs: seq<FuRequest>): (r: (seq<seq<bool>>, seq<FuOutcome>))
    requires BussesOfWidth(bs, width) && RequestsFit(qs, width)
    ensures |r.0| == |bs| && BussesOfWidth(r.0, width) && |r.1| == |qs|
    decreases |qs|
  {
    if qs == [] then (bs, [])
    else
      var (bs1, os1) := ReserveAll(bs, width, qs[..|qs| - 1]);
      ReserveOneMeaning(bs1, qs[|qs| - 1]);
      var (bs2, o) := ReserveOne(bs1, qs[|qs| - 1]);
      (bs2, os1 + [o])
  }

  /** The `i`-th unit's outcome is its reservation on the busses the units
      before it left. */
  lemma {:induction false} ReserveAllPrefix(bs: seq<seq<bool>>, width: nat, qs: seq<FuRequest>, i: nat)
    requires BussesOfWidth(bs, width) && RequestsFit(qs, width) && i < |qs|
    ensures RequestsFit(qs[..i], width)
    ensures Indexable(ReserveAll(bs, width, qs[..i]).0, qs[i])
    ensures ReserveAll(bs, width, qs).1[i] == ReserveOne(ReserveAll(bs, width, qs[..i]).0, qs[i]).1
    decreases |qs|
  {
    assert RequestsFit(qs[..i], width);
    if i < |qs| - 1 {
      var init := qs[..|qs| - 1];
      assert init[..i] == qs[..i];
      ReserveAllPrefix(bs, width, init, i);
    } else {
      assert qs[..|qs| - 1] == qs[..i];
    }
  }

  /** Reserved cycles are never given up while the units are visited. */
  lemma {:induction false} ReserveAllKeeps(bs: seq<seq<bool>>, width: nat, qs: seq<FuRequest>, i: nat, b: nat, c: nat)
    requires BussesOfWidth(bs, width) && RequestsFit(qs, width) && i <= |qs| && b < |bs| && c < width
    requires RequestsFit(qs[..i], width) && ReserveAll(bs, width, qs[..i]).0[b][c]
    ensures ReserveAll(bs, width, qs).0[b][c]
    decreases |qs|
  {
    if i < |qs| {
      var init := qs[..|qs| - 1];
      assert init[..i] == qs[..i];
      ReserveAllKeeps(bs, width, init, i, b, c);
      ReserveOneMeaning(ReserveAll(bs, width, init).0, qs[|qs| - 1]);
    } else {
      assert qs[..i] == qs;
    }
  }

  /** No two units are given the same bus for the same writeback cycle. */
  lemma {:induction false} ReservationsDistinct(bs: seq<seq<bool>>, width: nat, qs: seq<FuRequest>, i: nat, j: nat)
    requires BussesOfWidth(bs, width) && RequestsFit(qs, width) && i < j < |qs|
    requires ReserveAll(bs, width, qs).1[i].IssuedOnBus? && ReserveAll(bs, width, qs).1[j].IssuedOnBus?
    requires qs[i].latency == qs[j].latency
    ensures ReserveAll(bs, width, qs).1[i].bus != ReserveAll(bs, width, qs).1[j].bus
  {
    ReserveAllPrefix(bs, width, qs, i);
    ReserveAllPrefix(bs, width, qs, j);
    var before := ReserveAll(bs, width, qs[..i]).0;
    ReserveOneMeaning(before, qs[i]);
    var b := ReserveAll(bs, width, qs).1[i].bus;
    var c := qs[i].latency;
    var upto := qs[..j];
    assert upto[..i] == qs[..i] && upto[..i + 1] == qs[..i + 1];
    ReserveAllPrefix(bs, width, upto, i);
    var after := ReserveAll(bs, width, qs[..i + 1]);
    assert qs[..i + 1][..i] == qs[..i];
    assert after.0 == ReserveOne(before, qs[i]).0;
    ReserveAllKeeps(bs, width, upto, i + 1, b, c);
    ReserveOneMeaning(ReserveAll(bs, width, upto).0, qs[j]);
  }

  /** A unit stalls only when every bus is already taken at its latency by
      the units before it or by earlier cycles. */
  lemma ReserveAllStall(bs: seq<seq<bool>>, width: nat, qs: seq<FuRequest>, i: nat)
    requires BussesOfWidth(bs, width) && RequestsFit(qs, width) && i < |qs|
    requires ReserveAll(bs, width, qs).1[i].Stalled?
    ensures RequestsFit(qs[..i], width)
    ensures qs[i].ready && qs[i].canIssue && !qs[i].stallable && qs[i].latency < width
    ensures forall b :: 0 <= b < |bs| ==> ReserveAll(bs, width, qs[..i]).0[b][qs[i].latency]
  {
    ReserveAllPrefix(bs, width, qs, i);
    ReserveOneMeaning(ReserveAll(bs, width, qs[..i]).0, qs[i]);
  }

  /** The loop of `execute`: shift every bus by a cycle, then visit the
      units in order. */
  method ExecuteBusses(bs: seq<seq<bool>>, width: nat, qs: seq<FuRequest>) returns (bs': seq<seq<bool>>, os: seq<FuOutcome>)
    requires BussesOfWidth(bs, width) && RequestsFit(qs, width)
    ensures BussesOfWidth(ShiftAll(bs), width)
    ensures (bs', os) == ReserveAll(ShiftAll(bs), width, qs)
  {
    bs' := [];
    var b := 0;
    while b < |bs|
      invariant b <= |bs| && bs' == ShiftAll(bs)[..b]
    {
      bs' := bs' + [ShiftLeft(bs[b])];
      b := b + 1;
    }
    assert bs' == ShiftAll(bs);
    os := [];
    var i := 0;
    while i < |qs|
      invariant i <= |qs| && RequestsFit(qs[..i], width)
      invariant (bs', os) == ReserveAll(ShiftAll(bs), width, qs[..i])
    {
      assert qs[..i + 1][..i] == qs[..i];
      ReserveOneMeaning(bs', qs[i]);
      var (nb, o) := ReserveOne(bs', qs[i]);
      bs', os := nb, os + [o];
      i := i + 1;
    }
    assert qs[..i] == qs;
  }

  /** Every bus moved on by one cycle. */
  function ShiftAll(bs: seq<seq<bool>>): (r: seq<seq<bool>>)
    ensures |r| == |bs| && forall b :: 0 <= b < |bs| ==> r[b] == ShiftLeft(bs[b])
  {
    seq(|bs|, b requires 0 <= b < |bs| => ShiftLeft(bs[b]))
  }

  // ---------------------------------------------------------------------
  // Fetch: round robin over the warps, reclaiming completed ones
  // ---------------------------------------------------------------------

  /** What the fetch stage reads of a warp besides its context: whether it
      is done in hardware and functionally, whether the scoreboard holds
      pending writes for it, whether its instruction buffer is empty and
      whether it has a current instruction. */
  datatype WarpStatus = WarpStatus(
    hardwareDone: bool,
    pendingWrites: bool,
    functionalDone: bool,
    bufferEmpty: bool,
    hasInstr: bool)

  /** The instruction cache's answer to a fetch. */
  datatype FetchStatus = Hit | Miss | ReservationFail

  /** The part of a core a warp exit changes. */
  datatype Occupancy = Occupancy(kernel: Option<KernelState>, slots: Slots, threads: Threads)

  /** A completed warp `w` being reclaimed: its active threads leave the
      core and its block's slot, it is marked exited and its threads
      inactive, and the core has one active warp less. `None` where the
      source panics: a thread range beyond the mask, more exiting threads
      than the core or the slot holds, no active warp, a slot out of range
      or already empty, or an emptied slot whose warp does not belong to
      the current kernel. */
  function ExitWarp(o: Occupancy, w: nat): (r: Option<Occupancy>)
    requires SlotsOk(o.slots, |o.slots.activeThreads|) && w < |o.threads.warps|
    ensures r.Some? ==>
      && SlotsOk(r.value.slots, |o.slots.activeThreads|)
      && |r.value.slots.activeThreads| == |o.slots.activeThreads|
      && |r.value.threads.warps| == |o.threads.warps|
  {
    var t := o.threads;
    var s := o.slots;
    var lo := w * WarpSize;
    if lo + WarpSize > |t.mask| then None
    else
      var exited := CountTrue(t.mask[lo..lo + WarpSize]);
      var b := t.warps[w].blockHwId;
      if exited > t.numActiveThreads || t.numActiveWarps == 0 then None
      else if b >= |s.activeThreads| || s.activeThreads[b] == 0 || exited > s.activeThreads[b] then None
      else if exited == s.activeThreads[b] && (o.kernel.None? || t.warps[w].kernelId != Some(o.kernel.value.id)) then None
      else
        var s' := ReleaseThreads(s, b, exited);
        var k' := if exited < s.activeThreads[b] then o.kernel
                  else var k := DecrementRunning(o.kernel.value);
                       if KernelFinished(k) || s'.numActiveBlocks == 0 then None else Some(k);
        Some(Occupancy(k', s', t.(warps := t.warps[w := t.warps[w].(doneExit := true)],
                                  mask := FillRange(t.mask, lo, lo + WarpSize, false),
                                  numActiveThreads := t.numActiveThreads - exited,
                                  numActiveWarps := t.numActiveWarps - 1)))
  }

  /** What reclaiming warp `w` does when it does not panic: the warp is
      marked exited and no other warp changes; its `WARP_SIZE` threads turn
      inactive and no other thread does; the core loses one active warp and
      the warp's active threads, which its block's slot loses too; a slot
      that keeps threads keeps the kernel, and an emptied slot counts one
      running block of the current kernel, the warp's own, out. */
  lemma ExitWarpEffect(o: Occupancy, w: nat)
    requires SlotsOk(o.slots, |o.slots.activeThreads|) && w < |o.threads.warps|
    requires ExitWarp(o, w).Some?
    ensures var t := o.threads;
      var t' := ExitWarp(o, w).value.threads;
      var lo := w * WarpSize;
      && lo + WarpSize <= |t.mask| == |t'.mask|
      && t'.warps[w] == t.warps[w].(doneExit := true)
      && (forall v :: 0 <= v < |t.warps| && v != w ==> t'.warps[v] == t.warps[v])
      && (forall j :: lo <= j < lo + WarpSize ==> !t'.mask[j])
      && (forall j :: 0 <= j < |t.mask| && !(lo <= j < lo + WarpSize) ==> t'.mask[j] == t.mask[j])
      && t'.numActiveWarps + 1 == t.numActiveWarps
      && t'.numActiveThreads + CountTrue(t.mask[lo..lo + WarpSize]) == t.numActiveThreads
    ensures var t := o.threads;
      var r := ExitWarp(o, w).value;
      var b := t.warps[w].blockHwId;
      var exited := CountTrue(t.mask[w * WarpSize..w * WarpSize + WarpSize]);
      && b < |o.slots.activeThreads|
      && r.slots.activeThreads == o.slots.activeThreads[b := o.slots.activeThreads[b] - exited]
      && (r.slots.activeThreads[b] > 0 ==> r.kernel == o.kernel)
      && (r.slots.activeThreads[b] == 0 ==>
            && o.kernel.Some? && t.warps[w].kernelId == Some(o.kernel.value.id)
            && r.slots.numActiveBlocks + 1 == o.slots.numActiveBlocks
            && (r.kernel.Some? ==> r.kernel == Some(DecrementRunning(o.kernel.value))))
  {
  }

  /** The warp the scan visits at step `i`: the one after the last warp
      fetched, then onwards around the core. */
  function ScanWarp(last: nat, i: nat, n: nat): (w: nat)
    requires last < n && i < n
    ensures w < n
  {
    if last + 1 + i < n then last + 1 + i else last + 1 + i - n
  }

  /** With the last warp fetched and the step both below the number of
      warps, one wrap-around is all that `(last + 1 + i) % n` can take. */
  lemma ScanWarpIsMod(last: nat, i: nat, n: nat)
    requires last < n && i < n
    ensures ScanWarp(last, i, n) == (last + 1 + i) % n
  {
    if last + 1 + i < n {
      ModUnique(last + 1 + i, n, 0, last + 1 + i);
    } else {
      ModUnique(last + 1 + i, n, 1, last + 1 + i - n);
    }
  }

  /** The order the scan visits the `n` warps in: from the one after the
      last warp fetched onwards around the core, each warp once. */
  function VisitOrder(last: nat, n: nat): (r: seq<nat>)
    requires last < n
    ensures |r| == n && InRange(r, n)
  {
    seq(n, i requires 0 <= i < n => ScanWarp(last, i, n))
  }

  /** Step `i` of the visit order is warp `(last + 1 + i) % n`, and every
      warp is visited at some step. */
  lemma VisitOrderRotates(last: nat, n: nat, i: nat, w: nat)
    requires last < n && i < n && w < n
    ensures VisitOrder(last, n)[i] == (last + 1 + i) % n
    ensures exists j :: 0 <= j < n && VisitOrder(last, n)[j] == w
  {
    ScanWarpIsMod(last, i, n);
    RotationCovers(last + 1, n, w);
    var j := (w - (last + 1)) % n;
    ScanWarpIsMod(last, j, n);
    assert VisitOrder(last, n)[j] == w;
  }

  /** Every warp index in `order` is below `n`. */
  predicate InRange(order: seq<nat>, n: nat)
  {
    forall j :: 0 <= j < |order| ==> order[j] < n
  }

  /** A warp fetch picks: not functionally done, no instruction miss
      pending, an empty instruction buffer and a current instruction. */
  predicate Candidate(t: Threads, views: seq<WarpStatus>, w: nat)
    requires w < |t.warps| && w < |views|
  {
    !views[w].functionalDone && !t.warps[w].hasImissPending && views[w].bufferEmpty && views[w].hasInstr
  }

  /** A warp fetch reclaims: done in hardware, no pending writes, not yet
      exited. */
  predicate Completed(t: Threads, views: seq<WarpStatus>, w: nat)
    requires w < |t.warps| && w < |views|
  {
    views[w].hardwareDone && !views[w].pendingWrites && !t.warps[w].doneExit
  }

  /** The scan's visit of warp `w`: a completed warp exits, any other is
      left as it is. Reclaiming keeps the slots consistent. */
  function Reclaim(o: Occupancy, views: seq<WarpStatus>, w: nat): (r: Option<Occupancy>)
    requires |views| == |o.threads.warps| && w < |views|
    requires SlotsOk(o.slots, |o.slots.activeThreads|)
    ensures r.Some? ==>
      && SlotsOk(r.value.slots, |o.slots.activeThreads|)
      && |r.value.slots.activeThreads| == |o.slots.activeThreads|
      && |r.value.threads.warps| == |o.threads.warps|
  {
    if Completed(o.threads, views, w) then ExitWarp(o, w) else Some(o)
  }

  /** A scan that does not panic keeps the slots consistent and every warp's
      pending instruction miss and lane count. */
  lemma {:induction false} ScanKeepsShape(o: Occupancy, views: seq<WarpStatus>, order: seq<nat>)
    requires |views| == |o.threads.warps| > 0 && InRange(order, |views|)
    requires SlotsOk(o.slots, |o.slots.activeThreads|)
    requires Scan(o, views, order).Scanned?
    ensures var r := Scan(o, views, order);
      && SlotsOk(r.occ.slots, |o.slots.activeThreads|)
      && |r.occ.slots.activeThreads| == |o.slots.activeThreads|
      && |r.occ.threads.warps| == |o.threads.warps| && |r.occ.threads.mask| == |o.threads.mask|
      && (forall v :: 0 <= v < |o.threads.warps| ==>
            && r.occ.threads.warps[v].hasImissPending == o.threads.warps[v].hasImissPending
            && |r.occ.threads.warps[v].activeMask| == |o.threads.warps[v].activeMask|)
    decreases |order|
  {
    if order != [] {
      var w := order[0];
      var next := Reclaim(o, views, w).value;
      ReclaimKeepsWarps(o, views, w, 0);
      forall v | 0 <= v < |views|
        ensures next.threads.warps[v].hasImissPending == o.threads.warps[v].hasImissPending
        ensures |next.threads.warps[v].activeMask| == |o.threads.warps[v].activeMask|
      {
        ReclaimKeepsWarps(o, views, w, v);
      }
      if !Candidate(next.threads, views, w) {
        ScanKeepsShape(next, views, order[1..]);
      }
    }
  }

  /** Reclaiming keeps the thread mask's size and every warp's pending
      instruction miss and lane count. */
  lemma ReclaimKeepsWarps(o: Occupancy, views: seq<WarpStatus>, w: nat, v: nat)
    requires |views| == |o.threads.warps| && w < |views| && v < |views|
    requires SlotsOk(o.slots, |o.slots.activeThreads|)
    requires Reclaim(o, views, w).Some?
    ensures var t := Reclaim(o, views, w).value.threads;
      && |t.mask| == |o.threads.mask|
      && t.warps[v].hasImissPending == o.threads.warps[v].hasImissPending
      && |t.warps[v].activeMask| == |o.threads.warps[v].activeMask|
  {
  }

  /** Where the scan ends: a panic, or the core's new occupancy and the
      warp fetched for, if any. */
  datatype ScanResult = Panicked | Scanned(occ: Occupancy, fetched: Option<nat>)

  /** The scan of `find_active_warp_and_fetch_instructions` over the warps
      still to visit, in `order`. */
  function Scan(o: Occupancy, views: seq<WarpStatus>, order: seq<nat>): (r: ScanResult)
    requires |views| == |o.threads.warps| > 0 && InRange(order, |views|)
    requires SlotsOk(o.slots, |o.slots.activeThreads|)
    ensures r.Scanned? ==> |r.occ.threads.warps| == |views| && (r.fetched.Some? ==> r.fetched.value < |views|)
    decreases |order|
  {
    if order == [] then Scanned(o, None)
    else
      var w := order[0];
      var after := Reclaim(o, views, w);
      if after.None? then Panicked
      else if Candidate(after.value.threads, views, w) then Scanned(after.value, Some(w))
      else Scan(after.value, views, order[1..])
  }

  /** A scan that fetches picks a candidate, the first one in its visiting
      order: the fetched warp is visited at step `p`, and no warp visited
      before it was a candidate. Candidates are judged on the warps as they
      were, reclaiming not changing them. */
  lemma {:induction false} ScanPicksFirstCandidate(o: Occupancy, views: seq<WarpStatus>, order: seq<nat>) returns (p: nat)
    requires |views| == |o.threads.warps| > 0 && InRange(order, |views|)
    requires SlotsOk(o.slots, |o.slots.activeThreads|)
    requires Scan(o, views, order).Scanned? && Scan(o, views, order).fetched.Some?
    ensures p < |order| && Scan(o, views, order).fetched.value == order[p]
    ensures Candidate(o.threads, views, order[p])
    ensures forall q :: 0 <= q < p ==> !Candidate(o.threads, views, order[q])
    decreases |order|
  {
    var next := ScanStep(o, views, order);
    if Candidate(o.threads, views, order[0]) {
      p := 0;
    } else {
      var p' := ScanPicksFirstCandidate(next, views, order[1..]);
      p := p' + 1;
      forall q | 0 <= q < p
        ensures !Candidate(o.threads, views, order[q])
      {
        if q > 0 {
          assert order[q] == order[1..][q - 1];
        }
      }
    }
  }

  /** A scan that fetches nothing met no candidate: the warp visited at step
      `q` is none. */
  lemma {:induction false} ScanWithoutFetchMetNoCandidate(o: Occupancy, views: seq<WarpStatus>, order: seq<nat>, q: nat)
    requires |views| == |o.threads.warps| > 0 && InRange(order, |views|) && q < |order|
    requires SlotsOk(o.slots, |o.slots.activeThreads|)
    requires Scan(o, views, order).Scanned? && Scan(o, views, order).fetched.None?
    ensures !Candidate(o.threads, views, order[q])
    decreases |order|
  {
    var next := ScanStep(o, views, order);
    if q > 0 {
      ScanWithoutFetchMetNoCandidate(next, views, order[1..], q - 1);
    }
  }

  /** One step of a scan that does not panic: the occupancy after reclaiming
      the visited warp, which keeps every warp's candidacy, and where the scan
      goes from there. */
  lemma ScanStep(o: Occupancy, views: seq<WarpStatus>, order: seq<nat>) returns (next: Occupancy)
    requires |views| == |o.threads.warps| > 0 && InRange(order, |views|) && order != []
    requires SlotsOk(o.slots, |o.slots.activeThreads|)
    requires Scan(o, views, order).Scanned?
    ensures |views| == |next.threads.warps| && SlotsOk(next.slots, |next.slots.activeThreads|)
    ensures InRange(order[1..], |views|)
    ensures forall x :: 0 <= x < |views| ==> (Candidate(next.threads, views, x) <==> Candidate(o.threads, views, x))
    ensures Candidate(o.threads, views, order[0]) ==> Scan(o, views, order).fetched == Some(order[0])
    ensures !Candidate(o.threads, views, order[0]) ==>
      Scan(next, views, order[1..]).Scanned? && Scan(o, views, order).fetched == Scan(next, views, order[1..]).fetched
  {
    var w := order[0];
    var after := Reclaim(o, views, w);
    next := after.value;
    forall x | 0 <= x < |views|
      ensures Candidate(next.threads, views, x) <==> Candidate(o.threads, views, x)
    {
      ReclaimKeepsWarps(o, views, w, x);
    }
  }

  /** The loop of `find_active_warp_and_fetch_instructions`. */
  method FindActiveWarp(o: Occupancy, views: seq<WarpStatus>, last: nat) returns (r: ScanResult)
    requires |views| == |o.threads.warps| > 0 && last < |views|
    requires SlotsOk(o.slots, |o.slots.activeThreads|)
    ensures r == Scan(o, views, VisitOrder(last, |views|))
  {
    ghost var order := VisitOrder(last, |views|);
    var cur := o;
    var i := 0;
    while i < |views|
      invariant i <= |views| && |cur.threads.warps| == |views|
      invariant SlotsOk(cur.slots, |cur.slots.activeThreads|)
      invariant Scan(cur, views, order[i..]) == Scan(o, views, order)
      decreases |views| - i
    {
      var w := (last + 1 + i) % |views|;
      VisitOrderRotates(last, |views|, i, 0);
      assert order[i..][0] == w && order[i..][1..] == order[i + 1..];
      var after := Reclaim(cur, views, w);
      if after.None? {
        return Panicked;
      }
      cur := after.value;
      if Candidate(cur.threads, views, w) {
        return Scanned(cur, Some(w));
      }
      i := i + 1;
    }
    return Scanned(cur, None);
  }
}
