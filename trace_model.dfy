/**
 * The memory-access trace model: device address constants, the memory spaces
 * of traced instructions, one trace entry per warp-level instruction with its
 * packed register lists and per-lane addresses, the ordering and grouping of
 * entries, and the validity check on the order of blocks and warps in a trace.
 */
module TraceModel {
  import W = Wrappers

  /** Start of the global heap on the device. */
  const DeviceGlobalHeapStartAddr: nat := 0xC000_0000
  const KB: nat := 1024
  const SharedMemSizeMax: nat := 96 * KB
  const MaxSmCount: nat := 80
  const TotalSharedMem: nat := MaxSmCount * SharedMemSizeMax
  /** Shared memory of all cores lies just below the global heap. */
  const DeviceSharedMemStartAddr: int := DeviceGlobalHeapStartAddr - TotalSharedMem
  const WarpSize: nat := 32

  /** The shared window ends exactly where the heap starts, and the `u64`
      subtraction does not underflow. */
  lemma SharedWindowBelowHeap()
    ensures DeviceSharedMemStartAddr == 0xBF88_0000
    ensures 0 < DeviceSharedMemStartAddr && DeviceSharedMemStartAddr + TotalSharedMem == DeviceGlobalHeapStartAddr
  {
  }

  datatype MemorySpace =
    | None | Local | Generic | Global | Shared | Constant | GlobalToShared | Surface | Texture

  /** `MemorySpace::base_addr`: only the global and shared spaces have a base
      address; the others are `todo!()` and yield `None` here. */
  function BaseAddr(s: MemorySpace): (r: W.Option<nat>)
    ensures r.Some? <==> s == Global || s == Shared
    ensures s == Global ==> r == W.Some(DeviceGlobalHeapStartAddr)
    ensures s == Shared ==> r.Some? && r.value + TotalSharedMem == DeviceGlobalHeapStartAddr
  {
    match s
    case Global => W.Some(DeviceGlobalHeapStartAddr)
    case Shared => W.Some(DeviceSharedMemStartAddr as nat)
    case _ => W.None
  }

  /** A three-dimensional block index. */
  datatype Dim = Dim(x: nat, y: nat, z: nat)

  /** One traced warp instruction.  The register arrays have the fixed widths
      of the trace format (one destination, five sources, 32 lanes). */
  datatype Entry = Entry(
    cudaCtx: nat,
    smId: nat,
    kernelId: nat,
    blockId: Dim,
    warpIdInSm: nat,
    warpIdInBlock: nat,
    instrOpcode: string,
    instrOffset: nat,
    instrMemSpace: MemorySpace,
    instrIsMem: bool,
    instrIsLoad: bool,
    instrIsStore: bool,
    destRegs: seq<nat>,
    numDestRegs: nat,
    srcRegs: seq<nat>,
    numSrcRegs: nat,
    activeMask: seq<bool>,
    addrs: seq<nat>)

  /** The fixed widths of the register and lane arrays. */
  predicate WellFormed(e: Entry)
  {
    |e.destRegs| == 1 && |e.srcRegs| == 5 && |e.activeMask| == WarpSize && |e.addrs| == WarpSize
  }

  /** ASCII upper-casing of one character. */
  function Upper(c: char): (u: char)
    ensures 'a' <= c <= 'z' ==> u as int == c as int - 32
    ensures !('a' <= c <= 'z') ==> u == c
  {
    if 'a' <= c <= 'z' then (c as int - 32) as char else c
  }

  function ToUpper(s: string): (r: string)
    ensures |r| == |s| && forall i :: 0 <= i < |s| ==> r[i] == Upper(s[i])
  {
    if s == [] then [] else [Upper(s[0])] + ToUpper(s[1..])
  }

  /** `s` spells `word` (given in upper case) ignoring the case of letters. */
  predicate EqualsIgnoringCase(s: string, word: string)
  {
    |s| == |word| && forall i :: 0 <= i < |s| ==> Upper(s[i]) == word[i]
  }

  /** `is_memory_instruction`: a memory, load or store flag, or an `EXIT` or
      `MEMBAR` opcode in any case. */
  predicate IsMemoryInstruction(e: Entry)
  {
    var op := ToUpper(e.instrOpcode);
    e.instrIsMem || e.instrIsStore || e.instrIsLoad || op == "EXIT" || op == "MEMBAR"
  }

  /** The opcode test is case-insensitive: it agrees with a letter-by-letter
      comparison against the upper-case keywords. */
  lemma MemoryInstructionIgnoresCase(e: Entry)
    ensures IsMemoryInstruction(e) <==>
      e.instrIsMem || e.instrIsStore || e.instrIsLoad
      || EqualsIgnoringCase(e.instrOpcode, "EXIT") || EqualsIgnoringCase(e.instrOpcode, "MEMBAR")
  {
    var op := ToUpper(e.instrOpcode);
    if EqualsIgnoringCase(e.instrOpcode, "EXIT") {
      assert op == "EXIT";
    }
    if EqualsIgnoringCase(e.instrOpcode, "MEMBAR") {
      assert op == "MEMBAR";
    }
  }

  /** The addresses of the lanes whose mask bit is set, in lane order. */
  function ActiveAddrs(mask: seq<bool>, addrs: seq<nat>): (r: seq<nat>)
    requires |mask| == |addrs|
    ensures |r| <= |addrs|
  {
    if mask == [] then []
    else (if mask[0] then [addrs[0]] else []) + ActiveAddrs(mask[1..], addrs[1..])
  }

  function CountTrue(mask: seq<bool>): nat
  {
    if mask == [] then 0 else (if mask[0] then 1 else 0) + CountTrue(mask[1..])
  }

  /** `valid_addresses`: the addresses of the active lanes of a memory
      instruction, and none for any other instruction. */
  function ValidAddresses(e: Entry): (r: seq<nat>)
    requires WellFormed(e)
    ensures !IsMemoryInstruction(e) ==> r == []
  {
    if IsMemoryInstruction(e) then ActiveAddrs(e.activeMask, e.addrs) else []
  }

  /** One address per active lane. */
  lemma {:induction false} ActiveAddrsCount(mask: seq<bool>, addrs: seq<nat>)
    requires |mask| == |addrs|
    ensures |ActiveAddrs(mask, addrs)| == CountTrue(mask)
  {
    if mask != [] {
      ActiveAddrsCount(mask[1..], addrs[1..]);
    }
  }

  /** Every address in the result is held by some active lane. */
  lemma {:induction false} ActiveAddrsSound(mask: seq<bool>, addrs: seq<nat>, a: nat)
    requires |mask| == |addrs|
    requires a in ActiveAddrs(mask, addrs)
    ensures exists i :: 0 <= i < |mask| && mask[i] && addrs[i] == a
  {
    var rest := ActiveAddrs(mask[1..], addrs[1..]);
    if mask[0] && addrs[0] == a {
      assert mask[0] && addrs[0] == a;
    } else {
      assert a in rest;
      ActiveAddrsSound(mask[1..], addrs[1..], a);
      var i :| 0 <= i < |mask| - 1 && mask[1..][i] && addrs[1..][i] == a;
      assert mask[i + 1] && addrs[i + 1] == a;
    }
  }

  /** The address of every active lane is in the result. */
  lemma {:induction false} ActiveAddrsComplete(mask: seq<bool>, addrs: seq<nat>, i: nat)
    requires |mask| == |addrs|
    requires i < |mask| && mask[i]
    ensures addrs[i] in ActiveAddrs(mask, addrs)
  {
    var rest := ActiveAddrs(mask[1..], addrs[1..]);
    assert ActiveAddrs(mask, addrs) == (if mask[0] then [addrs[0]] else []) + rest;
    if i > 0 {
      ActiveAddrsComplete(mask[1..], addrs[1..], i - 1);
      assert addrs[1..][i - 1] == addrs[i];
    }
  }

  /** `valid_addresses` of a memory instruction yields exactly the active
      lanes' addresses. */
  lemma ValidAddressesOfMemory(e: Entry, a: nat)
    requires WellFormed(e) && IsMemoryInstruction(e)
    ensures |ValidAddresses(e)| == CountTrue(e.activeMask)
    ensures a in ValidAddresses(e) <==> exists i :: 0 <= i < WarpSize && e.activeMask[i] && e.addrs[i] == a
  {
    ActiveAddrsCount(e.activeMask, e.addrs);
    if a in ValidAddresses(e) {
      ActiveAddrsSound(e.activeMask, e.addrs, a);
    }
    if exists i :: 0 <= i < WarpSize && e.activeMask[i] && e.addrs[i] == a {
      var i :| 0 <= i < WarpSize && e.activeMask[i] && e.addrs[i] == a;
      ActiveAddrsComplete(e.activeMask, e.addrs, i);
    }
  }

  /** `source_registers`: the first `num_src_regs` source slots. */
  function SourceRegisters(e: Entry): (r: seq<nat>)
    requires e.numSrcRegs <= |e.srcRegs|
    ensures |r| == e.numSrcRegs && r <= e.srcRegs
  {
    e.srcRegs[..e.numSrcRegs]
  }

  /** `dest_registers`: the first `num_dest_regs` destination slots. */
  function DestRegisters(e: Entry): (r: seq<nat>)
    requires e.numDestRegs <= |e.destRegs|
    ensures |r| == e.numDestRegs && r <= e.destRegs
  {
    e.destRegs[..e.numDestRegs]
  }

  /** Zero every slot, then write the registers in order and count them.
      Writing past the last slot panics, so at most `|slots|` registers fit. */
  method FillRegisters(slots: seq<nat>, regs: seq<nat>) returns (filled: seq<nat>, count: nat)
    requires |regs| <= |slots|
    ensures |filled| == |slots| && count == |regs|
    ensures filled[..count] == regs
    ensures forall i :: count <= i < |filled| ==> filled[i] == 0
  {
    filled := seq(|slots|, _ => 0);
    count := 0;
    while count < |regs|
      invariant 0 <= count <= |regs| && |filled| == |slots|
      invariant forall i :: 0 <= i < count ==> filled[i] == regs[i]
      invariant forall i :: count <= i < |filled| ==> filled[i] == 0
    {
      filled := filled[count := regs[count]];
      count := count + 1;
    }
  }

  /** `set_source_registers`; the source registers read back afterwards are
      exactly the ones written. */
  method SetSourceRegisters(e: Entry, regs: seq<nat>) returns (e': Entry)
    requires |e.srcRegs| == 5 && |regs| <= 5
    ensures e' == e.(srcRegs := e'.srcRegs, numSrcRegs := e'.numSrcRegs)
    ensures |e'.srcRegs| == 5 && e'.numSrcRegs == |regs|
    ensures SourceRegisters(e') == regs
    ensures forall i :: |regs| <= i < 5 ==> e'.srcRegs[i] == 0
  {
    var filled, count := FillRegisters(e.srcRegs, regs);
    e' := e.(srcRegs := filled, numSrcRegs := count);
  }

  /** `set_dest_registers`, with room for one destination register. */
  method SetDestRegisters(e: Entry, regs: seq<nat>) returns (e': Entry)
    requires |e.destRegs| == 1 && |regs| <= 1
    ensures e' == e.(destRegs := e'.destRegs, numDestRegs := e'.numDestRegs)
    ensures |e'.destRegs| == 1 && e'.numDestRegs == |regs|
    ensures DestRegisters(e') == regs
    ensures regs == [] ==> e'.destRegs == [0]
  {
    var filled, count := FillRegisters(e.destRegs, regs);
    e' := e.(destRegs := filled, numDestRegs := count);
  }

  function CmpNat(a: nat, b: nat): (o: W.Ordering)
    ensures o == W.Less <==> a < b
    ensures o == W.Equal <==> a == b
  {
    if a < b then W.Less else if a == b then W.Equal else W.Greater
  }

  /** Lexicographic comparison: the first component decides unless equal. */
  function Then(first: W.Ordering, rest: W.Ordering): W.Ordering
  {
    if first == W.Equal then rest else first
  }

  function CmpDim(a: Dim, b: Dim): W.Ordering
  {
    Then(CmpNat(a.x, b.x), Then(CmpNat(a.y, b.y), CmpNat(a.z, b.z)))
  }

  /** `Ord for MemAccessTraceEntry`: compare the key
      (cuda_ctx, kernel_id, block_id, warp_id_in_block) lexicographically. */
  function Cmp(a: Entry, b: Entry): (o: W.Ordering)
    ensures o == W.Equal <==>
      a.cudaCtx == b.cudaCtx && a.kernelId == b.kernelId && a.blockId == b.blockId && a.warpIdInBlock == b.warpIdInBlock
  {
    Then(CmpNat(a.cudaCtx, b.cudaCtx),
      Then(CmpNat(a.kernelId, b.kernelId),
        Then(CmpDim(a.blockId, b.blockId), CmpNat(a.warpIdInBlock, b.warpIdInBlock))))
  }

  function Flip(o: W.Ordering): W.Ordering
  {
    match o
    case Less => W.Greater
    case Equal => W.Equal
    case Greater => W.Less
  }

  /** The order is antisymmetric, and it ignores everything but the key:
      entries of different instructions of one warp compare equal. */
  lemma CmpAntisymmetric(a: Entry, b: Entry)
    ensures Cmp(b, a) == Flip(Cmp(a, b))
  {
  }

  lemma CmpOnlyKey(a: Entry, b: Entry, c: Entry)
    requires c.cudaCtx == a.cudaCtx && c.kernelId == a.kernelId && c.blockId == a.blockId
    requires c.warpIdInBlock == a.warpIdInBlock
    ensures Cmp(c, b) == Cmp(a, b)
  {
  }

  /** The ordering of keys used by `Cmp`, as a strict lexicographic order. */
  ghost predicate KeyLess(a: Entry, b: Entry)
  {
    a.cudaCtx < b.cudaCtx
    || (a.cudaCtx == b.cudaCtx && a.kernelId < b.kernelId)
    || (a.cudaCtx == b.cudaCtx && a.kernelId == b.kernelId && CmpDim(a.blockId, b.blockId) == W.Less)
    || (a.cudaCtx == b.cudaCtx && a.kernelId == b.kernelId && a.blockId == b.blockId && a.warpIdInBlock < b.warpIdInBlock)
  }

  lemma CmpLessIsKeyLess(a: Entry, b: Entry)
    ensures Cmp(a, b) == W.Less <==> KeyLess(a, b)
  {
    assert CmpDim(a.blockId, b.blockId) == W.Equal <==> a.blockId == b.blockId;
  }

  lemma CmpTransitive(a: Entry, b: Entry, c: Entry)
    requires Cmp(a, b) == W.Less && Cmp(b, c) == W.Less
    ensures Cmp(a, c) == W.Less
  {
    assert CmpDim(a.blockId, b.blockId) == W.Equal <==> a.blockId == b.blockId;
    assert CmpDim(b.blockId, c.blockId) == W.Equal <==> b.blockId == c.blockId;
    assert CmpDim(a.blockId, c.blockId) == W.Equal <==> a.blockId == c.blockId;
  }

  /** The key `to_warp_traces` groups by. */
  datatype WarpKey = WarpKey(blockId: Dim, warpIdInBlock: nat)

  function KeyOf(e: Entry): WarpKey
  {
    WarpKey(e.blockId, e.warpIdInBlock)
  }

  /** The entries of `trace` with key `k`, in trace order. */
  function EntriesOf(trace: seq<Entry>, k: WarpKey): (r: seq<Entry>)
    ensures |r| <= |trace|
    ensures forall e :: e in r ==> e in trace && KeyOf(e) == k
  {
    if trace == [] then []
    else
      var rest := EntriesOf(trace[..|trace| - 1], k);
      if KeyOf(trace[|trace| - 1]) == k then rest + [trace[|trace| - 1]] else rest
  }

  /** The keys in order of first appearance. */
  function KeysInOrder(trace: seq<Entry>): (r: seq<WarpKey>)
    ensures forall k :: k in r <==> exists i :: 0 <= i < |trace| && KeyOf(trace[i]) == k
    ensures forall i, j :: 0 <= i < j < |r| ==> r[i] != r[j]
  {
    if trace == [] then []
    else
      var rest := KeysInOrder(trace[..|trace| - 1]);
      var k := KeyOf(trace[|trace| - 1]);
      assert forall i :: 0 <= i < |trace| - 1 ==> trace[..|trace| - 1][i] == trace[i];
      if k in rest then rest else rest + [k]
  }

  /** `to_warp_traces`: an insertion-ordered map from (block, warp) to that
      warp's entries.  `order` lists the keys as the map iterates them. */
  method ToWarpTraces(trace: seq<Entry>) returns (order: seq<WarpKey>, groups: map<WarpKey, seq<Entry>>)
    ensures order == KeysInOrder(trace)
    ensures forall k :: k in groups <==> k in order
    ensures forall k :: k in groups ==> groups[k] == EntriesOf(trace, k)
  {
    order := [];
    groups := map[];
    var i := 0;
    while i < |trace|
      invariant 0 <= i <= |trace|
      invariant order == KeysInOrder(trace[..i])
      invariant forall k :: k in groups <==> k in order
      invariant forall k :: k in groups ==> groups[k] == EntriesOf(trace[..i], k)
    {
      var e := trace[i];
      var k := KeyOf(e);
      assert trace[..i + 1] == trace[..i] + [e];
      GroupStep(trace[..i], e);
      if k in groups {
        groups := groups[k := groups[k] + [e]];
      } else {
        EntriesOfAbsent(trace[..i], k);
        order := order + [k];
        groups := groups[k := [e]];
      }
      i := i + 1;
    }
    assert trace[..i] == trace;
  }

  /** How the keys and the groups grow by one more entry. */
  lemma GroupStep(t: seq<Entry>, e: Entry)
    ensures KeysInOrder(t + [e]) ==
      if KeyOf(e) in KeysInOrder(t) then KeysInOrder(t) else KeysInOrder(t) + [KeyOf(e)]
    ensures forall k :: EntriesOf(t + [e], k) == if KeyOf(e) == k then EntriesOf(t, k) + [e] else EntriesOf(t, k)
  {
    assert (t + [e])[..|t|] == t;
  }

  lemma {:induction false} EntriesOfAbsent(trace: seq<Entry>, k: WarpKey)
    requires k !in KeysInOrder(trace)
    ensures EntriesOf(trace, k) == []
  {
    if trace != [] {
      EntriesOfAbsent(trace[..|trace| - 1], k);
    }
  }

  /** Grouping loses nothing: every entry is in its own warp's group, and the
      group sizes add up to the trace length. */
  lemma {:induction false} EntriesOfCount(trace: seq<Entry>, keys: seq<WarpKey>)
    requires forall i :: 0 <= i < |trace| ==> KeyOf(trace[i]) in keys
    requires forall i, j :: 0 <= i < j < |keys| ==> keys[i] != keys[j]
    ensures SumLengths(trace, keys) == |trace|
  {
    if trace == [] {
      SumLengthsEmpty(keys);
    } else {
      var last := trace[|trace| - 1];
      var init := trace[..|trace| - 1];
      assert forall i :: 0 <= i < |init| ==> init[i] == trace[i];
      EntriesOfCount(init, keys);
      SumLengthsSnoc(init, last, keys);
      assert trace == init + [last];
    }
  }

  function SumLengths(trace: seq<Entry>, keys: seq<WarpKey>): nat
  {
    if keys == [] then 0 else |EntriesOf(trace, keys[0])| + SumLengths(trace, keys[1..])
  }

  lemma {:induction false} SumLengthsEmpty(keys: seq<WarpKey>)
    ensures SumLengths([], keys) == 0
  {
    if keys != [] {
      SumLengthsEmpty(keys[1..]);
    }
  }

  lemma {:induction false} SumLengthsSnoc(init: seq<Entry>, last: Entry, keys: seq<WarpKey>)
    requires KeyOf(last) in keys
    requires forall i, j :: 0 <= i < j < |keys| ==> keys[i] != keys[j]
    ensures SumLengths(init + [last], keys) == SumLengths(init, keys) + 1
  {
    var t := init + [last];
    assert t[..|t| - 1] == init;
    if keys[0] == KeyOf(last) {
      SumLengthsSnocOther(init, last, keys[1..]);
    } else {
      SumLengthsSnoc(init, last, keys[1..]);
    }
  }

  lemma {:induction false} SumLengthsSnocOther(init: seq<Entry>, last: Entry, keys: seq<WarpKey>)
    requires KeyOf(last) !in keys
    ensures SumLengths(init + [last], keys) == SumLengths(init, keys)
  {
    var t := init + [last];
    assert t[..|t| - 1] == init;
    if keys != [] {
      SumLengthsSnocOther(init, last, keys[1..]);
    }
  }

  /** The grouped traces together hold exactly as many entries as the trace. */
  lemma WarpTracesPartition(trace: seq<Entry>)
    ensures SumLengths(trace, KeysInOrder(trace)) == |trace|
  {
    var keys := KeysInOrder(trace);
    assert forall i :: 0 <= i < |trace| ==> KeyOf(trace[i]) in keys;
    EntriesOfCount(trace, keys);
  }

  // ---------------------------------------------------------------------------
  // is_valid_trace

  /** Itertools `dedup`: collapse runs of equal adjacent elements. */
  function Dedup<T(==)>(s: seq<T>): (r: seq<T>)
    ensures |r| <= |s| && (s == [] <==> r == [])
    ensures s != [] ==> r[0] == s[0]
    ensures forall i :: 0 <= i < |r| ==> r[i] in s
    ensures forall i :: 0 <= i < |s| ==> s[i] in r
  {
    if |s| <= 1 then s
    else if s[0] == s[1] then Dedup(s[1..])
    else [s[0]] + Dedup(s[1..])
  }

  /** Some element occurs twice. */
  predicate HasRepeat<T(==)>(s: seq<T>)
  {
    exists i, j :: 0 <= i < j < |s| && s[i] == s[j]
  }

  /** Itertools `duplicates`: each element that occurs more than once, once,
      at the position of its second occurrence. */
  function Duplicates<T(==)>(s: seq<T>): (r: seq<T>)
    ensures forall i :: 0 <= i < |r| ==> r[i] in s
  {
    if s == [] then []
    else
      var init := s[..|s| - 1];
      var d := Duplicates(init);
      var x := s[|s| - 1];
      if x in init && x !in d then d + [x] else d
  }

  lemma {:induction false} DuplicatesEmptyIffNoRepeat<T>(s: seq<T>)
    ensures Duplicates(s) == [] <==> !HasRepeat(s)
  {
    if s != [] {
      var init := s[..|s| - 1];
      var x := s[|s| - 1];
      DuplicatesEmptyIffNoRepeat(init);
      if HasRepeat(init) {
        var i, j :| 0 <= i < j < |init| && init[i] == init[j];
        assert s[i] == s[j];
      }
      if x in init {
        var i :| 0 <= i < |init| && init[i] == x;
        assert s[i] == s[|s| - 1];
      }
      if HasRepeat(s) {
        var i, j :| 0 <= i < j < |s| && s[i] == s[j];
        if j < |s| - 1 {
          assert init[i] == init[j];
        } else {
          assert init[i] == x;
        }
      }
    }
  }

  /** A value comes back after a different value intervened. */
  predicate ReturnsAfterOther<T(==)>(s: seq<T>)
  {
    exists i, j, k :: 0 <= i < j < k < |s| && s[i] == s[k] && s[j] != s[i]
  }

  lemma RepeatCons<T>(x: T, d: seq<T>)
    ensures HasRepeat(d) ==> HasRepeat([x] + d)
    ensures x in d ==> HasRepeat([x] + d)
  {
    var s := [x] + d;
    if HasRepeat(d) {
      var i, j :| 0 <= i < j < |d| && d[i] == d[j];
      assert s[i + 1] == s[j + 1];
    }
    if x in d {
      var m :| 0 <= m < |d| && d[m] == x;
      assert s[0] == s[m + 1];
    }
  }

  lemma ReturnsTail<T>(s: seq<T>)
    requires |s| > 1 && ReturnsAfterOther(s[1..])
    ensures ReturnsAfterOther(s)
  {
    var t := s[1..];
    var i, j, k :| 0 <= i < j < k < |t| && t[i] == t[k] && t[j] != t[i];
    assert s[i + 1] == s[k + 1] && s[j + 1] != s[i + 1];
  }

  /** A repeat in `[x] + d` lies inside `d` or pairs `x` with an element of `d`. */
  lemma HeadRepeat<T>(x: T, d: seq<T>)
    requires HasRepeat([x] + d)
    ensures HasRepeat(d) || x in d
  {
    var r := [x] + d;
    var i, j :| 0 <= i < j < |r| && r[i] == r[j];
    if i > 0 {
      assert d[i - 1] == d[j - 1];
    } else {
      assert d[j - 1] == x;
    }
  }

  lemma {:induction false} DedupRepeatReturns<T>(s: seq<T>)
    requires HasRepeat(Dedup(s))
    ensures ReturnsAfterOther(s)
  {
    var t := s[1..];
    var d := Dedup(t);
    if s[0] == s[1] {
      DedupRepeatReturns(t);
      ReturnsTail(s);
    } else {
      assert Dedup(s) == [s[0]] + d;
      HeadRepeat(s[0], d);
      if HasRepeat(d) {
        DedupRepeatReturns(t);
        ReturnsTail(s);
      } else {
        var k :| 0 <= k < |t| && t[k] == s[0];
        assert s[k + 1] == s[0] && s[1] != s[0] && 1 < k + 1;
      }
    }
  }

  lemma {:induction false} ReturnsDedupRepeat<T>(s: seq<T>)
    requires ReturnsAfterOther(s)
    ensures HasRepeat(Dedup(s))
  {
    var t := s[1..];
    var i, j, k :| 0 <= i < j < k < |s| && s[i] == s[k] && s[j] != s[i];
    if i > 0 {
      assert t[i - 1] == t[k - 1] && t[j - 1] != t[i - 1];
      ReturnsDedupRepeat(t);
      RepeatCons(s[0], Dedup(t));
    } else if s[0] == s[1] {
      assert t[0] == t[k - 1] && t[j - 1] != t[0] && 0 < j - 1;
      ReturnsDedupRepeat(t);
    } else {
      assert t[k - 1] == s[0];
      RepeatCons(s[0], Dedup(t));
    }
  }

  /** The dedup of a sequence repeats an element exactly when the sequence has
      a value that comes back after another: consecutive repeats are allowed. */
  lemma DedupRepeatIff<T>(s: seq<T>)
    ensures HasRepeat(Dedup(s)) <==> ReturnsAfterOther(s)
  {
    if HasRepeat(Dedup(s)) {
      DedupRepeatReturns(s);
    }
    if ReturnsAfterOther(s) {
      ReturnsDedupRepeat(s);
    }
  }

  datatype ValidationError =
    | DuplicateBlocks(blocks: seq<(nat, Dim)>)
    | DuplicateWarpIds(warps: seq<(nat, Dim, nat)>)

  function BlockKeys(trace: seq<Entry>): (r: seq<(nat, Dim)>)
    ensures |r| == |trace| && forall i :: 0 <= i < |trace| ==> r[i] == (trace[i].kernelId, trace[i].blockId)
  {
    seq(|trace|, i requires 0 <= i < |trace| => (trace[i].kernelId, trace[i].blockId))
  }

  function WarpKeys(trace: seq<Entry>): (r: seq<(nat, Dim, nat)>)
    ensures |r| == |trace|
    ensures forall i :: 0 <= i < |trace| ==> r[i] == (trace[i].kernelId, trace[i].blockId, trace[i].warpIdInBlock)
  {
    seq(|trace|, i requires 0 <= i < |trace| => (trace[i].kernelId, trace[i].blockId, trace[i].warpIdInBlock))
  }

  /** `is_valid_trace`: the duplicates of the deduplicated block keys, then of
      the deduplicated warp keys. */
  function IsValidTrace(trace: seq<Entry>): (r: W.Option<ValidationError>)
  {
    var blocks := Duplicates(Dedup(BlockKeys(trace)));
    if blocks != [] then W.Some(DuplicateBlocks(blocks))
    else
      var warps := Duplicates(Dedup(WarpKeys(trace)));
      if warps != [] then W.Some(DuplicateWarpIds(warps)) else W.None
  }

  /** A trace is rejected exactly when a block, or a warp of a block, comes
      back after the trace moved on to another one; blocks are checked first. */
  lemma IsValidTraceSpec(trace: seq<Entry>)
    ensures IsValidTrace(trace).Some? && IsValidTrace(trace).value.DuplicateBlocks?
      <==> ReturnsAfterOther(BlockKeys(trace))
    ensures IsValidTrace(trace) == W.None
      <==> !ReturnsAfterOther(BlockKeys(trace)) && !ReturnsAfterOther(WarpKeys(trace))
  {
    DuplicatesEmptyIffNoRepeat(Dedup(BlockKeys(trace)));
    DedupRepeatIff(BlockKeys(trace));
    DuplicatesEmptyIffNoRepeat(Dedup(WarpKeys(trace)));
    DedupRepeatIff(WarpKeys(trace));
  }
}
