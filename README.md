# A verified model of the box GPU simulator's core components

This project models, in Dafny, the small deterministic components at the
heart of the box GPU simulator and of the C++ reference simulator it is
checked against, together with the string helpers of the statistics
viewer. Each component is modelled after its own source file, in that
file's form: state that the source updates in place is a class with
`modifies` clauses, loops are methods with invariants proved against a
specification function, and expression code is functions and lemmas.

| module | file | source |
|---|---|---|
| `TagArray` | `tag_array.dfy` | `src/tag_array.rs`: probing (hit, pending hit, sector miss, miss), LRU/FIFO victim choice under the dirty-line budget, access, the two fill paths, flush, invalidation, the dirty-line count and the pending-line table |
| `LineCacheBlock` | `line_cache_block.dfy` | `playground/sys/src/ref/line_cache_block.hpp`: the reference simulator's line state machine INVALID → RESERVED → VALID/MODIFIED |
| `CacheController` | `cache_controller.dfy` | `src/cache/controller.rs`: tag, block and MSHR addresses by masking |
| `CacheL2` | `cache_l2.dfy` | `src/cache/l2.rs`: the L2 address functions and its used-bytes statistic |
| `CacheConfig` | `cache_config.dfy` | `ptx/bison/src/cache_config.hpp`: the configuration-string fields, defaults and derived sizes |
| `Barrier` | `barrier.dfy` | `src/barrier.rs`: the barrier set as warp masks |
| `Warps` | `warp.dfy` | `src/warp.rs`: the two-slot instruction buffer and the warp predicates |
| `Core` | `core.dfy` | `src/core.rs`: local-memory address translation, the hardware-thread search, block issue, warp binding and reclaiming, the fetch and issue rotations and the result busses |
| `SchedulerUnit` | `scheduler_unit.dfy` | `playground/sys/src/ref/scheduler_unit.cc`: the warp ordering and the per-warp issue loop with its stall classification |
| `Fifo` | `fifo.dfy` | `src/fifo.rs`: the bounded queue |
| `RegisterSet` | `register_set.dfy` | `playground/sys/src/ref/register_set.hpp`: oldest-ready and first-free slot selection |
| `OperandCollector` | `operand_collector.dfy` | `src/operand_collector.rs`: register banks, collector units, the wavefront arbiter, the dispatch units and writeback bank claims |
| `MemFetch` | `mem_fetch.dfy` | `src/mem_fetch.rs`: access kinds, packet sizes and the request/reply transitions |
| `Allocation` | `allocation.dfy` | `src/allocation.rs`: address-range allocations and their id assignment |
| `MemorySpace` | `memory_space.dfy` | `ptx/bison/src/memory_space.hpp`: memory-space equality, order and predicates |
| `OperandInfo` | `operand_info.dfy` | `ptx/bison/src/operand_info.hpp`: PTX operand descriptors |
| `Interconnect` | `interconnect.dfy` | `playground/sys/src/ref/intersim2/interconnect_interface.cpp`: flit counting, subnet choice, virtual-channel round robin, boundary-buffer packet reassembly and the node maps |
| `TraceGpgpuSim` | `trace_gpgpu_sim.dfy` | `playground/sys/src/ref/trace_gpgpu_sim.cc`: kernel slots and selection, clock domains, statistics, block issue rotation, termination and copy chunking |
| `Histogram` | `histogram.dfy` | `playground/sys/src/ref/stats/histogram.cc`: power-of-two and linear binning |
| `TraceModel` | `trace_model.dfy` | `trace/model/src/lib.rs`: trace constants, register packing, entry order, grouping by warp and the trace validity check |
| `ExecModel` | `exec_model.dfy` | `exec/src/model.rs`: the tracer's instruction equality |
| `View` | `view.dfy` | `gpucachesim/stats/view.py`: label normalisation, run-length encoding, column filtering, labels, legend order and file names |
| `Wrappers`, `Arith` | `wrappers.dfy`, `arith.dfy` | the shared `Option` and `Ordering` types, powers of two and facts about Euclidean division |

Integers are unbounded; where the source's width matters (64-bit
addresses, `u32::MAX` sentinels, `u64::MAX` replacement times) it is
written out as a `bv64` type, a constant or an explicit bound. A `panic!`
or `unimplemented!` that the source reaches on some input is modelled as an
error result. A source assertion about its caller's arguments, or an index
the caller must keep in range, is a precondition; "## Left out" names each
such member and the assertion or index it comes from.

## Model

| member | source | states |
|---|---|---|
| TagArray.DefaultLine | src/tag_array.rs:60-80 | a default line is invalid, not modified and not reserved |
| TagArray.DirtyPercent | src/tag_array.rs:340-343 | the share of dirty lines as a whole percentage, ⌊num_dirty·100/total_lines⌋; with no lines, 0 when nothing is dirty and the saturated `u64` maximum otherwise |
| TagArray.AllocateLine | src/tag_array.rs:190-196 | an allocated line holds the new tag and block address, has the accessed sector reserved, is valid and not modified, and records the allocation and access time |
| TagArray.AllocateSectorLine | src/tag_array.rs:205 | reserving one more sector keeps the tag and block address and leaves the line valid and reserved |
| TagArray.FillLine | src/tag_array.rs:515-573 | a fill makes the sector modified or valid as its pending fill says, and keeps the tag |
| TagArray.SetSectorStatus | src/tag_array.rs:231-261 | only the given sector takes the new status, and the tag is kept |
| TagArray.SetLastAccess | src/tag_array.rs:154 | the access time changes and the sector states do not |
| TagArray.InvalidLine | src/tag_array.rs:224-248 | when every sector is set invalid the line is invalid, neither modified nor reserved |
| TagArray.RefillKeepsDirt | src/tag_array.rs:566-576 | a sector that was modified when it was reserved again comes back modified from the fill, and only then |
| TagArray.AllocateThenFillIsClean | src/tag_array.rs:559-576 | the fill of a freshly allocated line leaves the sector valid and the line clean, unreserved and holding the new tag |
| TagArray.CountModifiedSectors | src/tag_array.rs:177-179 | the number of dirty sectors is at most the sector count, and zero exactly when no sector is modified |
| TagArray.Evict | src/tag_array.rs:171-180 | the writeback record of a victim carries its block address and exactly its modified sectors, and its modified size is at least one sector exactly when the line is modified |
| TagArray.CountModified | src/tag_array.rs:170-209 | the number of modified lines is at most the number of lines |
| TagArray.CountModifiedUpdate | src/tag_array.rs:170-209 | replacing one line changes the count by exactly the difference in that line's modified status |
| TagArray.CountModifiedZero | src/tag_array.rs:236-247 | the count is zero exactly when no line is modified |
| TagArray.NumUsedLines | src/tag_array.rs:583-585 | the used lines are at most all lines |
| TagArray.NumUsedLinesZero | src/tag_array.rs:583-585 | no line is used exactly when every line is invalid |
| TagArray.HitStatus | src/tag_array.rs:395-418 | a line with the tag decides the probe as a hit, a pending hit or a sector miss |
| TagArray.FirstDecisiveFrom | src/tag_array.rs:361-420 | the first deciding way is a way of the set |
| TagArray.FirstDecisiveFromSpec | src/tag_array.rs:361-420 | the way found decides the probe and no earlier way does; with none found, no way does |
| TagArray.LastEligibleInvalid | src/tag_array.rs:424-436 | the last eligible invalid way is a way of the set |
| TagArray.LastEligibleInvalidSpec | src/tag_array.rs:424-436 | the way found is eligible and invalid and no later way is both; with none found, no way is |
| TagArray.BestValid | src/tag_array.rs:336-450 | the valid victim is a way of the set |
| TagArray.BestValidSpec | src/tag_array.rs:336-450 | the valid victim is an eligible valid way whose LRU or FIFO time is below `u64::MAX`, no later than any candidate's and strictly earlier than every earlier candidate's; with none found, every candidate's time is `u64::MAX` |
| TagArray.Probe | src/tag_array.rs:323-495 | a found index is a way of the set |
| TagArray.ProbeSpec | src/tag_array.rs:323-495 | the probe reports a hit status exactly when a way holds the tag in a deciding state, and then for the first such way; it returns nothing exactly when every way is reserved, or modified while the dirty share is below the limit; otherwise it reports a miss on an eligible way, invalid if there is one, else one of least replacement time |
| TagArray.ProbeWays | src/tag_array.rs:323-495 | the scan of `probe_masked` computes `Probe` |
| TagArray.AccessedLine | src/tag_array.rs:144-214 | an accessed line stays well formed |
| TagArray.AccessEvicted | src/tag_array.rs:170-182 | an access evicts a block exactly on a miss under allocate-on-miss over a modified line, and the record is that line's writeback |
| TagArray.AccessLine | src/tag_array.rs:144-214 | the line update of `access` is `AccessedLine`, the eviction is `AccessEvicted`, and `cleaned` says the line stopped being modified |
| TagArray.CountModifiedPositive | src/tag_array.rs:181-207 | a modified line makes the dirty count positive, so decrementing it does not underflow |
| TagArray.AllocatedForFill | src/tag_array.rs:549-568 | on a miss the line is allocated with the new tag and is clean; otherwise the tag is kept |
| TagArray.FillOnFillLine | src/tag_array.rs:549-576 | the fill path allocates or reserves as the probe says, then fills; the flags record when a modified line became clean and when a clean one became modified |
| TagArray.AllocatedForFillNoDirtier | src/tag_array.rs:549-571 | allocating for a fill never makes a clean line modified |
| TagArray.AddPendingLineAsWritten | src/tag_array.rs:282-288 | `add_pending_line` as written: the uid is stored only under a block that is already pending |
| TagArray.PendingLinesNeverGrow | src/tag_array.rs:282-288 | as written, `add_pending_line` only overwrites entries that exist, so no block address ever becomes pending |
| TagArray.AddPendingLine | src/tag_array.rs:282-288 | as intended, the block becomes pending with the instruction's uid if it was not, and the table is otherwise unchanged |
| TagArray.RemovePendingLine | src/tag_array.rs:291-294 | the block is no longer pending and every other entry is unchanged |
| TagArray.AddRemovePending | src/tag_array.rs:282-294 | adding a block that was not pending and removing it again restores the table |
| TagArray.Tags.constructor | src/tag_array.rs:60-80 | a new tag array has `numLines` default lines, every counter zero and no pending lines |
| TagArray.Tags.ProbeAt | src/tag_array.rs:307-362 | a found index lies in the addressed set |
| TagArray.Tags.ProbeMasked | src/tag_array.rs:323-495 | the method computes the probe of the addressed set |
| TagArray.Tags.Access | src/tag_array.rs:126-221 | the access is counted; when every way is reserved it counts a reservation failure and changes no line; when no way is eligible otherwise it panics; otherwise only the found line changes, as `AccessedLine` says, with the eviction `AccessEvicted` gives, one more miss on a miss and one more pending hit on a pending hit; an exact dirty count stays exact |
| TagArray.Tags.AccessFound | src/tag_array.rs:144-221 | after the probe, only the found line changes, as `AccessedLine` says, and the dirty, miss and pending-hit counts change by that access alone |
| TagArray.Tags.SetLine | src/tag_array.rs:153-203 | storing one line changes the count of modified lines by that line's contribution, and nothing else |
| TagArray.Tags.Flush | src/tag_array.rs:224-238 | every modified line is invalidated and the others are unchanged; the number returned is the number of modified lines, and the dirty count becomes 0 |
| TagArray.Tags.Invalidate | src/tag_array.rs:241-248 | every line becomes invalid, no line is used, and the dirty count becomes 0 |
| TagArray.Tags.InvalidateAddr | src/tag_array.rs:250-264 | in the addressed set, the addressed sector of every way holding the tag becomes invalid; other lines and the dirty count are unchanged |
| TagArray.Tags.FillOnMiss | src/tag_array.rs:497-519 | only the reserved line is filled, and the dirty count rises by one exactly when the fill made it modified |
| TagArray.Tags.FillOnFill | src/tag_array.rs:521-577 | when every way is reserved nothing changes, and when no way is eligible otherwise it panics; otherwise the found line is allocated or reserved as the probe says and filled, and the dirty count follows the line's change |
| TagArray.Tags.FillFound | src/tag_array.rs:549-576 | after the probe, only the found line changes, and the dirty count follows it |
| TagArray.Tags.AddPending | src/tag_array.rs:282-288 | the pending table becomes the corrected `AddPendingLine` of the old one, not the as-written update; the lines are unchanged |
| TagArray.Tags.RemovePending | src/tag_array.rs:291-294 | the pending table becomes `RemovePendingLine` of the old one; the lines are unchanged |
| TagArray.FlushLines | src/tag_array.rs:226-235 | the loop invalidates every modified line, keeps the others, and counts the modified lines |
| TagArray.InvalidateLines | src/tag_array.rs:242-246 | the loop invalidates every line |
| TagArray.InvalidateTagInSet | src/tag_array.rs:257-263 | the loop invalidates the sector in each way of the set that holds the tag, and never raises the count of modified lines |
| TagArray.InvalidateSectors | src/tag_array.rs:228-245 | setting every sector invalid gives the invalid line |
| TagArray.InvalidSectorNotModifying | src/tag_array.rs:261 | invalidating one sector never makes a line modified |
| TagArray.InvalidateAddrLeavesCountStale | src/tag_array.rs:250-264 | a line whose only modified sector is invalidated stops being modified while the dirty count stays, so `invalidate_addr` can leave the count above the number of dirty lines |
| LineCacheBlock.OrMask | playground/sys/src/ref/line_cache_block.hpp:61-66 | the OR of two masks has their length and each bit is the OR of the two bits |
| LineCacheBlock.Block.constructor | playground/sys/src/ref/line_cache_block.hpp:9-18 | a new line is invalid and readable, with all three times 0 and no on-fill flag set |
| LineCacheBlock.Block.Allocate | playground/sys/src/ref/line_cache_block.hpp:19-31 | the line becomes reserved for the tag and block address, allocation and last-access time are set, the fill time is 0 and every on-fill flag is cleared, while readability and dirty bytes are kept |
| LineCacheBlock.Block.Fill | playground/sys/src/ref/line_cache_block.hpp:32-43 | the line becomes modified if modified-on-fill was requested and valid otherwise; it becomes readable and takes the byte mask only when those flags are set; the fill time is set and nothing else changes |
| LineCacheBlock.Block.SetStatus | playground/sys/src/ref/line_cache_block.hpp:57-60 | only the status changes, whatever the sector mask |
| LineCacheBlock.Block.SetByteMask | playground/sys/src/ref/line_cache_block.hpp:61-66 | the byte mask is ORed into the dirty mask, so no dirty bit is ever cleared, and nothing else changes |
| LineCacheBlock.ByteMasksAccumulate | playground/sys/src/ref/line_cache_block.hpp:61-66 | setting the same byte mask twice is setting it once, and two masks set one after the other give the same mask in either order |
| LineCacheBlock.Block.DirtySectorMask | playground/sys/src/ref/line_cache_block.hpp:70-74 | every sector is dirty when the line is modified and none otherwise |
| LineCacheBlock.Block.ModifiedSize | playground/sys/src/ref/line_cache_block.hpp:98-100 | the modified size is always SECTOR_CHUNCK_SIZE × SECTOR_SIZE, a whole line |
| LineCacheBlock.Block.SetLastAccessTime | playground/sys/src/ref/line_cache_block.hpp:78-81 | only the last-access time changes |
| LineCacheBlock.Block.SetOnFill | playground/sys/src/ref/line_cache_block.hpp:83-97 | the four on-fill flags are set and nothing else changes |
| LineCacheBlock.Block.SetReadable | playground/sys/src/ref/line_cache_block.hpp:101-104 | only the readable flag changes |
| LineCacheBlock.LifeCycle | playground/sys/src/ref/line_cache_block.hpp:19-74 | allocating a new line reserves it; a fill with modified-on-fill makes it modified with every sector dirty, and one without makes it valid with no sector dirty |
| CacheController.ClearLowBits | src/cache/controller.rs:186-208 | `addr & !(size - 1)` has no bit of `size - 1` set and only bits of `addr` |
| CacheController.ClearIdempotent | src/cache/controller.rs:186 | clearing the low bits twice is the same as once |
| CacheController.ClearAligns | src/cache/controller.rs:186 | for a power-of-two size, the result is at most `addr` and less than `size` below it |
| CacheController.ClearFinerThenCoarser | src/cache/controller.rs:186-208 | clearing at a finer power of two and then at a coarser one equals clearing at the coarser one, and the coarse result is at most the fine one |
| CacheController.L1TagSpec | src/cache/controller.rs:173-193 | the L1 tag and block address are equal, line-aligned, idempotent and less than a line below the address |
| CacheController.L1MshrInLine | src/cache/controller.rs:206-209 | the L1 MSHR address is atom-aligned and lies in the same line as the address, at or below it |
| CacheController.L1Tag | src/cache/controller.rs:172-185 | the address with the bits below the line size cleared (`L1TagSpec`) |
| CacheController.L1BlockAddr | src/cache/controller.rs:189-192 | the block address is the tag (`L1TagSpec`) |
| CacheController.L1MshrAddr | src/cache/controller.rs:204-207 | the address with the bits below the atom size cleared (`L1MshrInLine`) |
| CacheL2.L2SetBank | src/cache/l2.rs:127-130 | the L2 is not banked: the bank is always 0 |
| CacheL2.L2TagSpec | src/cache/l2.rs:62-82 | the L2 tag and block address are equal to each other and to the L1 tag, line-aligned, idempotent and less than a line below the address |
| CacheL2.L2MshrSpec | src/cache/l2.rs:132-137 | the L2 MSHR address is atom-aligned, at or below the address and in the same line |
| CacheL2.L2Tag | src/cache/l2.rs:62-76 | the address with the bits below the line size cleared (`L2TagSpec`) |
| CacheL2.L2BlockAddr | src/cache/l2.rs:79-82 | the block address is the tag (`L2TagSpec`) |
| CacheL2.L2MshrAddr | src/cache/l2.rs:132-137 | the address with the bits below the atom size cleared (`L2MshrSpec`) |
| CacheL2.UsedBytesBounded | src/cache/l2.rs:267-270 | the used bytes, used lines times line size, never exceed the total lines times line size |
| CacheConfig.Log2 | ptx/bison/src/cache_config.hpp:139-143 | the logarithm used for line size, set count and sector size is the floor of the base-2 logarithm: `2^r <= n < 2^(r+1)` for positive `n`, and 0 for 0 and 1 |
| CacheConfig.Configure | ptx/bison/src/cache_config.hpp:24-144 | fewer than twelve fields give Disabled exactly for the string "none" and a parse error otherwise; a full string keeps the scanned geometry, records the original associativity, keeps the earlier queue sizes when their fields are absent, uses a port width that divides the line size, an atom size set by the cache type, and the sector-size logarithm |
| CacheConfig.PortWidthDefault | ptx/bison/src/cache_config.hpp:211-214 | a port width of 0 becomes the line size; an explicit width that divides the line size is kept; one that does not fails the assertion |
| CacheConfig.TotalSizeInKB | ptx/bison/src/cache_config.hpp:298-301 | when the product of associativity, sets and line size fits in 32 bits, the result is that byte count divided by 1024, rounded down |
| CacheConfig.PrintedSize | ptx/bison/src/cache_config.hpp:257-260 | the printed size is a signed 32-bit value, and it equals the byte count when that is below 2^31 |
| CacheConfig.CacheConfig.constructor | ptx/bison/src/cache_config.hpp:13-23 | a new configuration is enabled and has port width 0 |
| CacheConfig.CacheConfig.Init | ptx/bison/src/cache_config.hpp:24-144 | `init` records the cache status, becomes disabled for "none", and on success takes the geometry `Configure` computes; on failure the geometry is unchanged |
| CacheConfig.CacheConfig.SetAssoc | ptx/bison/src/cache_config.hpp:290-293 | only the current associativity changes; the original associativity and every other field stay as they were |
| CacheConfig.CacheConfig.GetLineSz | ptx/bison/src/cache_config.hpp:237-240 | the line size of the current geometry |
| CacheConfig.CacheConfig.GetNset | ptx/bison/src/cache_config.hpp:294-297 | the number of sets of the current geometry |
| CacheConfig.CacheConfig.Print | ptx/bison/src/cache_config.hpp:257-260 | `PrintedSize` of the current geometry |
| CacheConfig.CacheConfig.GetTotalSizeInKB | ptx/bison/src/cache_config.hpp:298-301 | `TotalSizeInKB` of the current geometry |
| CacheConfig.CacheConfig.GetCacheStatus | ptx/bison/src/cache_config.hpp:303 | the cache status `init` recorded |
| Barrier.ReleasedBelow | src/barrier.rs:121-132 | a warp is released exactly when, at some barrier below `n`, the block's warps there equal the block's active warps and the warp is one of them |
| Barrier.BoundedKeys | src/barrier.rs:71-73 | a set of block ids all below `max_blocks_per_core` has at most that many members |
| Barrier.BarrierSet.constructor | src/barrier.rs:33-45 | a new barrier set has no block, no active warp, no waiting warp and an empty mask for every barrier id |
| Barrier.BarrierSet.Allocate | src/barrier.rs:71-90 | for a new block below `max_blocks_per_core`, its warps are recorded, become active and are removed from the waiting mask and from every barrier mask |
| Barrier.BarrierSet.Deallocate | src/barrier.rs:91-110 | an unknown block changes nothing; a known one, none of whose warps is active or waiting, is forgotten and every mask stays as it was |
| Barrier.BarrierSet.IsWaitingAtBarrier | src/barrier.rs:67-69 | a warp waits at the barrier exactly when its bit is set in the mask of warps at the barrier |
| Barrier.BarrierSet.WarpExited | src/barrier.rs:112-133 | the warp stops being active; if it is in a block, every barrier at which the block's arrived warps equal its remaining active warps releases them from that barrier and from the waiting mask, and otherwise nothing else changes |
| Barrier.BarrierSet.WarpReachedBarrier | src/barrier.rs:135-183 | the warp joins the barrier's mask, and the waiting mask unless the barrier only arrives; the barrier opens when arrived warps times warp size equals the count, or without a count when the arrived warps equal the block's active warps, and then those warps leave both masks; an opening reduction barrier reports the unimplemented path |
| Barrier.ArrivalKeepsBlocked | src/barrier.rs:148-182 | after an arrival and a release every waiting warp is still in some barrier's mask |
| Barrier.ReleaseKeepsValid | src/barrier.rs:121-132 | after the releases of `warp_exited` every waiting warp is still in some barrier's mask, and no barrier mask gains a warp |
| Barrier.LastArrivalOpens | src/barrier.rs:172-182 | when the last active warp of a block reaches a sync barrier without a count, the barrier opens, no warp of the block is left at it and none of its arrived warps is still waiting |
| Warps.CountFilled | src/warp.rs:82-84 | the number of filled slots is at most the number of slots, and 0 exactly when every slot is empty |
| Warps.CountZeros | src/warp.rs:276-278 | the number of cleared bits is at most the mask's length |
| Warps.CountZerosAll | src/warp.rs:276-288 | a mask counts as many cleared bits as it is long exactly when no bit is set |
| Warps.InstructionBuffer.constructor | src/warp.rs:56-61 | a new buffer has `size` empty slots and position 0 |
| Warps.InstructionBuffer.Size | src/warp.rs:82-84 | the size is at most the number of slots |
| Warps.InstructionBuffer.IsEmpty | src/warp.rs:82-88 | the buffer is empty exactly when its size is 0 |
| Warps.InstructionBuffer.Fill | src/warp.rs:70-74 | for a slot below the capacity, the instruction is stored there, no other slot changes, and the position restarts at 0 |
| Warps.InstructionBuffer.Flush | src/warp.rs:90-99 | every slot is emptied and the count returned is the number of slots that held an instruction |
| Warps.InstructionBuffer.Peek | src/warp.rs:105-107 | the slot at the current position is returned; it holds an instruction exactly when that slot is filled |
| Warps.InstructionBuffer.Take | src/warp.rs:109-111 | the slot at the current position is emptied and its old content, the one `peek` showed, is returned; the size drops by one exactly when it held an instruction |
| Warps.InstructionBuffer.Step | src/warp.rs:113-115 | the position advances by one modulo the number of slots |
| Warps.InstructionBuffer.Reset | src/warp.rs:117-120 | every slot is empty and the position is 0 |
| Warps.FilledUpdate | src/warp.rs:82-84 | overwriting one slot changes the number of filled slots by the difference between the new and the old content |
| Warps.Warp.constructor | src/warp.rs:123-146 | a default warp has no kernel, both ids `u32::MAX`, an empty trace and mask, nothing in flight and an empty two-slot buffer |
| Warps.Warp.Init | src/warp.rs:149-165 | block id, warp id, dynamic id, kernel and mask are set, the warp is no longer exited, and the trace and counters are kept |
| Warps.Warp.Reset | src/warp.rs:167-178 | for a warp with no outstanding store and nothing in the pipeline: no instruction miss pending, both ids `u32::MAX`, mask cleared, exited, buffer reset; afterwards the warp is functionally done, done in hardware and waiting |
| Warps.Warp.CurrentInstr | src/warp.rs:181-183 | the instruction at the trace position is returned exactly when the position is inside the trace |
| Warps.Warp.InstructionCount | src/warp.rs:196-198 | the number of instructions in the trace |
| Warps.Warp.PushTraceInstruction | src/warp.rs:185-187 | the instruction is appended to the trace, the position is kept, and the active mask, ids, counters and flags are unchanged |
| Warps.Warp.NextTraceInst | src/warp.rs:189-193 | the current instruction is returned and the position moves past it; at the end of the trace nothing is returned and the position stays, which happens exactly when the warp is done; the trace, the active mask, ids, counters and flags are unchanged |
| Warps.Warp.Pc | src/warp.rs:201-207 | a program counter is returned exactly when the warp is not done, and it is the current instruction's |
| Warps.Warp.Done | src/warp.rs:209-211 | a warp is done when its position has reached the end of the trace |
| Warps.Warp.Clear | src/warp.rs:213-216 | the trace is emptied and the position reset, so the warp is done; the active mask, ids, counters and flags are unchanged |
| Warps.Warp.NumCompleted | src/warp.rs:276-288 | the completed threads are the cleared bits of the mask; all threads have completed exactly when the warp is functionally done |
| Warps.Warp.SetThreadCompleted | src/warp.rs:280-282 | only the thread's bit is cleared: the trace, its position, the ids, counters and flags are unchanged |
| Warps.Warp.HardwareDone | src/warp.rs:261-263 | done in hardware: functionally done, no outstanding store and nothing in the pipeline |
| Warps.Warp.StoresDone | src/warp.rs:271-273 | no store is outstanding |
| Warps.Warp.FunctionalDone | src/warp.rs:286-288 | every thread of the active mask has completed |
| Warps.Warp.Waiting | src/warp.rs:291-304 | a functionally done warp is waiting; otherwise it waits while an atomic is outstanding, the barrier tests being commented out in the source |
| Warps.CountZerosClear | src/warp.rs:276-282 | clearing one thread's bit raises the count of completed threads by one when the bit was set and leaves it otherwise |
| Warps.ReplayTrace | src/warp.rs:189-211 | calling `next_trace_inst` until it yields nothing returns the rest of the trace in order and leaves the warp done |
| Core.ThreadBase | src/core.rs:1504-1533 | a thread's local base is word aligned, in both the per-block and the legacy mapping |
| Core.ThreadBaseBounded | src/core.rs:1504-1534 | a thread of a core in range has its base below four bytes per concurrent thread, the bound the translation asserts |
| Core.BlockSlotDecodes | src/core.rs:1518-1523 | in the per-block mapping a thread's slot determines its core, its block and its thread within the block |
| Core.ThreadSlotInjective | src/core.rs:1504-1533 | distinct threads in range never share a local slot, so no thread's local memory aliases another's |
| Core.LocalAddressDecodes | src/core.rs:1554-1572 | a translated address decodes back to its word, its thread's base and its byte in the word |
| Core.TranslateLocalMemaddr | src/core.rs:1489-1576 | a request of four or more bytes becomes one address per word, successive addresses four bytes per concurrent thread apart; a smaller request becomes one address with its byte offset; every address decodes back to its word and the thread's base |
| Core.FirstFreeRange | src/core.rs:2409-2437 | the start found is the first block-aligned start whose range holds no occupied thread, and None means every aligned range below the limit holds one |
| Core.Occupy | src/core.rs:2430-2431 | the range is marked occupied and the rest of the mask is kept |
| Core.WarpRange | src/core.rs:1889-1890 | the set holds exactly the warp ids in the range |
| Core.BarrierWarpsAsWritten | src/core.rs:1885-1890 | as written, the barrier mask holds the warps from the first thread's warp up to, but not including, `end / WARP_SIZE` |
| Core.BarrierWarps | src/core.rs:2484-2486 | as intended, the barrier mask holds exactly the warps `init_warps` binds to the block, the last one rounded up |
| Core.BarrierMaskMissesPartialWarp | src/core.rs:1885-1890 | for a 48-thread block in slot 0, warp 1 is bound to the block but missing from the written barrier mask |
| Core.BarrierWarpsHoldEveryThread | src/core.rs:1885-1890 | the warp of every thread of a block starting on a warp boundary is in the corrected barrier mask |
| Core.LaneMask | src/core.rs:2495-2502 | lane `l` of warp `w` is active exactly when its hardware thread is below the block's end |
| Core.ActiveLanes | src/core.rs:2493-2501 | a warp has at most `WARP_SIZE` active lanes |
| Core.LaneMaskCount | src/core.rs:2504-2507 | the counted lanes are the set bits of the lane mask |
| Core.InitWarpsCountBlock | src/core.rs:2484-2521 | the lanes activated for a block that starts on a warp boundary add up to the block's size |
| Core.ResetWarp | src/warp.rs:167-178 | a reset warp is exited, unbound (`u32::MAX` ids), with no active lane and no instruction miss pending, and it keeps its slot and kernel |
| Core.FillRange | src/core.rs:1629-1637 | the range takes the value and the rest of the mask is kept |
| Core.CountPositiveUpdate | src/core.rs:1796-1802 | changing one slot's thread count changes the number of occupied slots by that slot alone |
| Core.FirstZero | src/core.rs:1803-1810 | the slot found is the first with no threads, and None means every slot holds threads |
| Core.FirstZeroWithinCount | src/core.rs:1796-1810 | the first free slot is never beyond the number of occupied slots |
| Core.FreeSlotExists | src/core.rs:1803-1810 | with fewer occupied slots than slots, a free slot is found |
| Core.EmptySlots | src/core.rs:817-834 | the slots of a new core are consistent and hold no block |
| Core.OccupySlotOk | src/core.rs:1937-1948 | occupying a free slot with a non-empty block keeps the slots consistent and counts the block once |
| Core.ReleaseThreads | src/core.rs:2101-2205 | the exited threads leave the slot; a slot that keeps threads keeps its block and barrier, an emptied one drops both and is counted out |
| Core.ReinitOfClears | src/core.rs:1629-1656 | the threads of the range become inactive and the warps wholly inside it are reset, nothing else changes; with `reset_not_completed` no thread is active and both counters are zero |
| Core.InitOfBinds | src/core.rs:2474-2521 | the block's threads become active; every warp holding one is bound to the slot and the kernel with its lane mask and the next dynamic id; other warps are kept; the counters grow by the warps bound and, for a block on a warp boundary, by the block's size |
| Core.IssuedThreadBound | src/core.rs:1838-1947 | after issue, every thread of the block is active, in an active lane of a warp bound to the block's slot, and that warp is one of the block's barrier participants |
| Core.ReinitKeepsShape | src/core.rs:1629-1656 | reset keeps every warp's lane mask full width |
| Core.InitKeepsShape | src/core.rs:2474-2521 | binding keeps every warp's lane mask full width |
| Core.ReinitThreads | src/core.rs:1629-1656 | the loop of `reinit` computes `ReinitOf` |
| Core.InitThreads | src/core.rs:2484-2521 | the loop of `init_warps` computes `InitOf` |
| Core.IssueRangeFits | src/core.rs:1838-1840 | the first free slot's threads and the warps holding them lie within the core |
| Core.IssuedWithBlock | src/core.rs:1838-1948 | issuing the current block into the free slot is an issue step, with the corrected, rounded-up barrier mask |
| Core.IssuedWithoutBlock | src/core.rs:1844-1871 | with no current block the slot's threads are only reset, and nothing is issued |
| Core.IssueInto | src/core.rs:1728-1958 | the slots and threads stay consistent, and the step is an issue step; the barrier mask is the corrected one that rounds the last warp up |
| Core.ScanKeepsCoreShape | src/core.rs:958-1163 | a scan that does not panic keeps the core's slots and threads consistent and every warp's pending instruction miss |
| Core.Core.constructor | src/core.rs:569-862 | a new core has no kernel, empty slots, default warps, clear masks and result busses, an empty fetch buffer and both round-robin positions 0 |
| Core.Core.Reinit | src/core.rs:1629-1656 | the threads become `ReinitOf` the old ones, the occupied threads are cleared when asked, and nothing else changes |
| Core.Core.InitWarps | src/core.rs:2474-2533 | the threads become `InitOf` the old ones for the current kernel, and nothing else changes |
| Core.Core.IssueBlockActually | src/core.rs:1728-1958 | with no free slot it reports success and changes nothing; otherwise the slot's threads are reset and, when the kernel has a current block, the block is recorded in the slot with its corrected, rounded-up barrier warps, its threads bound and the kernel's running blocks counted |
| Core.Core.CanIssueBlock | src/core.rs:1611-1621 | without concurrent kernels, a block can be issued while fewer blocks are active than the kernel allows per core |
| Core.Core.RegisterThreadsInBlockExited | src/core.rs:2091-2206 | the slot loses the exited threads; once it has none, it is released, the kernel's running count drops, and the kernel is dropped when it has nothing left to issue or run or the core holds no block |
| Core.Core.FindAvailableHwThreadId | src/core.rs:2404-2438 | an empty block gets slot 0 whenever the core has threads and occupies nothing; otherwise the first block-aligned free range of hardware threads is returned and marked occupied when asked, and None means every aligned range holds an occupied thread; nothing else changes |
| Core.Core.Issue | src/core.rs:2281-2342 | the schedulers issue in round-robin order from the one holding the priority, and the priority passes to the next |
| Core.Core.Fetch | src/core.rs:1169-1211 | with the fetch buffer full nothing changes; with an instruction ready from the cache the buffer takes it and its warp's miss clears; otherwise the warps are scanned from the one after the last fetched |
| Core.Core.FindActiveWarpAndFetch | src/core.rs:918-1166 | the scan visits the warps from the one after the last fetched, reclaims completed warps, and on the first warp that needs an instruction records it as last fetched and marks it missing on a miss or gives it the buffer on a hit |
| Core.Core.Execute | src/core.rs:1222-1349 | every result bus shifts by a cycle, then each unit in turn reserves the first bus free at its latency if it is not stallable, issues without a bus if it is, or stalls |
| Core.EndWarpWithin | src/core.rs:2484-2486 | a block ending within the core's threads binds only existing warps |
| Core.SlotWithinThreads | src/core.rs:1838-1840 | a slot below the per-core block limit ends within the core's threads |
| Core.WarpLanes | src/core.rs:2493-2502 | the inner loop computes the warp's lane mask and its number of active lanes |
| Core.BindWarps | src/core.rs:2492-2521 | the warp loop binds every warp of the block with its lane mask and the next dynamic id, keeps the others, and returns the warps bound and the lanes activated |
| Core.ResetWarps | src/core.rs:1653-1655 | the warps of the range are reset and the others are kept |
| Core.IssueOrder | src/core.rs:2286-2287 | the order names `n` schedulers, each below `n` |
| Core.IssueOrderIsPermutation | src/core.rs:2286-2287 | one round of `issue` gives every scheduler exactly one turn |
| Core.IssueRound | src/core.rs:2286-2340 | the loop visits the schedulers in `IssueOrder` |
| Core.SupervisedWarps | src/core.rs:2290-2297 | scheduler `c` supervises, in warp order, exactly the warps whose index is `c` modulo the number of schedulers |
| Core.SupervisedPartition | src/core.rs:2290-2297 | every warp is supervised by exactly one scheduler |
| Core.ShiftLeft | src/core.rs:1229-1231 | every reservation moves a cycle closer and the last cycle becomes free |
| Core.FirstFreeBus | src/core.rs:1308-1311 | the bus found is the first free at the latency, and None means every bus is taken then |
| Core.ReserveOneMeaning | src/core.rs:1305-1346 | a unit with nothing ready or unable to issue stays idle; a stallable one issues without a bus; a non-stallable one takes the first bus free at its latency or stalls when every bus is taken; the busses only gain the reserved cycle |
| Core.ReserveAll | src/core.rs:1247-1348 | visiting the units keeps the number and width of the busses and gives one outcome per unit |
| Core.ReserveAllPrefix | src/core.rs:1247-1348 | each unit's outcome is its reservation on the busses the units before it left |
| Core.ReserveAllKeeps | src/core.rs:1247-1348 | a reserved cycle is never given up while the units are visited |
| Core.ReservationsDistinct | src/core.rs:1308-1332 | no two units are given the same bus for the same writeback cycle |
| Core.ReserveAllStall | src/core.rs:1340-1343 | a unit stalls only when every bus is already taken at its latency |
| Core.ExecuteBusses | src/core.rs:1229-1348 | the loop of `execute` computes `ReserveAll` on the shifted busses |
| Core.ShiftAll | src/core.rs:1229-1237 | every bus is shifted by one cycle |
| Core.ExitWarp | src/core.rs:988-1086 | reclaiming a completed warp, when it does not panic, keeps the slots consistent and the number of warps and slots |
| Core.ExitWarpEffect | src/core.rs:988-1086 | the warp is marked exited and no other warp changes; its threads turn inactive and no others; the core loses one active warp and the warp's active threads, which its block's slot loses too; an emptied slot is released and the kernel's running count drops |
| Core.ScanWarp | src/core.rs:960 | the warp visited at each step is a warp of the core |
| Core.ScanWarpIsMod | src/core.rs:960 | the warp visited at step `i` is `(last + 1 + i) % n` |
| Core.VisitOrder | src/core.rs:958-960 | the scan visits `n` warps, each a warp of the core |
| Core.VisitOrderRotates | src/core.rs:958-960 | step `i` visits warp `(last + 1 + i) % n`, and every warp is visited |
| Core.Reclaim | src/core.rs:981-1086 | visiting a warp keeps the slots consistent |
| Core.ScanKeepsShape | src/core.rs:958-1163 | a scan that does not panic keeps the slots consistent and every warp's pending instruction miss and lane count |
| Core.ReclaimKeepsWarps | src/core.rs:988-1086 | reclaiming keeps the thread mask's size and every warp's pending instruction miss and lane count |
| Core.Scan | src/core.rs:958-1163 | a warp fetched is a warp of the core |
| Core.ScanPicksFirstCandidate | src/core.rs:1096-1161 | a scan that fetches picks the first warp in its visiting order that needs an instruction |
| Core.ScanWithoutFetchMetNoCandidate | src/core.rs:1096-1163 | a scan that fetches nothing met no warp that needed an instruction |
| Core.ScanStep | src/core.rs:958-1163 | one step of the scan keeps every warp's candidacy, stops at a candidate, and otherwise continues with the rest of the order |
| Core.FindActiveWarp | src/core.rs:958-1163 | the loop computes the scan in `VisitOrder` |
| SchedulerUnit.RouteOf | playground/sys/src/ref/scheduler_unit.cc:252-425 | a hazard-free instruction goes only to a unit with a free slot; memory operations and only they go to the memory unit; INT needs INT units and a non-SP op; SP needs SP units and either no INT units or an SP op; SFU takes SFU ops and DP ops when there are no DP units; with `diff_exec_units` the unit differs from the previous one; only the memory, SP, INT and SFU units can be reached without throwing |
| SchedulerUnit.AluSfuNeverOnSfu | playground/sys/src/ref/scheduler_unit.cc:271-371 | an `ALU_SFU_OP` is taken by the SP/INT branch first, so it never goes to the SFU and never reaches a branch that throws |
| SchedulerUnit.CountUnit | playground/sys/src/ref/scheduler_unit.cc:252-425 | the count of instructions sent to one unit is at most the number sent in total |
| SchedulerUnit.UnitsIssuedAppend | playground/sys/src/ref/scheduler_unit.cc:168-425 | appending an issuable unit that differs from the previous one (when dual issue needs different units) keeps the issued-unit sequence well formed |
| SchedulerUnit.CheckKeepsInv | playground/sys/src/ref/scheduler_unit.cc:201-453 | an instruction that is checked but not issued only advances the check count and the valid/ready flags, and the loop invariant still holds |
| SchedulerUnit.IssueKeepsInv | playground/sys/src/ref/scheduler_unit.cc:252-498 | issuing to a free unit empties the buffer slot, steps the buffer, takes one free slot of that unit, and keeps the loop invariant |
| SchedulerUnit.Step | playground/sys/src/ref/scheduler_unit.cc:204-453 | one pass of the loop body: an empty head slot only counts a check; a scoreboard collision raises the valid flag; a routed head instruction is sent to its unit, leaves its slot, advances the buffer and takes a free slot; a stalled route raises valid and ready; an unimplemented route throws |
| SchedulerUnit.Run | playground/sys/src/ref/scheduler_unit.cc:201-454 | the loop repeats the body while the warp is not waiting, its buffer is not empty, every checked instruction issued and fewer than `max_issue` were checked, and stops at a throw |
| SchedulerUnit.IssueOf | playground/sys/src/ref/scheduler_unit.cc:201-454 | a warp's turn is the loop from no checks, no units issued, no previous unit and both flags down |
| SchedulerUnit.StepKeepsInv | playground/sys/src/ref/scheduler_unit.cc:204-453 | one pass of the loop body keeps the loop invariant and raises the check count by one |
| SchedulerUnit.IssueStepKeepsInv | playground/sys/src/ref/scheduler_unit.cc:252-425 | a pass that issues the head instruction keeps the loop invariant |
| SchedulerUnit.CheckStepKeepsInv | playground/sys/src/ref/scheduler_unit.cc:204-251 | a pass that only checks the head slot keeps the loop invariant |
| SchedulerUnit.StepIssues | playground/sys/src/ref/scheduler_unit.cc:252-425 | issuing the head appends its unit, empties its slot, advances the buffer and takes one free slot of the unit |
| SchedulerUnit.RunExtends | playground/sys/src/ref/scheduler_unit.cc:201-454 | later passes only append to the units issued and never lower the valid and ready flags |
| SchedulerUnit.IssueFirstCheck | playground/sys/src/ref/scheduler_unit.cc:201-454 | a warp that is waiting, has an empty buffer or an empty head slot issues nothing and raises no flag; a collision raises only the valid flag; a stalled route raises both and issues nothing; an unimplemented route throws; a routed head instruction is issued first, to the unit it routes to |
| SchedulerUnit.IssueWarp | playground/sys/src/ref/scheduler_unit.cc:201-454 | the loop computes `IssueOf`, whose first check `IssueFirstCheck` pins down; it issues at most `max_issue` instructions, each to an issuable unit, adjacent ones to different units under `diff_exec_units`; every issued instruction leaves the buffer and uses one free slot of its unit; if something issued, the instruction was valid and ready; if nothing issued, the buffer and free slots are unchanged |
| SchedulerUnit.IssueAccounting | playground/sys/src/ref/scheduler_unit.cc:252-425 | sending one more instruction to a unit moves one of its free slots into the count of instructions sent there |
| SchedulerUnit.OlderFirstStrict | playground/sys/src/ref/scheduler_unit.cc:500-513 | the `sort_warps_by_oldest_dynamic_id` comparator is irreflexive, asymmetric and transitive, so it is a valid strict order for sorting |
| SchedulerUnit.Outcomes | playground/sys/src/ref/scheduler_unit.cc:133-460 | a live warp's turn is `IssueOf` its buffer with the cycle's free slots; a null or exited warp does nothing |
| SchedulerUnit.StallKind | playground/sys/src/ref/scheduler_unit.cc:470-481 | a cycle without issue is idle without a valid instruction, a RAW hazard without a ready one, and a pipeline stall otherwise |
| SchedulerUnit.CycleFrom | playground/sys/src/ref/scheduler_unit.cc:133-481 | the walk over the warps in priority order skips null and exited warps, stops at the first live warp that issued or threw, and otherwise gathers the valid and ready flags for the stall kind |
| SchedulerUnit.CycleIssuerIsFirst | playground/sys/src/ref/scheduler_unit.cc:133-460 | the issuing warp is live and the first in priority order that issued anything; every live warp before it issued nothing and did not throw; the cycle takes its buffer and free slots |
| SchedulerUnit.CycleStallKind | playground/sys/src/ref/scheduler_unit.cc:470-481 | when nothing issued and nothing threw, no live warp issued, buffers and free slots are unchanged, and the cycle is idle when no live warp had a valid instruction, a RAW hazard when none had a ready one, and a pipeline stall otherwise |
| SchedulerUnit.CycleWarps | playground/sys/src/ref/scheduler_unit.cc:133-481 | the cycle is `CycleFrom` over the warps' `Outcomes`; at most one warp issues; it is live and issues between 1 and `max_issue` instructions; other warps' buffers are unchanged; when no warp issued, nothing changed |
| SchedulerUnit.Scheduler.Cycle | playground/sys/src/ref/scheduler_unit.cc:20-490 | the cycle's outcome is `CycleFrom` over the warps' `Outcomes`; one issue counts as single issue and more than one as dual issue, recording the count issued; a cycle with no issue counts in one stall bucket and changes nothing else; when the issuing warp is supervised, the last-issued position names its last occurrence among the supervised warps, and otherwise it stays; a throw changes nothing |
| SchedulerUnit.Scheduler.constructor | playground/sys/src/ref/scheduler_unit.cc:463-489 | a new scheduler supervises the given warps and starts with the last-issued position, the issue count, both issue counters and the three cycle buckets at zero |
| SchedulerUnit.StallIndex | playground/sys/src/ref/scheduler_unit.cc:482-489 | idle or control hazard counts in bucket 0, waiting for a RAW hazard in bucket 1, and a stalled pipeline in bucket 2 |
| SchedulerUnit.DualIssueDistinct | playground/sys/src/ref/scheduler_unit.cc:162-203 | with at most two instructions per warp and cycle, dual issue under `diff_exec_units` sends the warp's instructions in one cycle to different units |
| Fifo.FullIffCannotFitOne | src/fifo.rs:76-104 | a queue is full exactly when one more element does not fit |
| Fifo.FitsMonotone | src/fifo.rs:99-104 | if `n` elements fit, every smaller number fits too |
| Fifo.Fifo.constructor | src/fifo.rs:51-57 | a new queue is empty and keeps the given bound |
| Fifo.Fifo.Enqueue | src/fifo.rs:60-62 | the value is appended at the back without any capacity check |
| Fifo.Fifo.Dequeue | src/fifo.rs:65-67 | an empty queue yields None and stays empty; otherwise the front element is returned and removed |
| Fifo.Fifo.First | src/fifo.rs:70-74 | the front element is returned exactly when the queue is non-empty, and the queue is unchanged |
| Fifo.Fifo.Drain | src/fifo.rs:106-108 | every element is yielded front first and the queue is left empty |
| Fifo.Fifo.Send | src/fifo.rs:122-124 | the packet is appended at the back without any capacity check |
| Fifo.Fifo.Receive | src/fifo.rs:126-128 | the front packet is popped, or None when the queue is empty |
| Fifo.Fifo.CanSendCountsPackets | src/fifo.rs:115-120 | `can_send` equals `can_fit` of the number of packets, so two packet lists of equal length give the same answer whatever their sizes |
| Fifo.Fifo.UnboundedNeverFull | src/fifo.rs:76-104 | a queue without a bound is never full and fits any number of elements |
| Fifo.FifoOrder | src/fifo.rs:60-68 | two values enqueued on an empty queue come out in the order they went in |
| RegisterSet.ReadyInSpec | playground/sys/src/ref/register_set.hpp:113-131 | the scan picks the non-empty slot with the smallest uid, and the last of them when uids are equal; it picks nothing exactly when every scanned slot is empty |
| RegisterSet.ReadySpec | playground/sys/src/ref/register_set.hpp:113-131 | `get_ready` over the whole register returns an occupied slot whose uid is minimal and strictly below every later occupied slot's uid; it returns null exactly when every slot is empty |
| RegisterSet.Ready | playground/sys/src/ref/register_set.hpp:113-131 | `get_ready` over the whole register, as the scan that `ReadyInSpec` characterises |
| RegisterSet.FirstFreeFrom | playground/sys/src/ref/register_set.hpp:143-151 | the result is the first empty slot at or after `from`; `None` means every slot from there on is occupied |
| RegisterSet.RegisterSet.constructor | playground/sys/src/ref/register_set.hpp:10-18 | a new register set has `num` slots, all empty, and keeps its id |
| RegisterSet.RegisterSet.HasFree | playground/sys/src/ref/register_set.hpp:23-30 | true exactly when some slot is empty |
| RegisterSet.RegisterSet.HasFreeSub | playground/sys/src/ref/register_set.hpp:32-39 | in the sub-core model, true exactly when the scheduler's own slot is empty; otherwise the same as `has_free()` |
| RegisterSet.RegisterSet.HasReady | playground/sys/src/ref/register_set.hpp:41-48 | true exactly when some slot holds an instruction |
| RegisterSet.RegisterSet.HasReadySub | playground/sys/src/ref/register_set.hpp:50-54 | in the sub-core model, true exactly when the scheduler's own slot is occupied; otherwise the same as `has_ready()` |
| RegisterSet.RegisterSet.GetReady | playground/sys/src/ref/register_set.hpp:113-131 | the loop picks the slot ReadySpec characterises |
| RegisterSet.RegisterSet.GetReadyRegId | playground/sys/src/ref/register_set.hpp:56-74 | when some slot is ready, the index returned is the slot `get_ready` picks |
| RegisterSet.RegisterSet.GetReadySub | playground/sys/src/ref/register_set.hpp:132-141 | in the sub-core model, the scheduler's own slot when it is occupied, otherwise none; outside it, the same slot as `get_ready()` |
| RegisterSet.RegisterSet.GetFree | playground/sys/src/ref/register_set.hpp:143-151 | the first empty slot, or none where the "no free registers" assertion would fail |
| RegisterSet.RegisterSet.GetFreeSub | playground/sys/src/ref/register_set.hpp:153-166 | in the sub-core model, the scheduler's own slot when it is empty, otherwise none; outside it, the first empty slot |
| RegisterSet.RegisterSet.MoveIn | playground/sys/src/ref/register_set.hpp:81-84 | the instruction lands in the first free slot, no other slot changes, and the source is left empty |
| RegisterSet.RegisterSet.MoveInSub | playground/sys/src/ref/register_set.hpp:86-96 | in the sub-core model the instruction lands in the scheduler's own slot; outside it, in the first free slot; the source is left empty |
| RegisterSet.RegisterSet.MoveOutTo | playground/sys/src/ref/register_set.hpp:98-102 | the oldest instruction moves into the destination, its slot is left empty, and no other slot changes |
| RegisterSet.RegisterSet.MoveOutToSub | playground/sys/src/ref/register_set.hpp:104-111 | in the sub-core model the scheduler's own slot moves out; outside it, the oldest instruction moves out |
| RegisterSet.MoveInThenOut | playground/sys/src/ref/register_set.hpp:81-131 | moving an instruction in and then out returns that same instruction when it is older than everything already in the register, and the register keeps its size |
| OperandCollector.RegisterBank | src/operand_collector.rs:15-35 | the bank is below the number of banks, and in the sub-core model it lies in the scheduler's own group of `num_banks_per_scheduler` banks |
| OperandCollector.RegisterBankPeriodic | src/operand_collector.rs:15-35 | registers that differ by the number of banks (by the banks of one scheduler in the sub-core model) map to the same bank |
| OperandCollector.RegisterBankWarpShift | src/operand_collector.rs:15-35 | without a warp shift the warp id does not affect the bank; with one, adding the warp id is the same as adding it to the register number |
| OperandCollector.Allocation.AllocateForRead | src/operand_collector.rs:322-340 | a free bank allocated for reading is read-allocated, no longer free, and holds the operand |
| OperandCollector.Allocation.AllocateForWrite | src/operand_collector.rs:327-346 | a free bank allocated for writing is write-allocated, no longer free, and holds the operand |
| OperandCollector.Allocation.Reset | src/operand_collector.rs:306-352 | a reset allocation is free and equals the default one |

| OperandCollector.AllocationCycle | src/operand_collector.rs:306-352 | allocating a free bank and then resetting it gives the default again, and a read allocation is never a write allocation or the other way round |
| OperandCollector.FirstEmpty | src/operand_collector.rs:152-198 | the output slot is the first empty slot of the pipeline register; `None` means every slot is occupied |
| OperandCollector.CollectorUnit.constructor | src/operand_collector.rs:69-87 | a new collector unit is free, holds no instruction or output register, and waits for no operand |
| OperandCollector.CollectorUnit.Init | src/operand_collector.rs:89-107 | `init` sets the id, the register id and the bank mapping, and leaves the unit holding no instruction |
| OperandCollector.CollectorUnit.WarpId | src/operand_collector.rs:136-142 | a free unit reports no warp; a busy one reports the warp of its instruction |
| OperandCollector.CollectorUnit.Dispatch | src/operand_collector.rs:152-198 | the instruction moves into the output register (the unit's own slot in the sub-core model, otherwise the first empty one), no other pipeline slot changes, and the unit becomes free with no operands and no output register |
| OperandCollector.CollectorUnit.Allocate | src/operand_collector.rs:200-280 | the unit is bound to the output register whether or not the input has a ready instruction; with one, the instruction leaves the input and every register that appears for the first time in the source list becomes an operand waiting to be collected; with none, the input and the rest of the unit are unchanged |
| OperandCollector.CollectorUnit.SourceOperands | src/operand_collector.rs:236-263 | a source register seen for the first time becomes an operand in its bank and is marked not ready; repeated or absent registers leave their slot empty and ready |
| OperandCollector.CollectorUnit.CollectOperand | src/operand_collector.rs:282-290 | only the operand's not-ready flag changes, to false |
| OperandCollector.CollectorUnit.Ready | src/operand_collector.rs:111-134 | a unit is ready when it is allocated, has an output register, has collected every operand and its output register has a free slot (a free sub-core slot under the sub-core model) |
| OperandCollector.BankRequests | src/operand_collector.rs:595-600 | the operands queued for a bank all belong to that bank, and there are no more of them than the collector has |
| OperandCollector.BankRequestsCover | src/operand_collector.rs:595-600 | a bank's queue gains nothing exactly when no operand of the collector is in that bank, and everything it gains is an operand of the collector |
| OperandCollector.Diagonal | src/operand_collector.rs:496-517 | the output an input faces on a diagonal is one of the outputs |
| OperandCollector.ReachedAll | src/operand_collector.rs:496-517 | after at least as many diagonals as outputs, an input has met every output, so it has met a requested one exactly when it requests any |
| OperandCollector.Wavefront | src/operand_collector.rs:441-517 | write-allocated banks are matched to 0 beforehand; every other bank is matched exactly when it requests some collector, and then to a collector it requests |
| OperandCollector.WavefrontPass | src/operand_collector.rs:496-517 | one diagonal extends the match to exactly the banks that have met a requested collector by then, and keeps every match on a requested collector |
| OperandCollector.ReachedStep | src/operand_collector.rs:496-517 | one more diagonal adds exactly the output it faces to those an input has met |
| OperandCollector.PopFronts | src/operand_collector.rs:536-549 | exactly the banks that are matched and not write-allocated lose the front read of their queue, in bank order, and those reads are reported; other queues are unchanged |
| OperandCollector.ReadAllocate | src/operand_collector.rs:567-582 | each popped read read-allocates its bank and is reported under that bank; every other bank keeps its allocation |
| OperandCollector.WavefrontGrants | src/operand_collector.rs:464-517 | when each bank requests only the collector of its front read, the wavefront grants each bank exactly that collector |
| OperandCollector.Requests | src/operand_collector.rs:464-480 | bank `b` requests collector `c` exactly when its front read belongs to `c` |
| OperandCollector.IdleAllocatesNothing | src/operand_collector.rs:441-451 | with nothing queued, no read is served and the tables are unchanged |
| OperandCollector.Arbitrate | src/operand_collector.rs:452-593 | the slow path serves the reads `ReadsAllocated` describes, and leaves each bank's match set to its grant |
| OperandCollector.AllocateTables | src/operand_collector.rs:425-593 | `allocate_reads` serves each bank that is not write-allocated and has a queued read, keeps queued reads well formed, and changes the match table only on the slow path |
| OperandCollector.PoppedQueued | src/operand_collector.rs:536-549 | removing front reads keeps every remaining queued read well formed |
| OperandCollector.Arbiter.constructor | src/operand_collector.rs:377-403 | after `init` every bank queue is empty, every bank free and unmatched, and the priority is 0 |
| OperandCollector.Arbiter.AllocateReads | src/operand_collector.rs:425-593 | each bank that is not write-allocated and has a queued read pops its front read, becomes read-allocated to it and reports it under its bank; the priority moves on by one collector modulo the collector count |
| OperandCollector.Arbiter.AddReadRequests | src/operand_collector.rs:595-600 | each bank's queue gains exactly the collector's operands in that bank, in operand order; nothing else changes |
| OperandCollector.Arbiter.AllocateBankForWrite | src/operand_collector.rs:607-610 | only the bank's allocation changes, to a write allocation of the operand |
| OperandCollector.Arbiter.ResetAllocation | src/operand_collector.rs:617-621 | every bank is free again; the queues and matches are unchanged |
| OperandCollector.RrIncrement | src/operand_collector.rs:659-665 | outside the sub-core model the scan step is 1; inside it, it is between 1 and the collectors per scheduler |
| OperandCollector.RrIncrementNextGroup | src/operand_collector.rs:659-665 | in the sub-core model the scan starts at the first collector of the group after that of `last_cu` |
| OperandCollector.ScanPos | src/operand_collector.rs:670-671 | each collector the scan visits is a valid collector index |
| OperandCollector.DispatchUnit.constructor | src/operand_collector.rs:636-645 | a new dispatch unit starts its scan at collector 0 with no schedulers |
| OperandCollector.DispatchUnit.Init | src/operand_collector.rs:647-650 | `init` sets the sub-core flag and the scheduler count and nothing else |
| OperandCollector.DispatchUnit.FindReady | src/operand_collector.rs:652-696 | the first ready collector in round-robin scan order is chosen and becomes `last_cu`; there is no choice exactly when no collector is ready, and then `last_cu` stays |
| OperandCollector.DestBank | src/operand_collector.rs:993-1003 | the bank of a destination register is a valid bank |
| OperandCollector.WriteBack | src/operand_collector.rs:984-1029 | the bank table and destination list keep their sizes |
| OperandCollector.WriteBackSucceeds | src/operand_collector.rs:984-1029 | a writeback succeeds exactly when its destination registers lie in distinct banks that are free |
| OperandCollector.WriteBackFrame | src/operand_collector.rs:984-1029 | banks that no destination register maps to keep their allocation |
| OperandCollector.WriteBackClaims | src/operand_collector.rs:984-1029 | after a successful writeback every destination slot is cleared and each destination bank holds a write claim for its register |
| OperandCollector.RegisterFileUnit.constructor | src/operand_collector.rs:761-804 | a new register file unit has a fresh arbiter initialised with the bank mapping, every bank free |
| OperandCollector.RegisterFileUnit.Writeback | src/operand_collector.rs:984-1029 | the writeback claims banks in slot order and clears each claimed slot while banks are idle, stopping with `false` at the first busy bank and keeping the claims made so far; its result is `WriteBack` of the old table; queues and matches are unchanged |
| MemFetch.SpaceOfSpec | src/mem_fetch.rs:104-167 | the memory space of a kind is Global, Local, Constant or Texture exactly when the matching kind predicate holds, and None exactly for the writeback, instruction and write-allocate kinds |
| MemFetch.WriteKinds | src/mem_fetch.rs:168-182 | `is_write` holds exactly for GLOBAL_ACC_W, LOCAL_ACC_W, L1_WRBK_ACC and L2_WRBK_ACC, and a write kind with a space is global or local |
| MemFetch.BuildAccess | src/mem_fetch.rs:253-277 | the built access requires the write flag to agree with the kind, counts one uncoalesced access and copies every other field |
| MemFetch.RelativeAddr | src/mem_fetch.rs:283-288 | a relative address exists exactly when the access has an allocation starting at or below its address, and it is the distance to that start |
| MemFetch.ControlSizeIsEight | src/mem_fetch.rs:300-330 | the control size is 8 for reads and for writes, so the size is the data size plus 8 whatever the direction |
| MemFetch.CountOnes | src/mem_fetch.rs:318-320 | the number of requested bytes is at most the mask's length |
| MemFetch.FirstOne | src/mem_fetch.rs:516-521 | the first set index is set with no set index before it, and None means no index is set |
| MemFetch.UidGenerator.constructor | src/mem_fetch.rs:409 | the uid counter starts at 0 |
| MemFetch.UidGenerator.Generate | src/mem_fetch.rs:422-424 | the current counter value is returned and the counter advances by one |
| MemFetch.Fetch.constructor | src/mem_fetch.rs:428-452 | a built fetch takes a fresh uid, has kind WRITE_REQUEST exactly when the access is a write and READ_REQUEST otherwise, status INITIALIZED, latency 0 and no cycles recorded |
| MemFetch.Fetch.PacketSize | src/mem_fetch.rs:488-494 | writes and atomics send data size plus the 8-byte header, every other fetch sends only READ_PACKET_SIZE |
| MemFetch.Fetch.Size | src/mem_fetch.rs:546-548 | `size`: the access's data bytes plus its control bytes (`AccessSize`) |
| MemFetch.Fetch.ByteAddr | src/mem_fetch.rs:516-521 | the byte address is the address plus the first requested byte modulo the sector size, so it lies within one sector of the address, and it is the address when no byte is requested |
| MemFetch.Fetch.RelativeByteAddr | src/mem_fetch.rs:524-530 | the same byte offset is added to the relative address, or to the plain address when there is none |
| MemFetch.Fetch.SetStatus | src/mem_fetch.rs:561-564 | the status and the time of the last status change are set and nothing else changes |
| MemFetch.Fetch.SetReply | src/mem_fetch.rs:566-589 | for a non-writeback access, a read request becomes READ_REPLY and a write request WRITE_ACK, a reply stays as it is, and afterwards `is_reply` holds |
| MemFetch.ReplyOf | src/mem_fetch.rs:577-588 | the reply kind is READ_REPLY or WRITE_ACK |
| MemFetch.ReplyOfSpec | src/mem_fetch.rs:566-589 | making a reply is idempotent, keeps the direction (WRITE_ACK exactly for write requests and acks) and leaves replies unchanged |
| MemFetch.BuildTwo | src/mem_fetch.rs:378-452 | two fetches built one after the other get consecutive uids, so they are never equal, since equality compares uids only |
| Allocation.RelativeAddr | src/allocation.rs:16-18 | an offset exists exactly when the address is at or above the start, and start plus offset is the address |
| Allocation.NumBytes | src/allocation.rs:28-32 | the size is end minus start, and 0 when the end is missing or below the start |
| Allocation.ContainsIffRelativeBelowSize | src/allocation.rs:16-32 | `contains` holds exactly when the relative address exists and is below `num_bytes`; an allocation of size 0 contains nothing |
| Allocation.Cmp | src/allocation.rs:35-39 | allocations compare equal exactly when their ids are equal, and less exactly when the id is smaller |
| Allocation.CmpIgnoresRange | src/allocation.rs:35-45 | two allocations with the same id compare alike against any third one, and the order is antisymmetric |
| Allocation.Cut | src/allocation.rs:113-116 | cutting a range out of the stored ranges leaves at most two pieces per range |
| Allocation.DisjointTail | src/allocation.rs:94-117 | dropping the first stored range keeps the ranges pairwise disjoint |
| Allocation.RemnantsInside | src/allocation.rs:113-116 | the pieces left of one range are non-empty, lie inside it, miss the new range and do not overlap each other |
| Allocation.CutInside | src/allocation.rs:113-116 | every piece left by the cut is non-empty, misses the new range and lies inside one of the old ranges |
| Allocation.CutDisjoint | src/allocation.rs:113-116 | the pieces left by the cut are pairwise disjoint when the old ranges were |
| Allocation.CrossDisjoint | src/allocation.rs:113-116 | a piece of the first range never overlaps a piece cut from the later ranges |
| Allocation.RemnantsNoOverlap | src/allocation.rs:113-116 | a range clear of the new range is left as it was |
| Allocation.CutNoOverlap | src/allocation.rs:113-116 | when no stored range overlaps the new one, the cut changes nothing |
| Allocation.CutLookup | src/allocation.rs:113-116 | the allocation found for an address outside the new range is the same before and after the cut |
| Allocation.LookupAppend | src/allocation.rs:113-116 | looking an address up in two concatenated range lists finds it in the first list if it is there, else in the second |
| Allocation.CutMisses | src/allocation.rs:113-116 | after the cut no stored range holds an address of the new range |
| Allocation.Allocations.constructor | src/allocation.rs:77-81 | a new allocation map is empty |
| Allocation.Allocations.Insert | src/allocation.rs:94-117 | the new allocation gets id = number of stored ranges + 1 and the range `[lo, hi)`, it replaces whatever it overlaps, and the ranges stay disjoint |
| Allocation.InsertLookup | src/allocation.rs:94-117 | after an insert every address of the new range finds the new allocation and every other address finds what it found before |
| Allocation.InsertWithoutOverlap | src/allocation.rs:94-117 | an insert that overlaps nothing keeps every old range, so non-overlapping allocations get ids 1, 2, 3, … in order |
| Allocation.OverwriteReusesId | src/allocation.rs:106 | since the id counts the stored ranges, an insert that overwrites an older range lets a later insert reuse an id: inserting `[0, 10)` twice and then `[20, 30)` leaves two live allocations both with id 2 |
| MemorySpace.Ordinal | ptx/bison/src/memory_space.hpp:12-27 | each enumerator has a value below 14, and 0 exactly for `undefined_space` |
| MemorySpace.OrdinalInjective | ptx/bison/src/memory_space.hpp:12-27 | distinct enumerators have distinct values |
| MemorySpace.Default | ptx/bison/src/memory_space.hpp:31-34 | the default descriptor is `undefined_space` with bank 0 |
| MemorySpace.FromKind | ptx/bison/src/memory_space.hpp:35-38 | a descriptor built from an enumerator has that type and bank 0 |
| MemorySpace.EqualIsIdentity | ptx/bison/src/memory_space.hpp:39-42 | `==` holds exactly when type and bank are both equal, and `!=` is its negation |
| MemorySpace.LessIrreflexive | ptx/bison/src/memory_space.hpp:43-51 | no descriptor is below itself |
| MemorySpace.LessTransitive | ptx/bison/src/memory_space.hpp:43-51 | the lexicographic order on (type, bank) is transitive |
| MemorySpace.LessTrichotomous | ptx/bison/src/memory_space.hpp:39-51 | exactly one of `x < y`, `x == y` and `y < x` holds |
| MemorySpace.SetKind | ptx/bison/src/memory_space.hpp:52-53 | setting the type changes the type and keeps the bank |
| MemorySpace.SetBank | ptx/bison/src/memory_space.hpp:54-55 | setting the bank changes the bank and keeps the type |
| MemorySpace.SpacePredicatesDisjoint | ptx/bison/src/memory_space.hpp:56-62 | no descriptor is both const and local, const and global, or local and global, and the bank never affects the three predicates |
| MemorySpace.DefaultIsLeast | ptx/bison/src/memory_space.hpp:31-51 | the default descriptor is the least one under `<` |
| OperandInfo.LeadingSymbols | ptx/bison/src/operand_info.hpp:255-274 | the count is the number of non-null symbols before the first null one: all symbols before it are non-null and the one at it, if any, is null |
| OperandInfo.Operand.Empty | ptx/bison/src/operand_info.hpp:14-27 | the context-only constructor gives an invalid, non-vector, untyped operand with no immediate address, offset 0 and a null symbol |
| OperandInfo.Operand.MemoryPair | ptx/bison/src/operand_info.hpp:30-55 | the two-symbol constructor gives a valid, non-vector memory operand holding the two symbols followed by six nulls, with offset 0 |
| OperandInfo.Operand.Builtin | ptx/bison/src/operand_info.hpp:56-73 | the builtin constructor stores the builtin id as the value and the dimension modifier as the offset |
| OperandInfo.Operand.AddressOf | ptx/bison/src/operand_info.hpp:74-91 | the symbol-and-offset constructor gives a valid address operand with that symbol and offset |
| OperandInfo.Operand.UnsignedLiteral | ptx/bison/src/operand_info.hpp:92-109 | the unsigned-literal constructor sets `immediate_address` and stores the value, and the offset is that value read as a 32-bit `int` |
| OperandInfo.Operand.IntLiteral | ptx/bison/src/operand_info.hpp:110-127 | the `int` constructor gives a valid int literal with offset 0 and no immediate address |
| OperandInfo.Operand.FloatLiteral | ptx/bison/src/operand_info.hpp:128-163 | the float and double constructors give valid literals of their own type with offset 0 |
| OperandInfo.Operand.Vector | ptx/bison/src/operand_info.hpp:164-218 | the four- and eight-symbol constructors give a valid vector operand whose eight slots are the given symbols followed by nulls |
| OperandInfo.Operand.VectNelem | ptx/bison/src/operand_info.hpp:255-274 | for a vector operand, the count is at most 8, every slot before it holds a symbol and the slot at it, if any, is null |
| OperandInfo.Operand.VecSymbol | ptx/bison/src/operand_info.hpp:276-281 | for an index below 8 whose slot is non-null, the symbol in that slot is returned |
| OperandInfo.Operand.SetNegPred | ptx/bison/src/operand_info.hpp:365-368 | on a valid operand, only the negated-predicate flag changes, to true |
| OperandInfo.Operand.SetAddrSpace | ptx/bison/src/operand_info.hpp:321-374 | only the address space changes, and afterwards `is_memory_operand2` holds exactly when it is not `undefined_space` |
| OperandInfo.Int32 | ptx/bison/src/operand_info.hpp:105 | a 32-bit unsigned value stored into an `int` is its two's-complement reading, in range and congruent modulo 2^32 |
| OperandInfo.LeadingSymbolsPadded | ptx/bison/src/operand_info.hpp:177-274 | padding a symbol list with nulls does not change the leading count |
| OperandInfo.FourVectorCount | ptx/bison/src/operand_info.hpp:164-274 | a vector built from four symbols counts the leading non-null ones among them, so it has at most four elements |
| OperandInfo.LiteralKinds | ptx/bison/src/operand_info.hpp:30-127 | an `int` operand is a literal, a memory pair is not, and a memory pair has no address space yet |
| Interconnect.FlitCount | playground/sys/src/ref/intersim2/interconnect_interface.cpp:155-264 | the flit count is the packet size divided by the flit size, rounded up: enough flits to hold the size and no more than needed, and zero only for an empty packet |
| Interconnect.PushSubnet | playground/sys/src/ref/intersim2/interconnect_interface.cpp:157-270 | with one subnet every packet uses subnet 0; with two, a packet travels on subnet 1 exactly when its source is a memory port |
| Interconnect.PopSubnetAsWritten | playground/sys/src/ref/intersim2/interconnect_interface.cpp:214-215 | as written, a pop reads subnet 1 exactly for shaders and subnet 0 exactly for memory ports, whatever the number of subnets |
| Interconnect.SingleSubnetPopOutOfRange | playground/sys/src/ref/intersim2/interconnect_interface.cpp:157-215 | with one subnet, a shader's pop reads subnet 1, which does not exist, while replies to it were pushed on subnet 0 |
| Interconnect.PopSubnet | playground/sys/src/ref/intersim2/interconnect_interface.cpp:157-215 | the corrected pop subnet is always an existing subnet, and with two subnets it is the one the source reads |
| Interconnect.PushPopSubnetsAgree | playground/sys/src/ref/intersim2/interconnect_interface.cpp:157-215 | a request from a shader to a memory port, or a reply the other way, is pushed on the subnet its receiver pops |
| Interconnect.CountTailsPositive | playground/sys/src/ref/intersim2/interconnect_interface.cpp:584-591 | an item holds a complete packet exactly when it holds at least one tail flit |
| Interconnect.CountTailsAppend | playground/sys/src/ref/intersim2/interconnect_interface.cpp:584-591 | appending a flit adds one to the completed-packet count exactly when it is a tail flit |
| Interconnect.FirstTail | playground/sys/src/ref/intersim2/interconnect_interface.cpp:553-568 | the index where the oldest packet ends holds a tail flit and no earlier flit is a tail |
| Interconnect.PacketHasTail | playground/sys/src/ref/intersim2/interconnect_interface.cpp:553-591 | an item with a packet count above zero holds a tail flit |
| Interconnect.PushFlitData | playground/sys/src/ref/intersim2/interconnect_interface.cpp:584-591 | the flit and its tail flag join the item; a valid item stays valid, a packet already present stays, and a tail flit completes one |
| Interconnect.AfterPop | playground/sys/src/ref/intersim2/interconnect_interface.cpp:553-568 | once the oldest packet is gone, the item is valid, holds one packet fewer and fewer flits |
| Interconnect.CountTailsDrop | playground/sys/src/ref/intersim2/interconnect_interface.cpp:553-568 | dropping the flits up to and including the first tail removes exactly one completed packet |
| Interconnect.PopPacket | playground/sys/src/ref/intersim2/interconnect_interface.cpp:553-568 | the flits up to and including the first tail leave the item, the data returned is that of the front flit, and one packet fewer remains |
| Interconnect.FirstTailOfPacket | playground/sys/src/ref/intersim2/interconnect_interface.cpp:553-591 | packets leave in the order they arrived: after the flits of a whole packet, the oldest packet ends at that packet's last flit |
| Interconnect.PresetsWellFormed | playground/sys/src/ref/intersim2/interconnect_interface.cpp:410-440 | every built-in memory-node table lists one node per memory port, in increasing order, below the total node count |
| Interconnect.MemoryNodeTable | playground/sys/src/ref/intersim2/interconnect_interface.cpp:441-463 | a configured table is used only when it has one entry per memory port (the source asserts so); without one, the built-in table is used, and a shape without one is an error |
| Interconnect.PresetMapReadsPastTable | playground/sys/src/ref/intersim2/interconnect_interface.cpp:416-475 | with the built-in table for 8 shaders and 8 memory ports, the skip loop of the shader mapping reads entry 8 of an 8-entry table |
| Interconnect.Skip | playground/sys/src/ref/intersim2/interconnect_interface.cpp:469-472 | the bounded skip stops at the end of the table or at the first node id that is not the next memory node, having advanced the node id and the table index together |
| Interconnect.SkipSteps | playground/sys/src/ref/intersim2/interconnect_interface.cpp:469-472 | every table entry the skip passed held the node id it stepped over |
| Interconnect.SkipAgrees | playground/sys/src/ref/intersim2/interconnect_interface.cpp:469-472 | the bounded skip agrees with the loop as written wherever that loop stays inside the table, and the loop as written leaves the table exactly when the bounded one runs to its end |
| Interconnect.ShaderNodes | playground/sys/src/ref/intersim2/interconnect_interface.cpp:466-475 | the corrected shader mapping gives one node per shader |
| Interconnect.SkipKeepsSplit | playground/sys/src/ref/intersim2/interconnect_interface.cpp:469-474 | with an increasing table, the node a shader takes is not a memory node, and the scan stays in step with the table for the next shader |
| Interconnect.ShaderNodesAvoidMemory | playground/sys/src/ref/intersim2/interconnect_interface.cpp:466-475 | with an increasing table, shader nodes increase and never equal a memory node |
| Interconnect.FirstWithNode | playground/sys/src/ref/intersim2/interconnect_interface.cpp:485-492 | the inner reverse-map loop finds the least device mapped to the node, or none if no device is |
| Interconnect.ReverseInverts | playground/sys/src/ref/intersim2/interconnect_interface.cpp:485-492 | when the node map gives every device its own node, the reverse map sends each device's node back to that device |
| Interconnect.PresetNodeMapInjective | playground/sys/src/ref/intersim2/interconnect_interface.cpp:466-478 | with an increasing table, the preset node map gives every shader and memory port its own node |
| Interconnect.VcAt | playground/sys/src/ref/intersim2/interconnect_interface.cpp:217-223 | the turn after some steps around the ring of virtual channels is a valid channel |
| Interconnect.VcAtCovers | playground/sys/src/ref/intersim2/interconnect_interface.cpp:217-225 | one round from any start visits every virtual channel |
| Interconnect.PopRound | playground/sys/src/ref/intersim2/interconnect_interface.cpp:217-226 | one round of `Pop` over a node's virtual channels has the outcome `PopOutcome` describes: the first channel from the turn with a complete packet gives it up and the turn moves past it; otherwise nothing changes |
| Interconnect.PopKeepsBuffers | playground/sys/src/ref/intersim2/interconnect_interface.cpp:217-226 | a `Pop` round keeps the boundary buffers well formed and within capacity and the turn on the ring |
| Interconnect.MovedFlits | playground/sys/src/ref/intersim2/interconnect_interface.cpp:323-345 | the flits a transfer moves are front flits of channels that can move, at most one per channel |
| Interconnect.TransferRound | playground/sys/src/ref/intersim2/interconnect_interface.cpp:323-345 | every channel whose ejection buffer is not empty and whose boundary buffer is below capacity moves its front flit, and the moved flits join the ejected queue in channel order |
| Interconnect.TransferKeepsBuffers | playground/sys/src/ref/intersim2/interconnect_interface.cpp:323-345 | a transfer keeps the boundary buffers well formed and within capacity, and never lengthens an ejection buffer |
| Interconnect.EmptyNode | playground/sys/src/ref/intersim2/interconnect_interface.cpp:372-391 | `_CreateBuffer` leaves a node's buffers empty, its ejected queue empty and its turn at channel 0 |
| Interconnect.Grid | playground/sys/src/ref/intersim2/interconnect_interface.cpp:372-391 | the per-subnet, per-node table covers every pair and holds the initial value everywhere |
| Interconnect.SkipMemoryNodes | playground/sys/src/ref/intersim2/interconnect_interface.cpp:469-472 | the loop computes the corrected skip, which stops at the end of the memory-node table |
| Interconnect.SkipAsWritten | playground/sys/src/ref/intersim2/interconnect_interface.cpp:469-472 | the skip as written, which reads the memory table without a bound; a read past the table is `None` |
| Interconnect.ShaderNodesAsWritten | playground/sys/src/ref/intersim2/interconnect_interface.cpp:466-475 | the shader nodes of the written loop, `None` once the skip reads past the table; `PresetMapReadsPastTable` shows this happens for the built-in 8 × 8 table |
| Interconnect.MapShaders | playground/sys/src/ref/intersim2/interconnect_interface.cpp:466-475 | with the corrected skip, shader `d` takes the `d`-th node id that is not a memory node; other entries are unchanged |
| Interconnect.MapMemory | playground/sys/src/ref/intersim2/interconnect_interface.cpp:476-478 | memory port `j` takes entry `j` of the table; other entries are unchanged |
| Interconnect.MapIdentity | playground/sys/src/ref/intersim2/interconnect_interface.cpp:479-483 | without a preset table every node maps to itself; other entries are unchanged |
| Interconnect.BuildNodeMap | playground/sys/src/ref/intersim2/interconnect_interface.cpp:393-483 | with a preset table and the corrected skip, shaders take the non-memory node ids in increasing order and memory ports their table entries; without one every node maps to itself |
| Interconnect.BuildReverseMap | playground/sys/src/ref/intersim2/interconnect_interface.cpp:485-492 | each node that some device maps to goes back to the least such device; other entries are unchanged |
| Interconnect.InterconnectInterface.constructor | playground/sys/src/ref/intersim2/interconnect_interface.cpp:69-128 | the interface keeps the shape, takes 9 as input capacity and the VC buffer size as ejection capacity unless configured, starts with every buffer empty and every turn at 0, and builds the corrected node map and its reverse |
| Interconnect.InterconnectInterface.CreateNodeMap | playground/sys/src/ref/intersim2/interconnect_interface.cpp:393-498 | rebuilding the node map, with the corrected skip, leaves the buffers alone and gives the same maps as construction |
| Interconnect.InterconnectInterface.HasBufferOnPushSubnet | playground/sys/src/ref/intersim2/interconnect_interface.cpp:261-276 | `HasBuffer` tests the input queue on the push subnet of the device's node: its length plus the packet's flits must be within the input capacity |
| Interconnect.InterconnectInterface.Push | playground/sys/src/ref/intersim2/interconnect_interface.cpp:137-203 | the packet's flits join the input queue of the source node on the push subnet; nothing else changes |
| Interconnect.InterconnectInterface.Pop | playground/sys/src/ref/intersim2/interconnect_interface.cpp:205-234 | one round over the device's channels from its saved turn, as `PopOutcome` describes, on the subnet the corrected pop uses; only that node's boundary buffers and turn change |
| Interconnect.InterconnectInterface.Transfer2BoundaryBuffer | playground/sys/src/ref/intersim2/interconnect_interface.cpp:323-345 | each channel of the node that can move gives its front flit to its boundary buffer and the ejected queue, in channel order; the turn and the other nodes are unchanged |
| Interconnect.InterconnectInterface.WriteOutBuffer | playground/sys/src/ref/intersim2/interconnect_interface.cpp:347-353 | the flit joins the ejection buffer of its channel, which must have room; nothing else changes |
| Interconnect.InterconnectInterface.GetEjectedFlit | playground/sys/src/ref/intersim2/interconnect_interface.cpp:363-370 | the oldest ejected flit of the node leaves its queue and is returned; with none, nothing changes |
| TraceGpgpuSim.Chunks | playground/sys/src/ref/trace_gpgpu_sim.cc:98-129 | a copy of `count` bytes writes one 32-byte chunk per 32 bytes started, in address order, chunk `i` at `dst + 32 i` |
| TraceGpgpuSim.ChunksCoverCopy | playground/sys/src/ref/trace_gpgpu_sim.cc:94-129 | every chunk starts inside the new allocation and names one of the four sectors of its 128-byte line, and every copied byte lies in exactly the chunk `(byte - dst) / 32` |
| TraceGpgpuSim.NewAllocation | playground/sys/src/ref/trace_gpgpu_sim.cc:23-95 | the `n`-th allocation gets id `n + 1`, never 0, and contains exactly the addresses from `dst` below `dst + count` |
| TraceGpgpuSim.ElapsedSeconds | playground/sys/src/ref/trace_gpgpu_sim.cc:600-601 | the elapsed time is at least one second and at least the difference of the clock readings |
| TraceGpgpuSim.ElapsedPartsInRange | playground/sys/src/ref/trace_gpgpu_sim.cc:605-608 | the days, hours, minutes and seconds of the liveness message are in range and add back up to the elapsed seconds |
| TraceGpgpuSim.Earliest | playground/sys/src/ref/trace_gpgpu_sim.cc:1153-1158 | the earliest of the four domain times is one of them and no later than any |
| TraceGpgpuSim.NextClockDomainOf | playground/sys/src/ref/trace_gpgpu_sim.cc:1153-1174 | a domain is selected exactly when its time is the earliest, at least one is selected, and each selected domain advances by its period while the others keep their time |
| TraceGpgpuSim.ClocksAdvance | playground/sys/src/ref/trace_gpgpu_sim.cc:1153-1174 | with positive periods the earliest time strictly increases on every call |
| TraceGpgpuSim.FirstFree | playground/sys/src/ref/trace_gpgpu_sim.cc:155-161 | the slot a new kernel takes is the first empty or finished one; none exactly when every slot holds an unfinished kernel |
| TraceGpgpuSim.DecrementedLowersLatency | playground/sys/src/ref/trace_gpgpu_sim.cc:1176-1181 | only a running kernel's block latency changes, and only a nonzero one, by one |
| TraceGpgpuSim.DecrementAll | playground/sys/src/ref/trace_gpgpu_sim.cc:1176-1181 | every slot is decremented as `Decremented` says |
| TraceGpgpuSim.RoundRobinPick | playground/sys/src/ref/trace_gpgpu_sim.cc:1228-1254 | the round-robin scan after the last issued kernel picks a slot whose kernel has blocks left under the cap and no latency; none exactly when no scanned slot qualifies |
| TraceGpgpuSim.RoundRobinPickFirst | playground/sys/src/ref/trace_gpgpu_sim.cc:1228-1254 | the pick is the first qualifying slot in scan order |
| TraceGpgpuSim.RoundRobinPickStable | playground/sys/src/ref/trace_gpgpu_sim.cc:1228-1254 | once the scan has found a kernel, scanning further does not change the pick |
| TraceGpgpuSim.SumRangeSplit | playground/sys/src/ref/trace_gpgpu_sim.cc:961-973 | the block count of a range of clusters is the sum of the counts of its two halves |
| TraceGpgpuSim.RotationSumSplit | playground/sys/src/ref/trace_gpgpu_sim.cc:961-973 | the first `k` steps of the rotation after the last issuing cluster cover a run of clusters and then wrap to the front |
| TraceGpgpuSim.ClusterAtUnwrapped | playground/sys/src/ref/trace_gpgpu_sim.cc:965 | step `i` of the rotation is the start plus `i`, less the number of clusters once it passes the end |
| TraceGpgpuSim.RotationSumIsTotal | playground/sys/src/ref/trace_gpgpu_sim.cc:961-973 | the rotation visits every cluster once, so the blocks it counts are all the blocks issued |
| TraceGpgpuSim.LastIssuer | playground/sys/src/ref/trace_gpgpu_sim.cc:961-973 | the cluster remembered is the last one in rotation order that issued blocks; none exactly when none did |
| TraceGpgpuSim.Simulator.constructor | playground/sys/src/ref/trace_gpgpu_sim.cc:42-88 | a new simulator has every kernel slot empty, no executed or finished kernels, no allocations, zero counters and no deadlock |
| TraceGpgpuSim.Simulator.Init | playground/sys/src/ref/trace_gpgpu_sim.cc:35-88 | `init` zeroes the per-kernel counters, the completed-block count and the four clocks, and keeps the totals, the kernels, the finished list, the allocations, the cluster rotation and the deadlock flag |
| TraceGpgpuSim.Simulator.PerfMemcpyToGpu | playground/sys/src/ref/trace_gpgpu_sim.cc:90-130 | every call records the destination range as a new allocation whose id is one more than the number already recorded; the 32-byte chunks of the copy are returned only when copies are simulated, and nothing otherwise; every other field is unchanged |
| TraceGpgpuSim.Simulator.CanStartKernel | playground/sys/src/ref/trace_gpgpu_sim.cc:132-138 | true exactly when some slot is empty or holds a finished kernel |
| TraceGpgpuSim.Simulator.Launch | playground/sys/src/ref/trace_gpgpu_sim.cc:140-164 | a kernel whose blocks are larger than a shader aborts and changes nothing; otherwise it takes the first free slot and every other field is unchanged |
| TraceGpgpuSim.Simulator.GetMoreCtaLeft | playground/sys/src/ref/trace_gpgpu_sim.cc:951-959 | true exactly when the block cap is not reached and some running kernel has blocks left |
| TraceGpgpuSim.Simulator.Active | playground/sys/src/ref/trace_gpgpu_sim.cc:166-189 | true exactly when no cycle, instruction, block, completed-block or deadlock limit is hit and some cluster, memory partition, the interconnect or a kernel still has work |
| TraceGpgpuSim.Simulator.HitMaxCtaCount | playground/sys/src/ref/trace_gpgpu_sim.cc:1129-1134 | a nonzero block limit is reached by the total and current launched blocks |
| TraceGpgpuSim.Simulator.LimitHit | playground/sys/src/ref/trace_gpgpu_sim.cc:166-179 | a nonzero cycle, instruction, issued-block or completed-block limit is reached, or deadlock detection is on and a deadlock was found |
| TraceGpgpuSim.Simulator.NextClockDomain | playground/sys/src/ref/trace_gpgpu_sim.cc:1153-1174 | the domains at the earliest time are selected and each advances by its period; every other field is unchanged |
| TraceGpgpuSim.Simulator.UpdateStats | playground/sys/src/ref/trace_gpgpu_sim.cc:929-949 | each per-kernel counter is added to its total and reset, and the completed-block count is reset; the sums the limits compare are unchanged, and so are the kernels, allocations and clocks |
| TraceGpgpuSim.Simulator.IssueBlock2Core | playground/sys/src/ref/trace_gpgpu_sim.cc:961-973 | the clusters are visited once each after the last one that issued; the last cluster that issued any block is remembered, and all issued blocks count as launched; every other field is unchanged |
| TraceGpgpuSim.Simulator.DecrementKernelLatency | playground/sys/src/ref/trace_gpgpu_sim.cc:1176-1181 | every running kernel with a nonzero block latency is one cycle closer to issuing, and every other field is unchanged |
| TraceGpgpuSim.Simulator.SetKernelDone | playground/sys/src/ref/trace_gpgpu_sim.cc:1317-1331 | the first slot holding the kernel becomes empty, its uid joins the finished list, and the end cycle returned is the current plus the total cycle count; every other field is unchanged |
| TraceGpgpuSim.Simulator.SelectKernel | playground/sys/src/ref/trace_gpgpu_sim.cc:1183-1256 | the last-issued kernel is kept while it has blocks left and no latency, and its start cycle is recorded the first time; otherwise the round-robin pick becomes the last issued, starts at the current cycle and is recorded as executed; with no pick nothing changes; the clocks, counters, allocations and finished list are unchanged |
| Histogram.BitOrDisjoint | playground/sys/src/ref/stats/histogram.cc:75-86 | ORing a value below 2^n into a multiple of 2^n adds it, so the bit fields the bin trick ORs together never overlap |
| Histogram.FinalStep | playground/sys/src/ref/stats/histogram.cc:86-87 | when the remaining value is 1, 2 or 3, its upper bit plus one completes the power-of-two bin |
| Histogram.OrAdds | playground/sys/src/ref/stats/histogram.cc:79-85 | ORing a shift amount below 2^n into a bin that is a multiple of 2^n adds it |
| Histogram.ShiftStep | playground/sys/src/ref/stats/histogram.cc:75-85 | a right shift by `s` keeps the bracket `2^bin·v ≤ sample < 2^bin·(v+1)` when `s` is added to the exponent |
| Histogram.Stage | playground/sys/src/ref/stats/histogram.cc:77-85 | one conditional shift keeps the bracket, leaves a value below 2^t and preserves whether the value is non-zero |
| Histogram.StageShift | playground/sys/src/ref/stats/histogram.cc:77-85 | when the value has more than `t` significant bits, shifting by `t` and ORing `t` into the bin keeps the bracket and leaves a non-zero value below 2^t |
| Histogram.ShiftStage | playground/sys/src/ref/stats/histogram.cc:75-85 | one line `shift = (v > 2^t - 1) << k; v >>= shift; bin \|= shift` adds `t` to the bin exactly when `v ≥ 2^t`, keeps the bracket and leaves the bin a multiple of `t` |
| Histogram.Pow2Bin | playground/sys/src/ref/stats/histogram.cc:68-88 | the bin computed by the four shifts, the last bit and the final increment is 0 for sample 0 and ⌊log2 sample⌋ + 1 otherwise, and at most 31 for an `int` sample |
| Histogram.LastBit | playground/sys/src/ref/stats/histogram.cc:86-87 | the last OR and the increment for a non-zero sample complete the power-of-two bin |
| Histogram.LinearBin | playground/sys/src/ref/stats/histogram.cc:99-103 | the linear bin is always below the number of bins |
| Histogram.LinearBinBracket | playground/sys/src/ref/stats/histogram.cc:99-103 | the linear bin holds exactly the samples of its stride, and the last bin also every larger sample |
| Histogram.SumIncrement | playground/sys/src/ref/stats/histogram.cc:89-105 | incrementing one counter raises the total number of samples by exactly one |
| Histogram.BinnedHistogram.constructor | playground/sys/src/ref/stats/histogram.cc:5-20 | a new histogram has `nbins` counters all 0, maximum and sum 0, and a copy of the first `nbins` bin boundaries when there are any |
| Histogram.BinnedHistogram.Copy | playground/sys/src/ref/stats/histogram.cc:22-32 | the copy has the same name and counters, no bin boundaries, and maximum and sum 0 |
| Histogram.BinnedHistogram.ResetBins | playground/sys/src/ref/stats/histogram.cc:34-38 | every counter becomes 0 |
| Histogram.BinnedHistogram.AddToBin | playground/sys/src/ref/stats/histogram.cc:40-109 | exactly one counter, the power-of-two or linear bin of the sample, grows by one; the maximum becomes at least the sample; the sum grows by the sample; the base class is never asked to add |
| Histogram.Pow2BinBound | playground/sys/src/ref/stats/histogram.cc:68-88 | an `int` sample lands in one of the first 32 power-of-two bins |
| Histogram.Pow2BinUnique | playground/sys/src/ref/stats/histogram.cc:68-88 | a sample has exactly one power-of-two bin |
| TraceModel.SharedWindowBelowHeap | trace/model/src/lib.rs:20-27 | the shared-memory window starts at 0xBF88_0000 and ends exactly where the global heap starts, so the `u64` subtraction does not underflow |
| TraceModel.BaseAddr | trace/model/src/lib.rs:76-89 | only the global and shared spaces have a base address (the others are `todo!()`); global starts at the heap start and shared ends there |
| TraceModel.ToUpper | trace/model/src/lib.rs:149-150 | upper-casing keeps the length and upper-cases each ASCII letter in place, leaving every other character |
| TraceModel.IsMemoryInstruction | trace/model/src/lib.rs:148-152 | flagged as memory, store or load, or an upper-cased opcode of EXIT or MEMBAR |
| TraceModel.MemoryInstructionIgnoresCase | trace/model/src/lib.rs:148-152 | an entry is a memory instruction exactly when it is flagged as memory, store or load, or its opcode is EXIT or MEMBAR in any ASCII letter case |
| TraceModel.ActiveAddrs | trace/model/src/lib.rs:154-166 | the active lanes' addresses are no more than there are lanes |
| TraceModel.ValidAddresses | trace/model/src/lib.rs:154-166 | an entry that is not a memory instruction has no valid addresses |
| TraceModel.ActiveAddrsCount | trace/model/src/lib.rs:154-166 | there is one address per active lane |
| TraceModel.ActiveAddrsSound | trace/model/src/lib.rs:154-166 | every address in the result belongs to an active lane |
| TraceModel.ActiveAddrsComplete | trace/model/src/lib.rs:154-166 | the address of every active lane is in the result |
| TraceModel.ValidAddressesOfMemory | trace/model/src/lib.rs:154-166 | for a memory instruction, the valid addresses are exactly the active lanes' addresses, one per active lane |
| TraceModel.FillRegisters | trace/model/src/lib.rs:172-192 | after zeroing the slots and writing the registers in order, the first slots hold the registers, the count is their number, and the rest are zero |
| TraceModel.SetSourceRegisters | trace/model/src/lib.rs:168-179 | only the source registers and their count change, and `source_registers` then reads back exactly the registers written |
| TraceModel.SetDestRegisters | trace/model/src/lib.rs:181-192 | only the destination register and its count change, and `dest_registers` then reads back exactly what was written |
| TraceModel.SourceRegisters | trace/model/src/lib.rs:168-170 | `source_registers` is the prefix of the source slots that is `num_src_regs` long |
| TraceModel.DestRegisters | trace/model/src/lib.rs:181-183 | `dest_registers` is the prefix of the destination slots that is `num_dest_regs` long |
| TraceModel.Cmp | trace/model/src/lib.rs:195-211 | two entries compare equal exactly when their (context, kernel, block, warp) keys are equal |
| TraceModel.CmpAntisymmetric | trace/model/src/lib.rs:195-211 | swapping the operands flips the comparison |
| TraceModel.CmpOnlyKey | trace/model/src/lib.rs:195-211 | the comparison depends only on the key, so entries of different instructions of one warp compare equal |
| TraceModel.CmpLessIsKeyLess | trace/model/src/lib.rs:195-211 | an entry is less than another exactly when its key is lexicographically less |
| TraceModel.CmpTransitive | trace/model/src/lib.rs:195-211 | the order is transitive |
| TraceModel.EntriesOf | trace/model/src/lib.rs:259-269 | the entries grouped under a key come from the trace and carry that key |
| TraceModel.KeysInOrder | trace/model/src/lib.rs:259-269 | the map's keys are exactly the (block, warp) keys in the trace, each once |
| TraceModel.ToWarpTraces | trace/model/src/lib.rs:259-269 | `to_warp_traces` maps each (block, warp) key, in order of first appearance, to that warp's entries in trace order |
| TraceModel.GroupStep | trace/model/src/lib.rs:259-269 | one more entry adds its key at the end if the key is new and appends the entry to its own group only |
| TraceModel.EntriesOfCount | trace/model/src/lib.rs:259-269 | grouping loses nothing: over any list of distinct keys covering the trace, the group sizes add up to the trace length |
| TraceModel.WarpTracesPartition | trace/model/src/lib.rs:259-269 | the warp traces together hold exactly as many entries as the trace |
| TraceModel.Dedup | trace/model/src/lib.rs:290-299 | `dedup` keeps the first element, is empty only for an empty input, and keeps exactly the elements of the input |
| TraceModel.Duplicates | trace/model/src/lib.rs:291-300 | every element `duplicates` reports occurs in the input |
| TraceModel.DuplicatesEmptyIffNoRepeat | trace/model/src/lib.rs:291-300 | `duplicates` is empty exactly when no element occurs twice |
| TraceModel.DedupRepeatIff | trace/model/src/lib.rs:284-303 | the dedup of a sequence repeats an element exactly when some value comes back after a different one |
| TraceModel.BlockKeys | trace/model/src/lib.rs:286-289 | the block keys are the (kernel, block) pairs of the entries, in trace order |
| TraceModel.WarpKeys | trace/model/src/lib.rs:295-298 | the warp keys are the (kernel, block, warp) triples of the entries, in trace order |
| TraceModel.IsValidTraceSpec | trace/model/src/lib.rs:236-309 | a trace fails with duplicate blocks exactly when a block comes back after another; it is valid exactly when neither a block nor a warp comes back after another |
| TraceModel.IsValidTrace | trace/model/src/lib.rs:284-309 | duplicate blocks among the deduplicated block keys are reported first, then duplicate warps among the deduplicated warp keys, else the trace is valid |
| ExecModel.ToTraceSpace | exec/src/model.rs:12-22 | every space maps to a trace space that is one of the five named ones, never None, Generic, GlobalToShared or Surface |
| ExecModel.ToTraceSpaceInjective | exec/src/model.rs:12-22 | no two spaces share a trace space, and Global and Shared map to the trace spaces of the same name |
| ExecModel.BaseAddr | exec/src/model.rs:24-28 | a base address exists exactly for the global and shared spaces |
| ExecModel.MemEqIsEquivalence | exec/src/model.rs:53-59 | memory-instruction equality is reflexive, symmetric and transitive, and ignores address, size and both bypass flags |
| ExecModel.Instruction | exec/src/model.rs:85-97 | `instruction()` is Some exactly when `is_access` holds, and then it is the access's memory instruction |
| ExecModel.ThreadEqAsWritten | exec/src/model.rs:112-123 | the thread-instruction equality as written: Nop equals anything, accesses compare as memory instructions, branches by value, and every other pair, two barriers included, is unequal |
| ExecModel.ThreadEq | exec/src/model.rs:112-123 | the corrected equality: the written one, or two barriers |
| ExecModel.BarrierUnequalToItself | exec/src/model.rs:112-123 | as written, the thread-instruction equality falls through to false for two barriers, so a barrier is unequal to itself |
| ExecModel.ThreadEqSpec | exec/src/model.rs:112-123 | the corrected equality agrees with the written one except that a barrier equals a barrier, and it is reflexive and symmetric |
| ExecModel.ThreadEqWithoutNop | exec/src/model.rs:117-122 | without Nop, two instructions are equal exactly when they are the same variant with equal payloads, memory payloads compared by space and kind |
| ExecModel.NopBreaksTransitivity | exec/src/model.rs:115-116 | Nop equals every instruction on either side, so two different branches are both equal to Nop but not to each other |
| View.Split | gpucachesim/stats/view.py:40 | splitting gives at least one piece |
| View.SplitSnoc | gpucachesim/stats/view.py:40 | one more character either ends the last piece, when it is the delimiter, or extends it |
| View.SplitPieces | gpucachesim/stats/view.py:40 | no piece holds the delimiter |
| View.SplitJoinBack | gpucachesim/stats/view.py:40-52 | joining the pieces with the delimiter gives the text back |
| View.SplitLines | gpucachesim/stats/view.py:40 | no line holds a newline |
| View.SplitJoin | gpucachesim/stats/view.py:40-52 | splitting runs joined by the delimiter, none holding it, gives the runs back |
| View.SplitLinesJoin | gpucachesim/stats/view.py:40-52 | `splitlines` undoes the newline join of lines without newlines whose last line is not empty |
| View.SplitNewlinesJoin | gpucachesim/stats/view.py:40-52 | splitting at newlines and joining with newlines gives the text back |
| View.JoinAppend | gpucachesim/stats/view.py:51-52 | joining two non-empty runs of pieces puts one separator between the two joins |
| View.JoinNoNewline | gpucachesim/stats/view.py:51-52 | pieces and a separator without an element join to text without it |
| View.NormalizeLinesCount | gpucachesim/stats/view.py:39-52 | for `lines` of at least 1 the label has exactly `lines` lines; asked for fewer it has at most one |
| View.NormalizeLinesPads | gpucachesim/stats/view.py:41-43 | padding puts `$~$` lines on top of the label's own lines and keeps those |
| View.NormalizeLinesKeepsWords | gpucachesim/stats/view.py:44-51 | reducing only merges lines: the words joined by spaces stay the same |
| View.JoinMerge | gpucachesim/stats/view.py:50-51 | joining a joined prefix with the rest is joining everything |
| View.NormalizeToNumLinesCount | gpucachesim/stats/view.py:39-52 | the normalised label read back with `splitlines` has exactly `lines` lines |
| View.RunLengthsShape | gpucachesim/stats/view.py:985-1003 | the encoding is empty only for the empty input, has positive counts, never puts two equal values side by side, and ends with the input's last value |
| View.RunLengthsExpand | gpucachesim/stats/view.py:985-1003 | expanding the encoding gives the input back |
| View.RunLengthsTotal | gpucachesim/stats/view.py:985-1003 | the counts add up to the input's length |
| View.ExpandLength | gpucachesim/stats/view.py:985-1003 | an encoding expands to as many values as its counts add up to |
| View.DedupAndCount | gpucachesim/stats/view.py:985-1003 | the loop fails exactly when a value is `None`; otherwise it returns the run-length encoding of the values |
| View.DedupSame | gpucachesim/stats/view.py:992-993 | a value equal to the last one lengthens the current run |
| View.DedupNew | gpucachesim/stats/view.py:994-999 | a different value closes the current run and starts a new one |
| View.Lower | gpucachesim/stats/view.py:880-893 | lowering keeps the length, maps each capital to its small letter, keeps everything else, and leaves no capital |
| View.LowerIdempotent | gpucachesim/stats/view.py:880-893 | lowering twice is lowering once |
| View.FilterCols | gpucachesim/stats/view.py:880 | the columns kept are, in their order, exactly those whose lowercase name is requested |
| View.FilterStatCols | gpucachesim/stats/view.py:875-889 | the columns are returned unchanged unless the names are a non-empty list; otherwise the filtered columns are returned exactly when their number is the number of distinct names, and the error reports both numbers |
| View.FilterStatColsKeepsRequested | gpucachesim/stats/view.py:875-889 | every column kept was requested by its lowercase name, and the kept columns appear in the input in the same order |
| View.Underscores | gpucachesim/stats/view.py:905 | every `_` becomes a space and nothing else changes |
| View.BenchmarkLabel | gpucachesim/stats/view.py:892-905 | the lower-cased name is looked up in the table of known benchmarks, and an unknown one has its underscores turned into spaces |
| View.BenchmarkLabelIgnoresCase | gpucachesim/stats/view.py:892-905 | the label of a name does not depend on its case |
| View.BenchmarkLabelUnknown | gpucachesim/stats/view.py:904-905 | an unknown name keeps its length and comes out without capitals or underscores |
| View.BenchmarkLabelKnown | gpucachesim/stats/view.py:893-903 | a known name comes out in LaTeX small capitals |
| View.Repeat | gpucachesim/stats/view.py:43 | `n` copies of a string, none for `n` at most 0 |
| View.FillRight | gpucachesim/stats/view.py:615-618 | a value at least `l` long is returned unchanged; otherwise copies of the fill go in front and the value ends the result, which is `l` long for a one-character fill |
| View.BlocksUnit | gpucachesim/stats/view.py:625-628 | the unit is singular exactly when there is at most one block, and abbreviated exactly when the layout is tight |
| View.SortedByOrderCount | gpucachesim/stats/view.py:762 | sorting by the order keeps each label that is in the order as often as it occurs, and drops the rest |
| View.Repeat1 | gpucachesim/stats/view.py:762 | `n` copies of a label |
| View.Repeat1Count | gpucachesim/stats/view.py:762 | the copies are `n` occurrences of the label and nothing else |
| View.SortedMatchesPresent | gpucachesim/stats/view.py:762-765 | the sorted labels equal the order filtered to the labels present exactly when no label occurs twice |
| View.SortedAtLeastPresent | gpucachesim/stats/view.py:762-765 | the sorted labels are never fewer than the order's entries present |
| View.SortLegendAccepts | gpucachesim/stats/view.py:756-765 | the legend is accepted exactly when every label is one of the four known ones and none occurs twice |
| View.SortLegendPermutes | gpucachesim/stats/view.py:756-765 | an accepted legend lists the same labels, in the fixed order |
| View.SortLegend | gpucachesim/stats/view.py:756-765 | labels outside the legend order, or labels whose sort by that order differs from its present entries, fail the source's assertion; otherwise the sorted labels |
| View.PlotFilenamesDistinct | gpucachesim/stats/view.py:692-858 | the five renderings of one plot go to five different PDF files |
| View.LastDot | gpucachesim/stats/view.py:705 | the position found is the last `.`, and None means there is none |
| View.WithSuffix | gpucachesim/stats/view.py:705 | `with_suffix`: a name whose last dot starts a non-empty suffix after a non-empty stem has that suffix replaced; any other name gets the suffix appended |
| View.PngFilename | gpucachesim/stats/view.py:705-867 | the PNG copy of a plot has the PDF's name with `.png` for `.pdf` |
| View.WithSuffixReplaces | gpucachesim/stats/view.py:705 | a name with a non-empty stem and an extension after its last dot has that extension replaced |
| View.LastDotBefore | gpucachesim/stats/view.py:705 | the last dot is the one before a dot-free tail |
| View.TableFilenamePlain | gpucachesim/stats/view.py:2589-2592 | a benchmark name without a dot gives `view_<name>.tex` |
| View.NormalizeLines | gpucachesim/stats/view.py:39-52 | too few lines are padded on top with `$~$`; too many have their first excess + 1 lines joined with spaces, with the slice clamped at the end (`NormalizeLinesCount`, `NormalizeLinesPads` and `NormalizeLinesKeepsWords` prove its count, padding and words) |
| View.NormalizeToNumLines | gpucachesim/stats/view.py:39-52 | `normalize_to_num_lines`: split into lines, normalise the count, join with newlines (`NormalizeToNumLinesCount` proves the count) |
| View.BaseFilename | gpucachesim/stats/view.py:692-698 | profiler, benchmark, an optional `norm.` and `with_tr.` marker and the statistic, dot separated |
| View.PlotFilename | gpucachesim/stats/view.py:692-858 | the base name followed by the rendering's suffix and `.pdf` (`PlotFilenamesDistinct` proves the renderings apart) |
| View.TableFilename | gpucachesim/stats/view.py:2589-2592 | `view_` and the benchmark name, with `.tex` replacing any suffix it has (`TableFilenamePlain` for a name without a dot) |

## Left out

- Logging, statistics printing and every file, clipboard and figure operation: they have no effect on the modelled state.
- Floating point is integer here. The tag array's dirty percentage is ⌊num_dirty·100/total_lines⌋. Clock-domain times are integers. The operand collector's `bank_warp_shift` is taken as a constant.
- The atomic uid generators are an explicit counter object that the builders are given. Locks and `Arc` wrappers are dropped, since every modelled operation is sequential.
- External collaborators are inputs or fields set by the caller:
  - the kernels and their trace readers;
  - the instruction cache's ready access and its status;
  - the scoreboard and the functional units (ready, can-issue, stallable, latency);
  - the set-index functions;
  - the booksim traffic manager's queues;
  - the memory controller;
  - the sscanf tokens of a cache configuration string.
- The sector cache block that `src/tag_array.rs` drives through its `Block` trait is not part of this model. The line functions of `TagArray` (`AllocateLine`, `FillLine`, `SetSectorStatus`, `Evict` …) follow how `tag_array.rs` uses the block.
- The concurrent-kernel SM paths, atomics, specialized operand collectors and barrier reductions are `unimplemented!`/`todo!` in the source. Where they can be reached, the model returns an error outcome; otherwise they are not modelled.
- `_BoundaryBufferItem::TopPacket` never pops and would loop forever unless the front flit is a tail, so it is not modelled.
- `TraceModel.BaseAddr`: the memory spaces whose base address is `todo!()` yield `None`.
- `TraceModel.ToUpper`: upper-cases ASCII letters only. Rust's `to_uppercase` is Unicode, so a non-ASCII opcode such as `exıt` (dotless ı) is not modelled.
- `TraceModel.MemoryInstructionIgnoresCase`: the case-insensitivity of the opcode test holds for ASCII letter case only, as `ToUpper` says.
- `TraceModel.FillRegisters`: more registers than slots is a precondition; the source's slice copy would panic.
- `TraceModel.SourceRegisters` and `TraceModel.DestRegisters`: a register count within the slots is a precondition; the source's slice `[0..num_regs]` would panic otherwise (trace/model/src/lib.rs:169, 182).
- `TraceModel.CmpDim`: the `dim` module is not part of this model. `Dim` is compared lexicographically on (x, y, z), as a derived order over those fields would do.
- `Core.Core.Fetch` and `Core.Core.FindActiveWarpAndFetch`: where the source panics, they return `ok == false` and leave the core unchanged.
- `Core.Core.Fetch`: the instruction cache's own `cycle` is not modelled.
- `Core.Core.FindAvailableHwThreadId`: requires a nonzero block size to divide the number of hardware threads. Without that, the slice in the source can run past the mask. A block size of 0 is modelled: it finds the empty range at 0 when the core has threads.
- `Core.TranslateLocalMemaddr`: the debug assertions of src/core.rs:1534-1568 are preconditions: the thread base lies below four times the number of concurrent threads; an access of 4 bytes or more has a size that is a multiple of 4, at most the access count in words and a word-aligned address; a smaller access is not empty and stays inside one word. A nonzero block size when local memory is mapped is one too, since the source divides by it.
- `Core.Core.RegisterThreadsInBlockExited`: the debug assertions that the hardware block is in range and has active threads (src/core.rs:2101-2102) are preconditions. So is an exited count no larger than the active count, since the `usize` subtraction at 2104 would underflow. So is the assertion that the last exit names the current kernel, which must be present (2148-2150).
- `Core.Core.Execute`: every ready functional unit that can issue has a latency below the result-bus width. The source indexes the bus by the latency (src/core.rs:1311) and debug-asserts the bound (1331).
- `Core.Core.IssueBlockActually`: covers only the path without concurrent kernels; `maybe_issue_block` around it is not modelled. Counters are unbounded, so `u64` wrap-around is not modelled.
- `Core.Core.IssueBlockActually`: records the corrected barrier mask, which rounds the block's last warp up, not the rounded-down mask of src/core.rs:1885-1890; `Core.BarrierWarpsAsWritten` models the written one (see "## Findings").
- `Core.IssueInto` and `Core.IssuedWithBlock`: use the same corrected barrier mask.
- `Core`: warps are values inside the core's thread state rather than separate objects, and the per-core configuration constants are constructor parameters.
- `Core.ScanWarp`: computes `(last + 1 + i) % n` without `%`. `Core.ScanWarpIsMod` proves the two agree.
- `Barrier.BarrierSet.Allocate`: the assertions that the block id is below the number of blocks per core, that the block is not yet allocated and that the table then holds no more blocks than that (src/barrier.rs:72-82) are preconditions; the last follows from the first two.
- `Barrier.BarrierSet.Deallocate`: the assertions that none of the block's warps waits at a barrier, is still active or waits at any single barrier (src/barrier.rs:97-107) are preconditions.
- `Barrier.BarrierSet.WarpReachedBarrier`: the block and barrier id the source unwraps or indexes without a check are preconditions.
- `Histogram.BinnedHistogram.AddToBin`: a power-of-two bin past the last counter is a precondition. `m_sum` is unbounded, so the `int` overflow of the sum is not modelled.
- `Allocation.Allocations`: the range map is a list of disjoint entries in insertion order rather than the tree the library uses; `Insert` cuts the new range out of the older entries and appends it.
- `Allocation.Allocations.Insert`: an empty range (`lo >= hi`) is a precondition.
- `RegisterSet`: `move_warp` is taken to swap the two slots' contents.
- `RegisterSet.RegisterSet.GetReadyRegId`, `MoveIn`, `MoveOutTo` and `MoveOutToSub`: the source's assertions that a ready or a free slot exists, that the destination is empty and that a sub-core register is in range and occupied are preconditions.
- `OperandCollector`:
  - the slot `get_ready` picks in the Rust register set is an input;
  - `get_free_mut` is taken to return the first empty slot;
  - the arbiter's `outmatch` update is commented out in the source, so one collector may be granted several banks in a cycle, as in the source.
- `TraceGpgpuSim`:
  - `end_cycle`, memory routing and `handle_memcpy_to_gpu` are not modelled;
  - the assertion in `select_kernel` that the chosen kernel has not yet run is a precondition.
- `TraceGpgpuSim.Simulator.UpdateStats`: the occupancy statistics (`gpu_tot_occupancy`, `gpu_occupancy`) are floating-point averages and are not modelled.
- `Interconnect.SkipMemoryNodes`, `Interconnect.MapShaders`, `Interconnect.BuildNodeMap`, `Interconnect.InterconnectInterface.constructor`, `Interconnect.InterconnectInterface.CreateNodeMap` and `Interconnect.InterconnectInterface.Pop`: run the corrected code of the two interconnect findings, the memory-node skip that stops at the end of its table and the pop that uses subnet 0 when there is one subnet. The as-written halves are `Interconnect.PresetMapReadsPastTable` and `Interconnect.SingleSubnetPopOutOfRange`.
- `TagArray.Tags.AddPending`: applies the corrected `AddPendingLine`, which adds a block that is not yet pending; the written update, which never adds one, is `TagArray.AddPendingLineAsWritten`, and `TagArray.PendingLinesNeverGrow` proves it never grows the table (see "## Findings").
- `TagArray.Evict`: the record carries no allocation, which comes from the fetch, and no byte mask, since byte masks of the sector block are not part of this model.
- `MemFetch.BuildAccess`: the source's assertion that the builder's write flag agrees with its access kind is a precondition.
- `MemFetch.Fetch.SetReply`: the source's assertion that the access is not a writeback is a precondition.
- `Warps.Warp.Reset`: the debug assertions that no store is outstanding and no instruction is in the pipeline (src/warp.rs:168-169) are preconditions.
- `OperandCollector.RegisterFileUnit.Writeback`: an instruction with a destination register carries a scheduler id, which the source unwraps (src/operand_collector.rs:995), and that id is in range for the bank computation; the destination operands fill the fixed `MAX_REG_OPERANDS` slots.
- `TraceGpgpuSim.Simulator.Launch`: for a kernel that is not aborted, the assertion that a free kernel slot exists (playground/sys/src/ref/trace_gpgpu_sim.cc:163) is a precondition.
- `TraceGpgpuSim.Simulator.SetKernelDone`: the assertion that the kernel is running (playground/sys/src/ref/trace_gpgpu_sim.cc:1330) is a precondition.
- `TagArray.DirtyPercent`: computes ⌊num_dirty·100/total_lines⌋ with integers. The source multiplies the float quotient by 100 and truncates, which can come out one lower: 29 dirty lines of 100 give 28 there and 29 here.
- `SchedulerUnit.Scheduler.constructor`: `scheduler_unit.hpp`, which declares and initialises the fields, is not part of this model; the counters and the last-issued position start at zero.
- `SchedulerUnit.Scheduler.Cycle`: leaves out the CDP latency path. It also leaves out the PDOM stack lookup with its control-hazard flush, which the trace-driven simulator asserts never happens. The warp priority order is an input.
- `View`:
  - `splitlines` splits at `'\n'` only;
  - `lower` is ASCII only;
  - the legend handles sorted alongside the labels are dropped;
  - `View.NormalizeToNumLinesCount` requires that the label's last line is not empty, since `splitlines` drops a trailing empty line;
  - `fill_right` pads on the left, as written, and its only call in the source is commented out.
- The pandas aggregation, the matplotlib layout and the tick arithmetic of the viewer are not modelled.

## Findings

| source | as written | input that shows it | evidently intended | confidence | as-written member | corrected member |
|---|---|---|---|---|---|---|
| exec/src/model.rs:112-123 | the equality of thread instructions has no arm for two barriers and falls through to `false` | `Barrier == Barrier` | a barrier equals a barrier, so the equality is reflexive | high, not executed | `ExecModel.BarrierUnequalToItself` | `ExecModel.ThreadEqSpec` |
| src/tag_array.rs:282-288 | `add_pending_line` inserts only `if self.pending_lines.contains_key(..)`, so it never adds a line | any block address not yet pending | insert when the address is not yet pending | high, not executed | `TagArray.PendingLinesNeverGrow` | `TagArray.AddPendingLine`, `TagArray.AddRemovePending` |
| playground/sys/src/ref/intersim2/interconnect_interface.cpp:466-475 | the loop that skips memory nodes compares against `memory_node[memory_node_index]` with no bound on the index | the built-in 8 shaders × 8 memory ports table: shader 7 reads entry 8 of the 8 memory nodes | stop skipping once the memory table is exhausted | medium, not executed | `Interconnect.PresetMapReadsPastTable` | `Interconnect.SkipAgrees`, `Interconnect.ShaderNodesAvoidMemory` |
| playground/sys/src/ref/intersim2/interconnect_interface.cpp:214-215 | `Pop` of a shader reads subnet 1 whenever the device is a shader, even when only one subnet exists | `_subnets == 1`, pop at a shader node | with one subnet, pop subnet 0, which is where `Push` puts the replies | medium, not executed | `Interconnect.SingleSubnetPopOutOfRange` | `Interconnect.PushPopSubnetsAgree` |
| src/core.rs:1885-1890 | the block's barrier mask runs from `start / WARP_SIZE` to `end / WARP_SIZE`, rounded down | a 48-thread block in slot 0: warp 1 is bound to the block but not in its barrier mask | round the last warp up, as `init_warps` does (2484-2486) | high, not executed | `Core.BarrierWarpsAsWritten`, `Core.BarrierMaskMissesPartialWarp` | `Core.BarrierWarps`, `Core.BarrierWarpsHoldEveryThread` |
