/**
 * The barrier set of a core: for each thread block the mask of its warps,
 * for each barrier id the mask of warps that have arrived at it, the mask
 * of active warps and the mask of warps blocked at some barrier.  A warp
 * mask is modelled as the set of warp ids whose bit is set.
 */
module Barrier {
  import opened Wrappers

  type WarpMask = set<nat>

  /** `barrier::Kind`. */
  datatype Kind = Sync | Arrive | Reduction

  /** The barrier information of a `bar` instruction. */
  datatype BarrierInfo = BarrierInfo(id: nat, kind: Kind, count: Option<nat>)

  /** What `warp_reached_barrier` did: the barrier stayed closed, it opened,
      or it opened for a reduction, which the source leaves unimplemented
      (`todo!`). */
  datatype Arrival = Waiting | Released | ReductionUnimplemented

  /** The union of the masks of all blocks. */
  ghost predicate InSomeBlock(blocks: map<nat, WarpMask>, w: nat)
  {
    exists b :: b in blocks && w in blocks[b]
  }

  /** The warps released at barrier `b` and below when all of `active` has
      arrived there. */
  function ReleasedBelow(bars: seq<WarpMask>, n: nat, block: WarpMask, active: WarpMask): (r: WarpMask)
    requires n <= |bars|
    ensures forall w :: w in r <==> exists b :: 0 <= b < n && block * bars[b] == active && w in block * bars[b]
  {
    if n == 0 then {}
    else
      var prev := ReleasedBelow(bars, n - 1, block, active);
      var at := block * bars[n - 1];
      if at == active then prev + at else prev
  }

  /** Keys below `max` are at most `max` many. */
  lemma {:induction false} BoundedKeys(keys: set<nat>, max: nat)
    requires forall k :: k in keys ==> k < max
    ensures |keys| <= max
    decreases max
  {
    if max > 0 {
      var smaller := keys - {max - 1};
      BoundedKeys(smaller, max - 1);
      assert keys <= smaller + {max - 1};
      SubsetCard(keys, smaller + {max - 1});
    } else {
      assert keys == {};
    }
  }

  lemma DisjointMinus(a: WarpMask, b: WarpMask)
    requires b * a == {}
    ensures a - b == a
  {
    forall x | x in a ensures x !in b {
      assert x !in b * a;
    }
  }

  lemma SubsetCard<T>(a: set<T>, b: set<T>)
    requires a <= b
    ensures |a| <= |b|
  {
    assert b == a + (b - a);
  }

  class BarrierSet {
    const maxBlocksPerCore: nat
    const maxBarriersPerBlock: nat
    const warpSize: nat
    var warpsPerBlock: map<nat, WarpMask>
    const barIdToWarps: array<WarpMask>
    var activeWarps: WarpMask
    var warpsAtBarrier: WarpMask

    /** Every block id is below the core's limit; every warp at a barrier
        belongs to a block; every blocked warp has arrived at some barrier,
        so a release can unblock it. */
    ghost predicate Valid()
      reads this, barIdToWarps
    {
      && barIdToWarps.Length == maxBarriersPerBlock
      && (forall b :: b in warpsPerBlock ==> b < maxBlocksPerCore)
      && (forall i, w :: 0 <= i < barIdToWarps.Length && w in barIdToWarps[i] ==> InSomeBlock(warpsPerBlock, w))
      && (forall w :: w in warpsAtBarrier ==> exists i :: 0 <= i < barIdToWarps.Length && w in barIdToWarps[i])
    }

    /** `Builder::build`: no block, no barrier, no active warp. */
    constructor (maxBlocksPerCore: nat, maxBarriersPerBlock: nat, warpSize: nat)
      ensures Valid() && fresh(barIdToWarps)
      ensures this.maxBlocksPerCore == maxBlocksPerCore && this.maxBarriersPerBlock == maxBarriersPerBlock
      ensures this.warpSize == warpSize
      ensures warpsPerBlock == map[] && activeWarps == {} && warpsAtBarrier == {}
      ensures forall i :: 0 <= i < barIdToWarps.Length ==> barIdToWarps[i] == {}
    {
      this.maxBlocksPerCore := maxBlocksPerCore;
      this.maxBarriersPerBlock := maxBarriersPerBlock;
      this.warpSize := warpSize;
      warpsPerBlock := map[];
      barIdToWarps := new WarpMask[maxBarriersPerBlock](_ => {});
      activeWarps := {};
      warpsAtBarrier := {};
    }

    /** `is_waiting_at_barrier`. */
    predicate IsWaitingAtBarrier(warpId: nat)
      reads this
    {
      warpId in warpsAtBarrier
    }

    /** `allocate`: register a new block; its warps become active and are
        cleared from every barrier. */
    method Allocate(blockId: nat, warps: WarpMask)
      requires Valid() && blockId < maxBlocksPerCore && blockId !in warpsPerBlock
      modifies this, barIdToWarps
      ensures Valid()
      ensures warpsPerBlock == old(warpsPerBlock)[blockId := warps]
      ensures |warpsPerBlock| <= maxBlocksPerCore
      ensures activeWarps == old(activeWarps) + warps
      ensures warpsAtBarrier == old(warpsAtBarrier) - warps
      ensures forall i :: 0 <= i < barIdToWarps.Length ==> barIdToWarps[i] == old(barIdToWarps[i]) - warps
    {
      ghost var bars0 := barIdToWarps[..];
      ghost var blocks0 := warpsPerBlock;
      ghost var waiting0 := warpsAtBarrier;
      assert forall i, w :: 0 <= i < |bars0| && w in bars0[i] ==> InSomeBlock(blocks0, w);
      assert forall w :: w in waiting0 ==> exists i :: 0 <= i < |bars0| && w in bars0[i];
      warpsPerBlock := warpsPerBlock[blockId := warps];
      BoundedKeys(warpsPerBlock.Keys, maxBlocksPerCore);
      assert |warpsPerBlock| <= maxBlocksPerCore;
      activeWarps := activeWarps + warps;
      warpsAtBarrier := warpsAtBarrier - warps;
      var barId := 0;
      while barId < maxBarriersPerBlock
        modifies barIdToWarps
        invariant 0 <= barId <= maxBarriersPerBlock
        invariant forall i :: 0 <= i < barId ==> barIdToWarps[i] == bars0[i] - warps
        invariant forall i :: barId <= i < barIdToWarps.Length ==> barIdToWarps[i] == bars0[i]
      {
        barIdToWarps[barId] := barIdToWarps[barId] - warps;
        barId := barId + 1;
      }
      forall i, w | 0 <= i < barIdToWarps.Length && w in barIdToWarps[i]
        ensures InSomeBlock(warpsPerBlock, w)
      {
        assert w in bars0[i];
        assert InSomeBlock(blocks0, w);
        var b :| b in blocks0 && w in blocks0[b];
        assert b in warpsPerBlock && w in warpsPerBlock[b];
      }
      forall w | w in warpsAtBarrier
        ensures exists i :: 0 <= i < barIdToWarps.Length && w in barIdToWarps[i]
      {
        assert w in waiting0 && w !in warps;
        var i :| 0 <= i < |bars0| && w in bars0[i];
        assert w in barIdToWarps[i];
      }
    }

    /** `deallocate`: forget a finished block, whose warps are neither
        running nor waiting at any barrier; an unknown block is ignored. */
    method Deallocate(blockId: nat)
      requires Valid()
      requires blockId in warpsPerBlock ==>
        && warpsPerBlock[blockId] * warpsAtBarrier == {}
        && warpsPerBlock[blockId] * activeWarps == {}
        && forall i :: 0 <= i < barIdToWarps.Length ==> warpsPerBlock[blockId] * barIdToWarps[i] == {}
      modifies this, barIdToWarps
      ensures Valid()
      ensures warpsPerBlock == old(warpsPerBlock) - {blockId}
      ensures activeWarps == old(activeWarps) && warpsAtBarrier == old(warpsAtBarrier)
      ensures forall i :: 0 <= i < barIdToWarps.Length ==> barIdToWarps[i] == old(barIdToWarps[i])
    {
      if blockId !in warpsPerBlock {
        return;
      }
      ghost var blocks0 := warpsPerBlock;
      ghost var bars0 := barIdToWarps[..];
      assert forall i, w :: 0 <= i < |bars0| && w in bars0[i] ==> InSomeBlock(blocks0, w);
      var warpsInBlock := warpsPerBlock[blockId];
      assert forall i :: 0 <= i < |bars0| ==> warpsInBlock * bars0[i] == {};
      DisjointMinus(activeWarps, warpsInBlock);
      DisjointMinus(warpsAtBarrier, warpsInBlock);
      warpsPerBlock := warpsPerBlock - {blockId};
      activeWarps := activeWarps - warpsInBlock;
      warpsAtBarrier := warpsAtBarrier - warpsInBlock;
      var barId := 0;
      while barId < maxBarriersPerBlock
        modifies barIdToWarps
        invariant 0 <= barId <= maxBarriersPerBlock
        invariant forall i :: 0 <= i < barIdToWarps.Length ==> barIdToWarps[i] == bars0[i]
      {
        DisjointMinus(barIdToWarps[barId], warpsInBlock);
        barIdToWarps[barId] := barIdToWarps[barId] - warpsInBlock;
        barId := barId + 1;
      }
      forall i, w | 0 <= i < barIdToWarps.Length && w in barIdToWarps[i]
        ensures InSomeBlock(warpsPerBlock, w)
      {
        assert w in bars0[i];
        assert InSomeBlock(blocks0, w);
        var b :| b in blocks0 && w in blocks0[b];
        assert w !in warpsInBlock by {
          assert warpsInBlock * bars0[i] == {};
          assert w !in warpsInBlock * bars0[i];
        }
        assert b != blockId;
        assert b in warpsPerBlock && w in warpsPerBlock[b];
      }
    }

    /** `warp_exited`: the warp is no longer active, and every barrier at
        which all remaining active warps of its block have arrived opens. */
    method WarpExited(warpId: nat)
      requires Valid()
      modifies this, barIdToWarps
      ensures Valid()
      ensures warpsPerBlock == old(warpsPerBlock)
      ensures activeWarps == old(activeWarps) - {warpId}
      ensures !InSomeBlock(warpsPerBlock, warpId) ==>
        warpsAtBarrier == old(warpsAtBarrier) && forall i :: 0 <= i < barIdToWarps.Length ==> barIdToWarps[i] == old(barIdToWarps[i])
      ensures InSomeBlock(warpsPerBlock, warpId) ==>
        exists b :: b in warpsPerBlock && warpId in warpsPerBlock[b] &&
          var block := warpsPerBlock[b];
          var active := block * activeWarps;
          && warpsAtBarrier == old(warpsAtBarrier) - ReleasedBelow(old(barIdToWarps[..]), maxBarriersPerBlock, block, active)
          && forall i :: 0 <= i < barIdToWarps.Length ==>
               barIdToWarps[i] == if block * old(barIdToWarps[i]) == active then old(barIdToWarps[i]) - block
                                  else old(barIdToWarps[i])
    {
      activeWarps := activeWarps - {warpId};
      if !exists b :: b in warpsPerBlock && warpId in warpsPerBlock[b] {
        return;
      }
      var b :| b in warpsPerBlock && warpId in warpsPerBlock[b];
      var warpsInBlock := warpsPerBlock[b];
      var active := warpsInBlock * activeWarps;
      ghost var bars := barIdToWarps[..];
      var barId := 0;
      while barId < maxBarriersPerBlock
        invariant 0 <= barId <= maxBarriersPerBlock
        invariant warpsAtBarrier == old(warpsAtBarrier) - ReleasedBelow(bars, barId, warpsInBlock, active)
        invariant forall i :: 0 <= i < barId ==>
          barIdToWarps[i] == if warpsInBlock * bars[i] == active then bars[i] - warpsInBlock else bars[i]
        invariant forall i :: barId <= i < barIdToWarps.Length ==> barIdToWarps[i] == bars[i]
        invariant warpsPerBlock == old(warpsPerBlock) && activeWarps == old(activeWarps) - {warpId}
      {
        var atASpecificBarrier := warpsInBlock * barIdToWarps[barId];
        if atASpecificBarrier == active {
          barIdToWarps[barId] := barIdToWarps[barId] - atASpecificBarrier;
          warpsAtBarrier := warpsAtBarrier - atASpecificBarrier;
        }
        barId := barId + 1;
      }
      ReleaseKeepsValid(bars, barIdToWarps[..], old(warpsAtBarrier), warpsAtBarrier, warpsInBlock, active);
    }

    /** `warp_reached_barrier`: record the warp at the barrier (and as
        blocked, unless it only arrives), then open the barrier when the
        expected number of threads, or all active warps of the block, have
        arrived. */
    method WarpReachedBarrier(blockId: nat, warpId: nat, bar: BarrierInfo) returns (r: Arrival)
      requires Valid()
      requires blockId in warpsPerBlock && warpId in warpsPerBlock[blockId]
      requires bar.id < barIdToWarps.Length
      modifies this, barIdToWarps
      ensures Valid()
      ensures warpsPerBlock == old(warpsPerBlock) && activeWarps == old(activeWarps)
      ensures forall i :: 0 <= i < barIdToWarps.Length && i != bar.id ==> barIdToWarps[i] == old(barIdToWarps[i])
      ensures var block := warpsPerBlock[blockId];
        var arrived := old(barIdToWarps[bar.id]) + {warpId};
        var waiting := if bar.kind == Arrive then old(warpsAtBarrier) else old(warpsAtBarrier) + {warpId};
        var at := block * arrived;
        var open := match bar.count
                    case Some(count) => |at| * warpSize == count
                    case None => at == block * activeWarps;
        && r == (if !open then Waiting else if bar.kind == Reduction then ReductionUnimplemented else Released)
        && barIdToWarps[bar.id] == (if open then arrived - at else arrived)
        && warpsAtBarrier == (if open then waiting - at else waiting)
    {
      var warpsInBlock := warpsPerBlock[blockId];
      ghost var bars0 := barIdToWarps[..];
      ghost var waiting0 := warpsAtBarrier;
      assert forall w :: w in waiting0 ==> exists i :: 0 <= i < |bars0| && w in bars0[i];
      var arrived := barIdToWarps[bar.id] + {warpId};
      var waiting := match bar.kind
        case Sync => warpsAtBarrier + {warpId}
        case Reduction => warpsAtBarrier + {warpId}
        case Arrive => warpsAtBarrier;
      var atBarrier := warpsInBlock * arrived;
      var active := warpsInBlock * activeWarps;
      var open := match bar.count
        case Some(count) => |atBarrier| * warpSize == count
        case None => atBarrier == active;
      var released: WarpMask := {};
      r := Waiting;
      if open {
        released := atBarrier;
        r := if bar.kind == Reduction then ReductionUnimplemented else Released;
      }
      ArrivalKeepsBlocked(bars0, waiting0, bar.id, warpId, bar.kind == Arrive, released);
      barIdToWarps[bar.id] := arrived - released;
      warpsAtBarrier := waiting - released;
      assert barIdToWarps[..] == bars0[bar.id := arrived - released];
      forall i, w | 0 <= i < barIdToWarps.Length && w in barIdToWarps[i]
        ensures InSomeBlock(warpsPerBlock, w)
      {
        if i == bar.id && w == warpId {
          assert blockId in warpsPerBlock && w in warpsPerBlock[blockId];
        } else {
          assert w in bars0[i];
        }
      }
    }
  }

  /** A warp arriving at barrier `id`, and the release of `released` from
      that barrier and from the blocked mask, keep every blocked warp
      registered at some barrier. */
  lemma ArrivalKeepsBlocked(bars: seq<WarpMask>, waiting: WarpMask, id: nat, warpId: nat,
                            arriveOnly: bool, released: WarpMask)
    requires id < |bars|
    requires forall w :: w in waiting ==> exists i :: 0 <= i < |bars| && w in bars[i]
    ensures var waiting' := (if arriveOnly then waiting else waiting + {warpId}) - released;
      var bars' := bars[id := (bars[id] + {warpId}) - released];
      forall w :: w in waiting' ==> exists i :: 0 <= i < |bars'| && w in bars'[i]
  {
    var waiting' := (if arriveOnly then waiting else waiting + {warpId}) - released;
    var bars' := bars[id := (bars[id] + {warpId}) - released];
    forall w | w in waiting'
      ensures exists i :: 0 <= i < |bars'| && w in bars'[i]
    {
      if w == warpId {
        assert w in bars'[id];
      } else {
        var i :| 0 <= i < |bars| && w in bars[i];
        assert w in bars'[i];
      }
    }
  }

  /** Releasing, at each barrier whose arrived warps of `block` equal
      `active`, those warps from the barrier and from the blocked mask keeps
      every blocked warp registered at some barrier. */
  lemma ReleaseKeepsValid(bars: seq<WarpMask>, bars': seq<WarpMask>, waiting: WarpMask, waiting': WarpMask,
                          block: WarpMask, active: WarpMask)
    requires |bars'| == |bars|
    requires forall i :: 0 <= i < |bars| ==> bars'[i] == if block * bars[i] == active then bars[i] - block else bars[i]
    requires waiting' == waiting - ReleasedBelow(bars, |bars|, block, active)
    requires forall w :: w in waiting ==> exists i :: 0 <= i < |bars| && w in bars[i]
    ensures forall w :: w in waiting' ==> exists i :: 0 <= i < |bars'| && w in bars'[i]
    ensures forall i, w :: 0 <= i < |bars'| && w in bars'[i] ==> w in bars[i]
  {
    forall w | w in waiting'
      ensures exists i :: 0 <= i < |bars'| && w in bars'[i]
    {
      var i :| 0 <= i < |bars| && w in bars[i];
      assert w !in ReleasedBelow(bars, |bars|, block, active);
      assert !(block * bars[i] == active && w in block * bars[i]);
      assert w in bars'[i];
    }
  }

  /** A sync barrier without a count opens when the last active warp of
      the block arrives, and then no warp of the block is left at it and
      none of its warps that were waiting there is blocked any more. */
  method LastArrivalOpens(s: BarrierSet, blockId: nat, warpId: nat, id: nat) returns (r: Arrival)
    requires s.Valid() && blockId in s.warpsPerBlock && warpId in s.warpsPerBlock[blockId]
    requires id < s.barIdToWarps.Length && warpId in s.activeWarps
    requires s.warpsPerBlock[blockId] * s.activeWarps <= s.barIdToWarps[id] + {warpId}
    requires s.barIdToWarps[id] * s.warpsPerBlock[blockId] <= s.activeWarps
    modifies s, s.barIdToWarps
    ensures s.warpsPerBlock == old(s.warpsPerBlock)
    ensures r == Released
    ensures s.warpsPerBlock[blockId] * s.barIdToWarps[id] == {}
    ensures warpId !in s.warpsAtBarrier
    ensures forall w :: w in old(s.barIdToWarps[id]) * s.warpsPerBlock[blockId] ==> w !in s.warpsAtBarrier
  {
    r := s.WarpReachedBarrier(blockId, warpId, BarrierInfo(id, Sync, None));
  }
}
