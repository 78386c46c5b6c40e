/**
 * A non-sectored cache line of the reference simulator: one state for the
 * whole line, the allocation, fill and last-access times, the "on fill"
 * flags that decide what a fill does, and the mask of dirty bytes.
 */
module LineCacheBlock {
  /** `cache_block_state`. */
  datatype BlockState = Invalid | Reserved | Valid | Modified

  /** Bytes per line access and sectors per line. */
  const MaxMemoryAccessSize: nat := 128
  const SectorChunkSize: nat := 4
  const SectorSize: nat := 32

  function OrMask(a: seq<bool>, b: seq<bool>): (r: seq<bool>)
    requires |a| == |b|
    ensures |r| == |a|
    ensures forall i :: 0 <= i < |a| ==> r[i] == (a[i] || b[i])
  {
    seq(|a|, i requires 0 <= i < |a| => a[i] || b[i])
  }

  class Block {
    var tag: nat
    var blockAddr: nat
    var allocTime: nat
    var lastAccessTime: nat
    var fillTime: nat
    var status: BlockState
    var ignoreOnFillStatus: bool
    var setModifiedOnFill: bool
    var setReadableOnFill: bool
    var setByteMaskOnFill: bool
    var readable: bool
    var dirtyByteMask: seq<bool>

    ghost predicate Invariant()
      reads this
    {
      |dirtyByteMask| == MaxMemoryAccessSize
    }

    /** A new line: invalid, readable, all times 0, no byte dirty. */
    constructor ()
      ensures Invariant()
      ensures status == Invalid && readable
      ensures allocTime == 0 && fillTime == 0 && lastAccessTime == 0
      ensures !ignoreOnFillStatus && !setModifiedOnFill && !setReadableOnFill
      ensures forall i :: 0 <= i < |dirtyByteMask| ==> !dirtyByteMask[i]
    {
      tag := 0;
      blockAddr := 0;
      allocTime := 0;
      fillTime := 0;
      lastAccessTime := 0;
      status := Invalid;
      ignoreOnFillStatus := false;
      setModifiedOnFill := false;
      setReadableOnFill := false;
      setByteMaskOnFill := false;
      readable := true;
      dirtyByteMask := seq(MaxMemoryAccessSize, _ => false);
    }

    /** `allocate`: reserve the line for `tag`; the pending fill has no
        on-fill effects yet. */
    method Allocate(tag: nat, blockAddr: nat, time: nat)
      requires Invariant()
      modifies this
      ensures Invariant()
      ensures status == Reserved && this.tag == tag && this.blockAddr == blockAddr
      ensures allocTime == time && lastAccessTime == time && fillTime == 0
      ensures !ignoreOnFillStatus && !setModifiedOnFill && !setReadableOnFill && !setByteMaskOnFill
      ensures readable == old(readable) && dirtyByteMask == old(dirtyByteMask)
    {
      this.tag := tag;
      this.blockAddr := blockAddr;
      allocTime := time;
      lastAccessTime := time;
      fillTime := 0;
      status := Reserved;
      ignoreOnFillStatus := false;
      setModifiedOnFill := false;
      setReadableOnFill := false;
      setByteMaskOnFill := false;
    }

    /** `fill`: the line becomes modified if a write asked for that, else
        valid; readability and dirty bytes change only when asked. */
    method Fill(time: nat, byteMask: seq<bool>)
      requires Invariant() && |byteMask| == MaxMemoryAccessSize
      modifies this
      ensures Invariant()
      ensures status == (if old(setModifiedOnFill) then Modified else Valid)
      ensures readable == (old(setReadableOnFill) || old(readable))
      ensures dirtyByteMask == (if old(setByteMaskOnFill) then OrMask(old(dirtyByteMask), byteMask) else old(dirtyByteMask))
      ensures fillTime == time
      ensures tag == old(tag) && blockAddr == old(blockAddr) && allocTime == old(allocTime)
      ensures lastAccessTime == old(lastAccessTime)
      ensures setModifiedOnFill == old(setModifiedOnFill) && setReadableOnFill == old(setReadableOnFill)
      ensures setByteMaskOnFill == old(setByteMaskOnFill) && ignoreOnFillStatus == old(ignoreOnFillStatus)
    {
      status := if setModifiedOnFill then Modified else Valid;
      if setReadableOnFill {
        readable := true;
      }
      if setByteMaskOnFill {
        SetByteMask(byteMask);
      }
      fillTime := time;
    }

    predicate IsInvalidLine() reads this { status == Invalid }
    predicate IsValidLine() reads this { status == Valid }
    predicate IsReservedLine() reads this { status == Reserved }
    predicate IsModifiedLine() reads this { status == Modified }

    /** `get_status`: the sector mask is ignored, a line has one state. */
    function GetStatus(sectorMask: seq<bool>): BlockState
      reads this
    {
      status
    }

    method SetStatus(s: BlockState)
      modifies this
      ensures status == s
      ensures tag == old(tag) && blockAddr == old(blockAddr) && allocTime == old(allocTime)
      ensures lastAccessTime == old(lastAccessTime) && fillTime == old(fillTime) && readable == old(readable)
      ensures dirtyByteMask == old(dirtyByteMask)
      ensures setModifiedOnFill == old(setModifiedOnFill) && setReadableOnFill == old(setReadableOnFill)
      ensures setByteMaskOnFill == old(setByteMaskOnFill) && ignoreOnFillStatus == old(ignoreOnFillStatus)
    {
      status := s;
    }

    /** `set_byte_mask`: OR bytes into the dirty mask; bits are never cleared. */
    method SetByteMask(byteMask: seq<bool>)
      requires Invariant() && |byteMask| == MaxMemoryAccessSize
      modifies this
      ensures Invariant()
      ensures dirtyByteMask == OrMask(old(dirtyByteMask), byteMask)
      ensures forall i :: 0 <= i < MaxMemoryAccessSize && old(dirtyByteMask)[i] ==> dirtyByteMask[i]
      ensures status == old(status) && tag == old(tag) && blockAddr == old(blockAddr)
      ensures allocTime == old(allocTime) && lastAccessTime == old(lastAccessTime) && fillTime == old(fillTime)
      ensures readable == old(readable)
      ensures setModifiedOnFill == old(setModifiedOnFill) && setReadableOnFill == old(setReadableOnFill)
      ensures setByteMaskOnFill == old(setByteMaskOnFill) && ignoreOnFillStatus == old(ignoreOnFillStatus)
    {
      dirtyByteMask := OrMask(dirtyByteMask, byteMask);
    }

    /** `get_dirty_sector_mask`: every sector of a modified line, none of a
        clean one. */
    function DirtySectorMask(): (m: seq<bool>)
      reads this
      ensures |m| == SectorChunkSize
      ensures status == Modified ==> forall i :: 0 <= i < |m| ==> m[i]
      ensures status != Modified ==> forall i :: 0 <= i < |m| ==> !m[i]
    {
      var dirty := status == Modified;
      seq(SectorChunkSize, _ => dirty)
    }

    /** `get_modified_size`: a whole line. */
    function ModifiedSize(): (n: nat)
      ensures n == MaxMemoryAccessSize
    {
      SectorChunkSize * SectorSize
    }

    method SetLastAccessTime(time: nat)
      modifies this
      ensures lastAccessTime == time
      ensures status == old(status) && tag == old(tag) && allocTime == old(allocTime)
      ensures fillTime == old(fillTime) && readable == old(readable) && dirtyByteMask == old(dirtyByteMask)
      ensures blockAddr == old(blockAddr)
      ensures setModifiedOnFill == old(setModifiedOnFill) && setReadableOnFill == old(setReadableOnFill)
      ensures setByteMaskOnFill == old(setByteMaskOnFill) && ignoreOnFillStatus == old(ignoreOnFillStatus)
    {
      lastAccessTime := time;
    }

    /** `set_modified_on_fill`, `set_readable_on_fill`, `set_byte_mask_on_fill`
        and `set_ignore_on_fill`: choose what the next fill does. */
    method SetOnFill(modified: bool, readableOnFill: bool, byteMaskOnFill: bool, ignore: bool)
      modifies this
      ensures setModifiedOnFill == modified && setReadableOnFill == readableOnFill
      ensures setByteMaskOnFill == byteMaskOnFill && ignoreOnFillStatus == ignore
      ensures status == old(status) && tag == old(tag) && allocTime == old(allocTime)
      ensures lastAccessTime == old(lastAccessTime) && fillTime == old(fillTime)
      ensures readable == old(readable) && dirtyByteMask == old(dirtyByteMask) && blockAddr == old(blockAddr)
    {
      setModifiedOnFill := modified;
      setReadableOnFill := readableOnFill;
      setByteMaskOnFill := byteMaskOnFill;
      ignoreOnFillStatus := ignore;
    }

    method SetReadable(r: bool)
      modifies this
      ensures readable == r
      ensures status == old(status) && tag == old(tag) && allocTime == old(allocTime)
      ensures lastAccessTime == old(lastAccessTime) && fillTime == old(fillTime)
      ensures dirtyByteMask == old(dirtyByteMask) && blockAddr == old(blockAddr)
      ensures setModifiedOnFill == old(setModifiedOnFill) && setReadableOnFill == old(setReadableOnFill)
      ensures setByteMaskOnFill == old(setByteMaskOnFill) && ignoreOnFillStatus == old(ignoreOnFillStatus)
    {
      readable := r;
    }

    /** `is_readable`: the sector mask is ignored. */
    predicate IsReadable(sectorMask: seq<bool>)
      reads this
    {
      readable
    }
  }

  /** `set_byte_mask` is idempotent, and byte masks set one after the
      other accumulate the same in either order. */
  lemma ByteMasksAccumulate(a: seq<bool>, b: seq<bool>, c: seq<bool>)
    requires |a| == |b| == |c|
    ensures OrMask(OrMask(a, b), b) == OrMask(a, b)
    ensures OrMask(OrMask(a, b), c) == OrMask(OrMask(a, c), b)
  {
    assert forall i :: 0 <= i < |a| ==> OrMask(OrMask(a, b), b)[i] == OrMask(a, b)[i];
    assert forall i :: 0 <= i < |a| ==> OrMask(OrMask(a, b), c)[i] == OrMask(OrMask(a, c), b)[i];
  }

  /** The line life cycle: allocate reserves a new line; a fill with the
      modified flag set makes it modified, whose sectors are then all dirty,
      and a fill without it makes it valid and clean. */
  method LifeCycle(tag: nat, t0: nat, t1: nat, writeFill: bool) returns (reserved: bool, final: BlockState, dirty: seq<bool>)
    requires t0 <= t1
    ensures reserved
    ensures final == (if writeFill then Modified else Valid)
    ensures |dirty| == SectorChunkSize && forall i :: 0 <= i < |dirty| ==> dirty[i] == writeFill
  {
    var b := new Block();
    assert b.IsInvalidLine();
    b.Allocate(tag, tag, t0);
    reserved := b.IsReservedLine();
    b.SetOnFill(writeFill, false, false, false);
    b.Fill(t1, seq(MaxMemoryAccessSize, _ => false));
    final := b.status;
    dirty := b.DirtySectorMask();
  }
}
