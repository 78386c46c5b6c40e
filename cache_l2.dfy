/**
 * The L2 data cache's address functions and its used-bytes statistic.  The
 * L2 is not banked, and its MSHR entries cover one atom.
 */
module CacheL2 {
  import opened CacheController

  /** `L2DataCacheController::tag`: the line-size-aligned address. */
  function L2Tag(c: CacheConfig, addr: Address): Address
  {
    ClearLowBits(addr, c.lineSize)
  }

  /** `L2DataCacheController::block_addr`: the tag. */
  function L2BlockAddr(c: CacheConfig, addr: Address): Address
  {
    L2Tag(c, addr)
  }

  /** `L2DataCacheController::set_bank`: one bank. */
  function L2SetBank(c: CacheConfig, addr: Address): (b: nat)
    ensures b == 0
  {
    0
  }

  /** `L2DataCacheController::mshr_addr`: the atom-size-aligned address. */
  function L2MshrAddr(c: CacheConfig, addr: Address): Address
  {
    ClearLowBits(addr, c.atomSize)
  }

  /** The L2 tag is line-aligned, idempotent, and the start of the line that
      holds `addr`; it is the same address the L1 uses as its tag. */
  lemma L2TagSpec(c: CacheConfig, addr: Address)
    requires IsPow2(c.lineSize)
    ensures L2BlockAddr(c, addr) == L2Tag(c, addr) == L1Tag(c, addr)
    ensures L2Tag(c, addr) & (c.lineSize - 1) == 0
    ensures L2Tag(c, addr) <= addr && addr - L2Tag(c, addr) < c.lineSize
    ensures L2Tag(c, L2Tag(c, addr)) == L2Tag(c, addr)
  {
    L1TagSpec(c, addr);
  }

  /** The MSHR address is atom-aligned and in the line of the access. */
  lemma L2MshrSpec(c: CacheConfig, addr: Address)
    requires IsPow2(c.atomSize) && IsPow2(c.lineSize) && c.atomSize <= c.lineSize
    ensures L2MshrAddr(c, addr) & (c.atomSize - 1) == 0
    ensures L2Tag(c, L2MshrAddr(c, addr)) == L2Tag(c, addr)
    ensures L2MshrAddr(c, addr) <= addr
  {
    L1MshrInLine(c, addr);
  }

  /** `DataL2::num_used_bytes`: whole lines are counted. */
  function NumUsedBytes(numUsedLines: nat, lineSize: nat): nat
  {
    numUsedLines * lineSize
  }

  /** The used bytes never exceed the capacity of the tag array. */
  lemma UsedBytesBounded(numUsedLines: nat, numTotalLines: nat, lineSize: nat)
    requires numUsedLines <= numTotalLines
    ensures NumUsedBytes(numUsedLines, lineSize) <= NumUsedBytes(numTotalLines, lineSize)
  {
    MulLe(numUsedLines, numTotalLines, lineSize);
  }

  lemma MulLe(a: nat, b: nat, c: nat)
    requires a <= b
    ensures a * c <= b * c
  {
  }
}
