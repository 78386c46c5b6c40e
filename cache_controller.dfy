/**
 * Address arithmetic of the cache controllers: the tag, block address and
 * miss-status (MSHR) address of a 64-bit address, computed by clearing the
 * low bits below the line size or the atom size.
 */
module CacheController {
  type Address = bv64

  /** The part of the cache configuration the address functions read. */
  datatype CacheConfig = CacheConfig(lineSize: bv64, atomSize: bv64)

  /** `addr & !(size - 1)`: clear the bits of `size - 1`. */
  function ClearLowBits(addr: Address, size: bv64): (r: Address)
    ensures r & (size - 1) == 0
    ensures r & addr == r
  {
    addr & !(size - 1)
  }

  /** A power of two below 2^64: exactly one bit set. */
  predicate IsPow2(size: bv64)
  {
    size != 0 && size & (size - 1) == 0
  }

  /** Clearing is idempotent. */
  lemma ClearIdempotent(addr: Address, size: bv64)
    ensures ClearLowBits(ClearLowBits(addr, size), size) == ClearLowBits(addr, size)
  {
  }

  /** For a power-of-two size, the result is the start of the aligned block
      of that size containing `addr`. */
  lemma ClearAligns(addr: Address, size: bv64)
    requires IsPow2(size)
    ensures ClearLowBits(addr, size) <= addr
    ensures addr - ClearLowBits(addr, size) == addr & (size - 1) < size
  {
  }

  /** Clearing at a finer granularity, then at a coarser one, is the same as
      clearing at the coarser one. */
  lemma ClearFinerThenCoarser(addr: Address, fine: bv64, coarse: bv64)
    requires IsPow2(fine) && IsPow2(coarse) && fine <= coarse
    ensures ClearLowBits(ClearLowBits(addr, fine), coarse) == ClearLowBits(addr, coarse)
    ensures ClearLowBits(addr, coarse) <= ClearLowBits(addr, fine) <= addr
  {
  }

  /** `L1DataCacheController::tag`: the line-size-aligned address. */
  function L1Tag(c: CacheConfig, addr: Address): Address
  {
    ClearLowBits(addr, c.lineSize)
  }

  /** `L1DataCacheController::block_addr`: the tag. */
  function L1BlockAddr(c: CacheConfig, addr: Address): Address
  {
    L1Tag(c, addr)
  }

  /** `L1DataCacheController::mshr_addr`: the atom-size-aligned address. */
  function L1MshrAddr(c: CacheConfig, addr: Address): Address
  {
    ClearLowBits(addr, c.atomSize)
  }

  /** The L1 tag and block address clear the low log2(line size) bits:
      they are line-aligned, idempotent and at most a line below `addr`. */
  lemma L1TagSpec(c: CacheConfig, addr: Address)
    requires IsPow2(c.lineSize)
    ensures L1BlockAddr(c, addr) == L1Tag(c, addr)
    ensures L1Tag(c, addr) & (c.lineSize - 1) == 0
    ensures L1Tag(c, addr) <= addr && addr - L1Tag(c, addr) < c.lineSize
    ensures L1Tag(c, L1Tag(c, addr)) == L1Tag(c, addr)
  {
    ClearAligns(addr, c.lineSize);
    ClearIdempotent(addr, c.lineSize);
  }

  /** With an atom no larger than a line, the MSHR address of an access lies
      in the same line as the access. */
  lemma L1MshrInLine(c: CacheConfig, addr: Address)
    requires IsPow2(c.atomSize) && IsPow2(c.lineSize) && c.atomSize <= c.lineSize
    ensures L1Tag(c, L1MshrAddr(c, addr)) == L1Tag(c, addr)
    ensures L1Tag(c, addr) <= L1MshrAddr(c, addr) <= addr
    ensures L1MshrAddr(c, addr) & (c.atomSize - 1) == 0
  {
    ClearFinerThenCoarser(addr, c.atomSize, c.lineSize);
  }
}
