/**
 * The cache configuration of the PTX front end: the geometry of a cache
 * (sets, line size, associativity), its queue sizes and its data port
 * width, set up from the fields of a configuration string.
 */
module CacheConfig {
  import LineCacheBlock
  import opened Arith

  datatype CacheType = Normal | Sector

  /** The unsigned fields a configuration string can supply, in the order
      of the format; the character fields are not used any more. The
      number of fields the scan matched is passed beside them. */
  datatype Tokens = Tokens(nset: nat, lineSz: nat, assoc: nat, mshrEntries: nat, mshrMaxMerge: nat,
                           missQueueSize: nat, resultFifoEntries: nat, dataPortWidth: nat)

  /** The numeric state of a configuration. */
  datatype Geometry = Geometry(lineSz: nat, lineSzLog2: nat, nset: nat, nsetLog2: nat, assoc: nat,
                               atomSz: nat, sectorSzLog2: nat, originalAssoc: nat, mshrEntries: nat,
                               mshrMaxMerge: nat, missQueueSize: nat, resultFifoEntries: nat,
                               dataPortWidth: nat)

  /** What `init` ends in: the string "none" disables the cache, another
      short string is a parse error (the source aborts), a line size the
      port width does not divide fails the source's assertion. */
  datatype InitOutcome = Disabled | Configured(g: Geometry) | ParseError | PortMismatch

  /** Number of fields before the queue sizes; fewer matched fields make
      the string unusable. */
  const MinTokens: nat := 12

  const U32Modulus: nat := 0x1_0000_0000

  /** `LOGB2`: the floor of the base-2 logarithm, 0 for 0. */
  function Log2(n: nat): (r: nat)
    ensures n >= 1 ==> Pow2(r) <= n < Pow2(r + 1)
    ensures n <= 1 ==> r == 0
  {
    if n <= 1 then 0 else 1 + Log2(n / 2)
  }

  /** `atom_sz`: a sector of a sector cache, a whole line otherwise. */
  function AtomSize(cacheType: CacheType, lineSz: nat): nat
  {
    if cacheType == Sector then LineCacheBlock.SectorSize else lineSz
  }

  /** The body of `init`, on the scanned fields. Fields after the twelfth
      keep their earlier value when the string stops before them. */
  function Configure(config: string, ntok: nat, t: Tokens, cacheType: CacheType, prev: Geometry): (r: InitOutcome)
    ensures ntok < MinTokens ==> (r == Disabled <==> config == "none") && (r == ParseError <==> config != "none")
    ensures ntok >= MinTokens ==> r.Configured? || r.PortMismatch?
    ensures r.Configured? ==>
      && r.g.nset == t.nset && r.g.lineSz == t.lineSz && r.g.assoc == t.assoc && r.g.originalAssoc == t.assoc
      && r.g.lineSzLog2 == Log2(t.lineSz) && r.g.nsetLog2 == Log2(t.nset)
      && r.g.mshrEntries == t.mshrEntries && r.g.mshrMaxMerge == t.mshrMaxMerge
      && r.g.missQueueSize == (if ntok >= 13 then t.missQueueSize else prev.missQueueSize)
      && r.g.resultFifoEntries == (if ntok >= 14 then t.resultFifoEntries else prev.resultFifoEntries)
      && r.g.dataPortWidth > 0 && r.g.lineSz % r.g.dataPortWidth == 0
      && r.g.atomSz == AtomSize(cacheType, t.lineSz)
      && Pow2(r.g.sectorSzLog2) == LineCacheBlock.SectorSize
  {
    if ntok < MinTokens then
      if config == "none" then Disabled else ParseError
    else
      var scannedPort := if ntok >= 15 then t.dataPortWidth else prev.dataPortWidth;
      var port := if scannedPort == 0 then t.lineSz else scannedPort;
      if port == 0 || t.lineSz % port != 0 then PortMismatch
      else
        var sectorLog2 := Log2(LineCacheBlock.SectorSize);
        assert Pow2(5) == 32;
        assert sectorLog2 == 5 by {
          assert Pow2(sectorLog2) <= 32 < Pow2(sectorLog2 + 1);
          Pow2Monotone(sectorLog2, 5);
          Pow2Monotone(5, sectorLog2);
        }
        Configured(Geometry(
          lineSz := t.lineSz, lineSzLog2 := Log2(t.lineSz), nset := t.nset, nsetLog2 := Log2(t.nset),
          assoc := t.assoc, atomSz := AtomSize(cacheType, t.lineSz), sectorSzLog2 := sectorLog2,
          originalAssoc := t.assoc, mshrEntries := t.mshrEntries, mshrMaxMerge := t.mshrMaxMerge,
          missQueueSize := if ntok >= 13 then t.missQueueSize else prev.missQueueSize,
          resultFifoEntries := if ntok >= 14 then t.resultFifoEntries else prev.resultFifoEntries,
          dataPortWidth := port))
  }

  lemma {:induction false} Pow2Monotone(a: nat, b: nat)
    ensures a < b ==> Pow2(a) < Pow2(b)
    ensures Pow2(a) < Pow2(b) ==> a < b
    decreases a + b
  {
    if a > 0 && b > 0 {
      Pow2Monotone(a - 1, b - 1);
    } else if a == 0 && b > 0 {
      Pow2Monotone(0, b - 1);
    } else if b == 0 && a > 0 {
      Pow2Monotone(a - 1, 0);
    }
  }

  /** A full string with a port width of 0 takes the line size as port
      width, and one with an explicit width keeps it when it divides the
      line size. */
  lemma PortWidthDefault(config: string, t: Tokens, cacheType: CacheType, prev: Geometry)
    requires t.lineSz > 0
    ensures t.dataPortWidth == 0 ==>
      var r := Configure(config, 15, t, cacheType, prev);
      r.Configured? && r.g.dataPortWidth == t.lineSz
    ensures t.dataPortWidth > 0 && t.lineSz % t.dataPortWidth == 0 ==>
      var r := Configure(config, 15, t, cacheType, prev);
      r.Configured? && r.g.dataPortWidth == t.dataPortWidth
    ensures t.dataPortWidth > 0 && t.lineSz % t.dataPortWidth != 0 ==>
      Configure(config, 15, t, cacheType, prev) == PortMismatch
  {
  }

  /** `get_total_size_inKB`: the 32-bit product of associativity, sets
      and line size, in whole KiB. */
  function TotalSizeInKB(assoc: nat, nset: nat, lineSz: nat): (kb: nat)
    ensures assoc * nset * lineSz < U32Modulus ==> kb * 1024 <= assoc * nset * lineSz < kb * 1024 + 1024
  {
    ((assoc * nset * lineSz) % U32Modulus) / 1024
  }

  /** The byte count `print` shows: the 32-bit product read as a signed
      `%d`. */
  function PrintedSize(lineSz: nat, nset: nat, assoc: nat): (r: int)
    ensures -0x8000_0000 <= r < 0x8000_0000
    ensures lineSz * nset * assoc < 0x8000_0000 ==> r == lineSz * nset * assoc
  {
    var p := (lineSz * nset * assoc) % U32Modulus;
    if p >= 0x8000_0000 then p - U32Modulus else p
  }

  class CacheConfig {
    var disabled: bool
    var geometry: Geometry
    var cacheType: CacheType
    var cacheStatus: nat

    /** `cache_config()`: enabled, port width 0. */
    constructor (cacheType: CacheType)
      ensures !disabled && geometry.dataPortWidth == 0 && this.cacheType == cacheType
    {
      disabled := false;
      geometry := Geometry(0, 0, 0, 0, 0, 0, 0, 0, 0, 0, 0, 0, 0);
      this.cacheType := cacheType;
      cacheStatus := 0;
    }

    /** `init`: record the status and apply the scanned fields; on a parse
        error or a port mismatch the source stops the program, so the state
        is left as it was. */
    method Init(config: string, status: nat, ntok: nat, t: Tokens) returns (r: InitOutcome)
      modifies this
      ensures r == Configure(config, ntok, t, old(cacheType), old(geometry))
      ensures cacheStatus == status && cacheType == old(cacheType)
      ensures disabled == (old(disabled) || r == Disabled)
      ensures geometry == if r.Configured? then r.g else old(geometry)
    {
      cacheStatus := status;
      r := Configure(config, ntok, t, cacheType, geometry);
      match r {
        case Disabled => disabled := true;
        case Configured(g) => geometry := g;
        case ParseError =>
        case PortMismatch =>
      }
    }

    predicate IsDisabled()
      reads this
    {
      disabled
    }

    function GetLineSz(): nat
      reads this
    {
      geometry.lineSz
    }

    function GetNset(): nat
      reads this
    {
      geometry.nset
    }

    /** `print`'s size figure. */
    function Print(): int
      reads this
    {
      PrintedSize(geometry.lineSz, geometry.nset, geometry.assoc)
    }

    function GetTotalSizeInKB(): nat
      reads this
    {
      TotalSizeInKB(geometry.assoc, geometry.nset, geometry.lineSz)
    }

    /** `set_assoc`: the current associativity changes; the original one
        recorded by `init` does not. */
    method SetAssoc(n: nat)
      modifies this
      ensures geometry == old(geometry).(assoc := n)
      ensures geometry.originalAssoc == old(geometry.originalAssoc)
      ensures disabled == old(disabled) && cacheType == old(cacheType) && cacheStatus == old(cacheStatus)
    {
      geometry := geometry.(assoc := n);
    }

    function GetCacheStatus(): nat
      reads this
    {
      cacheStatus
    }
  }
}
