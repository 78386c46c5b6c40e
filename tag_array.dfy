/**
 * The cache tag array: the lines of every set, the probe that finds a hit
 * or picks a victim, the access that updates the statistics and the line,
 * the two fill paths, flushing and invalidation, and the count of dirty
 * lines that steers victim selection.
 *
 * A line is the per-line status record the tag array reads through its
 * block interface: a tag, a block address, one state per sector, the
 * per-sector readable and "on fill" flags, and the allocation, last-access
 * and fill times.  The set index and the tag of an address come from the
 * cache controller and are parameters here.
 */
module TagArray {
  import opened Wrappers
  import opened LineCacheBlock

  const NumSectors: nat := SectorChunkSize
  const U64Max: nat := 0xFFFF_FFFF_FFFF_FFFF

  /** `cache::RequestStatus`. */
  datatype RequestStatus = Hit | HitReserved | Miss | ReservationFail | SectorMiss | MshrHit
  datatype ReplacementPolicy = Lru | Fifo
  datatype AllocatePolicy = OnMiss | OnFill | Streaming

  /** The result of an operation that either completes or panics. */
  datatype Outcome<T> = Done(value: T) | Panic

  datatype Line = Line(
    tag: nat,
    blockAddr: nat,
    sectors: seq<BlockState>,
    readable: seq<bool>,
    modifiedOnFill: seq<bool>,
    readableOnFill: seq<bool>,
    allocTime: nat,
    lastAccessTime: nat,
    fillTime: nat)

  predicate WfLine(l: Line)
  {
    |l.sectors| == NumSectors && |l.readable| == NumSectors
    && |l.modifiedOnFill| == NumSectors && |l.readableOnFill| == NumSectors
    && l.allocTime <= U64Max && l.lastAccessTime <= U64Max
  }

  /** A line is invalid when all its sectors are, valid otherwise; it is
      reserved or modified when any sector is. */
  predicate IsInvalidLine(l: Line)
  {
    forall i :: 0 <= i < |l.sectors| ==> l.sectors[i] == Invalid
  }

  predicate IsValidLine(l: Line)
  {
    !IsInvalidLine(l)
  }

  predicate IsReservedLine(l: Line)
  {
    exists i :: 0 <= i < |l.sectors| && l.sectors[i] == Reserved
  }

  predicate IsModifiedLine(l: Line)
  {
    exists i :: 0 <= i < |l.sectors| && l.sectors[i] == Modified
  }

  /** `B::default()`: an invalid line. */
  function DefaultLine(): (l: Line)
    ensures WfLine(l) && IsInvalidLine(l) && !IsModifiedLine(l) && !IsReservedLine(l)
  {
    Line(0, 0, seq(NumSectors, _ => Invalid), seq(NumSectors, _ => true),
         seq(NumSectors, _ => false), seq(NumSectors, _ => false), 0, 0, 0)
  }

  /** `allocate`: the line now holds `tag`, with the accessed sector reserved
      and every other sector invalid; no fill effect is pending. */
  function AllocateLine(l: Line, tag: nat, blockAddr: nat, sector: nat, time: nat): (r: Line)
    requires WfLine(l) && sector < NumSectors && time <= U64Max
    ensures WfLine(r) && r.tag == tag && r.blockAddr == blockAddr
    ensures IsReservedLine(r) && IsValidLine(r) && !IsModifiedLine(r)
    ensures r.allocTime == time && r.lastAccessTime == time
  {
    var r := Line(tag, blockAddr, seq(NumSectors, i => if i == sector then Reserved else Invalid), l.readable,
                  seq(NumSectors, _ => false), seq(NumSectors, _ => false), time, time, 0);
    assert r.sectors[sector] == Reserved;
    r
  }

  /** `allocate_sector`: reserve one more sector of a line already holding
      the tag; a modified sector remembers to come back modified. */
  function AllocateSectorLine(l: Line, sector: nat, time: nat): (r: Line)
    requires WfLine(l) && sector < NumSectors && time <= U64Max
    ensures WfLine(r) && r.tag == l.tag && r.blockAddr == l.blockAddr
    ensures IsReservedLine(r) && IsValidLine(r)
  {
    var r := l.(sectors := l.sectors[sector := Reserved],
                modifiedOnFill := l.modifiedOnFill[sector := l.sectors[sector] == Modified],
                readableOnFill := l.readableOnFill[sector := false],
                allocTime := time, lastAccessTime := time);
    assert r.sectors[sector] == Reserved;
    r
  }

  /** `fill`: the sector becomes modified or valid as the pending fill
      says, and readable if asked. */
  function FillLine(l: Line, sector: nat, time: nat): (r: Line)
    requires WfLine(l) && sector < NumSectors
    ensures WfLine(r) && r.tag == l.tag && IsValidLine(r)
    ensures r.sectors[sector] == (if l.modifiedOnFill[sector] then Modified else Valid)
  {
    var r := l.(sectors := l.sectors[sector := if l.modifiedOnFill[sector] then Modified else Valid],
                readable := l.readable[sector := l.readable[sector] || l.readableOnFill[sector]],
                fillTime := time);
    assert r.sectors[sector] != Invalid;
    r
  }

  function SetSectorStatus(l: Line, s: BlockState, sector: nat): (r: Line)
    requires WfLine(l) && sector < NumSectors
    ensures WfLine(r) && r.tag == l.tag && r.sectors[sector] == s
  {
    l.(sectors := l.sectors[sector := s])
  }

  function SetLastAccess(l: Line, time: nat): (r: Line)
    requires WfLine(l) && time <= U64Max
    ensures WfLine(r) && r.sectors == l.sectors && r.lastAccessTime == time
  {
    l.(lastAccessTime := time)
  }

  /** Every sector invalid, the rest of the line unchanged. */
  function InvalidLine(l: Line): (r: Line)
    requires WfLine(l)
    ensures WfLine(r) && IsInvalidLine(r) && !IsModifiedLine(r) && !IsReservedLine(r)
  {
    l.(sectors := seq(NumSectors, _ => Invalid))
  }

  /** A sector that was modified when it was re-reserved comes back
      modified from the fill: re-fetching a sector does not lose its dirty
      data. */
  lemma RefillKeepsDirt(l: Line, sector: nat, t0: nat, t1: nat)
    requires WfLine(l) && sector < NumSectors && t0 <= U64Max
    ensures FillLine(AllocateSectorLine(l, sector, t0), sector, t1).sectors[sector] == Modified
            <==> l.sectors[sector] == Modified
  {
  }

  /** A freshly allocated line's fill makes the sector valid and clean. */
  lemma AllocateThenFillIsClean(l: Line, tag: nat, blockAddr: nat, sector: nat, t0: nat, t1: nat)
    requires WfLine(l) && sector < NumSectors && t0 <= U64Max
    ensures var r := FillLine(AllocateLine(l, tag, blockAddr, sector, t0), sector, t1);
            r.sectors[sector] == Valid && !IsModifiedLine(r) && !IsReservedLine(r) && r.tag == tag
  {
    var a := AllocateLine(l, tag, blockAddr, sector, t0);
    var r := FillLine(a, sector, t1);
    assert forall i :: 0 <= i < NumSectors ==> r.sectors[i] == (if i == sector then Valid else Invalid);
  }

  // ---------------------------------------------------------------------
  // Evicted lines

  datatype EvictedBlockInfo = EvictedBlockInfo(writeback: bool, blockAddr: nat, modifiedSize: nat, dirtySectors: seq<bool>)

  function CountModifiedSectors(s: seq<BlockState>): (n: nat)
    ensures n <= |s|
    ensures n == 0 <==> forall i :: 0 <= i < |s| ==> s[i] != Modified
  {
    if |s| == 0 then 0
    else CountModifiedSectors(s[..|s| - 1]) + (if s[|s| - 1] == Modified then 1 else 0)
  }

  /** The writeback record of a dirty victim: its block address, its dirty
      sectors, and their size in bytes. */
  function Evict(l: Line): (e: EvictedBlockInfo)
    requires WfLine(l)
    ensures e.writeback && e.blockAddr == l.blockAddr
    ensures |e.dirtySectors| == NumSectors && forall i :: 0 <= i < NumSectors ==> e.dirtySectors[i] == (l.sectors[i] == Modified)
    ensures e.modifiedSize <= MaxMemoryAccessSize
    ensures IsModifiedLine(l) <==> e.modifiedSize >= SectorSize
  {
    var n := CountModifiedSectors(l.sectors);
    EvictedBlockInfo(true, l.blockAddr, n * SectorSize, seq(NumSectors, i requires 0 <= i < NumSectors => l.sectors[i] == Modified))
  }

  // ---------------------------------------------------------------------
  // Counting lines

  function Bit(b: bool): nat
  {
    if b then 1 else 0
  }

  /** The number of modified lines. */
  function CountModified(ls: seq<Line>): (n: nat)
    ensures n <= |ls|
  {
    if |ls| == 0 then 0
    else CountModified(ls[..|ls| - 1]) + Bit(IsModifiedLine(ls[|ls| - 1]))
  }

  /** Replacing one line changes the count by that line's contribution. */
  lemma {:induction false} CountModifiedUpdate(ls: seq<Line>, i: nat, l: Line)
    requires i < |ls|
    ensures CountModified(ls[i := l]) + Bit(IsModifiedLine(ls[i])) == CountModified(ls) + Bit(IsModifiedLine(l))
    decreases |ls|
  {
    var n := |ls| - 1;
    if i == n {
      assert ls[i := l][..n] == ls[..n];
    } else {
      assert ls[i := l][..n] == ls[..n][i := l];
      CountModifiedUpdate(ls[..n], i, l);
    }
  }

  /** No modified line: count zero; a count of zero means no modified line. */
  lemma {:induction false} CountModifiedZero(ls: seq<Line>)
    ensures CountModified(ls) == 0 <==> forall i :: 0 <= i < |ls| ==> !IsModifiedLine(ls[i])
    decreases |ls|
  {
    if |ls| > 0 {
      var n := |ls| - 1;
      CountModifiedZero(ls[..n]);
      assert forall i :: 0 <= i < n ==> ls[..n][i] == ls[i];
    }
  }

  /** `num_used_lines`: the lines that are not invalid. */
  function NumUsedLines(ls: seq<Line>): (n: nat)
    ensures n <= |ls|
  {
    if |ls| == 0 then 0
    else NumUsedLines(ls[..|ls| - 1]) + Bit(!IsInvalidLine(ls[|ls| - 1]))
  }

  /** No line is used exactly when every line is invalid. */
  lemma {:induction false} NumUsedLinesZero(ls: seq<Line>)
    ensures NumUsedLines(ls) == 0 <==> forall i :: 0 <= i < |ls| ==> IsInvalidLine(ls[i])
    decreases |ls|
  {
    if |ls| > 0 {
      var n := |ls| - 1;
      NumUsedLinesZero(ls[..n]);
      assert forall i :: 0 <= i < n ==> ls[..n][i] == ls[i];
    }
  }

  // ---------------------------------------------------------------------
  // The probe, as a specification

  /** The percentage of dirty lines, ⌊numDirty·100/totalLines⌋ in integers.
      With no lines, the source's infinity saturates and its NaN becomes 0. */
  function DirtyPercent(numDirty: nat, totalLines: nat): nat
  {
    if totalLines == 0 then (if numDirty == 0 then 0 else U64Max)
    else numDirty * 100 / totalLines
  }

  /** What a probe looks for. */
  datatype Query = Query(tag: nat, sector: nat, isWrite: bool, dirtyPercent: nat, maxDirtyPercent: nat,
                         policy: ReplacementPolicy)

  predicate WfSet(ways: seq<Line>)
  {
    forall i :: 0 <= i < |ways| ==> WfLine(ways[i])
  }

  /** A line holding the tag decides the probe, unless the probed sector is
      invalid and so is the whole line. */
  predicate Decisive(l: Line, q: Query)
    requires WfLine(l) && q.sector < NumSectors
  {
    l.tag == q.tag && (l.sectors[q.sector] != Invalid || IsValidLine(l))
  }

  /** The status of a deciding line. */
  function HitStatus(l: Line, q: Query): (s: RequestStatus)
    requires WfLine(l) && q.sector < NumSectors
    ensures s in {Hit, HitReserved, SectorMiss}
  {
    match l.sectors[q.sector]
    case Reserved => HitReserved
    case Valid => Hit
    case Modified => if q.isWrite || l.readable[q.sector] then Hit else SectorMiss
    case Invalid => SectorMiss
  }

  /** A victim candidate: unreserved, and clean unless the dirty share has
      reached the limit. */
  predicate Eligible(l: Line, q: Query)
  {
    !IsReservedLine(l) && (!IsModifiedLine(l) || q.dirtyPercent >= q.maxDirtyPercent)
  }

  predicate ValidCandidate(l: Line, q: Query)
  {
    Eligible(l, q) && !IsInvalidLine(l)
  }

  /** The replacement key: last access under LRU, allocation under FIFO. */
  function Key(l: Line, policy: ReplacementPolicy): nat
  {
    if policy == Lru then l.lastAccessTime else l.allocTime
  }

  /** The first deciding way at or after `i`. */
  function FirstDecisiveFrom(ways: seq<Line>, q: Query, i: nat): (r: Option<nat>)
    requires WfSet(ways) && q.sector < NumSectors && i <= |ways|
    ensures r.Some? ==> i <= r.value < |ways|
    decreases |ways| - i
  {
    if i == |ways| then None
    else if Decisive(ways[i], q) then Some(i)
    else FirstDecisiveFrom(ways, q, i + 1)
  }

  /** The way found decides and no way before it does; with none found, no
      way from `i` on decides. */
  lemma {:induction false} FirstDecisiveFromSpec(ways: seq<Line>, q: Query, i: nat)
    requires WfSet(ways) && q.sector < NumSectors && i <= |ways|
    ensures var r := FirstDecisiveFrom(ways, q, i);
      && (r.Some? ==> Decisive(ways[r.value], q) && forall j :: i <= j < r.value ==> !Decisive(ways[j], q))
      && (r.None? ==> forall j :: i <= j < |ways| ==> !Decisive(ways[j], q))
    decreases |ways| - i
  {
    if i < |ways| && !Decisive(ways[i], q) {
      FirstDecisiveFromSpec(ways, q, i + 1);
    }
  }

  /** The last eligible invalid way among the first `n`. */
  function LastEligibleInvalid(ways: seq<Line>, q: Query, n: nat): (r: Option<nat>)
    requires n <= |ways|
    ensures r.Some? ==> r.value < n
  {
    if n == 0 then None
    else if Eligible(ways[n - 1], q) && IsInvalidLine(ways[n - 1]) then Some(n - 1)
    else LastEligibleInvalid(ways, q, n - 1)
  }

  /** The way found is an eligible invalid one and no later way is; with
      none found, no way is. */
  lemma {:induction false} LastEligibleInvalidSpec(ways: seq<Line>, q: Query, n: nat)
    requires n <= |ways|
    ensures var r := LastEligibleInvalid(ways, q, n);
      && (r.Some? ==> Eligible(ways[r.value], q) && IsInvalidLine(ways[r.value])
                      && forall j :: r.value < j < n ==> !(Eligible(ways[j], q) && IsInvalidLine(ways[j])))
      && (r.None? ==> forall j :: 0 <= j < n ==> !(Eligible(ways[j], q) && IsInvalidLine(ways[j])))
  {
    if n > 0 && !(Eligible(ways[n - 1], q) && IsInvalidLine(ways[n - 1])) {
      LastEligibleInvalidSpec(ways, q, n - 1);
    }
  }

  /** Among the first `n` ways, the first valid candidate of least key,
      provided that key is below the `u64::MAX` sentinel. */
  function BestValid(ways: seq<Line>, q: Query, n: nat): (r: Option<nat>)
    requires WfSet(ways) && n <= |ways|
    ensures r.Some? ==> r.value < n
  {
    if n == 0 then None
    else
      var prev := BestValid(ways, q, n - 1);
      var bound := if prev.Some? then Key(ways[prev.value], q.policy) else U64Max;
      if ValidCandidate(ways[n - 1], q) && Key(ways[n - 1], q.policy) < bound then Some(n - 1) else prev
  }

  /** The way found is a valid candidate whose key is below the sentinel,
      no greater than any candidate's and below every earlier candidate's;
      with none found, every candidate's key is the sentinel. */
  lemma {:induction false} BestValidSpec(ways: seq<Line>, q: Query, n: nat)
    requires WfSet(ways) && n <= |ways|
    ensures var r := BestValid(ways, q, n);
      && (r.Some? ==> ValidCandidate(ways[r.value], q) && Key(ways[r.value], q.policy) < U64Max)
      && (r.Some? ==> forall j :: 0 <= j < n && ValidCandidate(ways[j], q) ==> Key(ways[r.value], q.policy) <= Key(ways[j], q.policy))
      && (r.Some? ==> forall j :: 0 <= j < r.value && ValidCandidate(ways[j], q) ==> Key(ways[r.value], q.policy) < Key(ways[j], q.policy))
      && (r.None? ==> forall j :: 0 <= j < n && ValidCandidate(ways[j], q) ==> Key(ways[j], q.policy) == U64Max)
  {
    if n > 0 {
      BestValidSpec(ways, q, n - 1);
    }
  }

  predicate AnyEligible(ways: seq<Line>, q: Query, n: nat)
    requires n <= |ways|
  {
    exists j :: 0 <= j < n && Eligible(ways[j], q)
  }

  /** A probe's answer: a way and status, every way ineligible (`None` in
      the source), or no candidate at all, where the source panics. */
  datatype ProbeResult = Found(way: nat, status: RequestStatus) | AllReserved | NoCandidate

  /** The probe of one set. */
  function Probe(ways: seq<Line>, q: Query): (r: ProbeResult)
    requires WfSet(ways) && q.sector < NumSectors
    ensures r.Found? ==> r.way < |ways|
  {
    match FirstDecisiveFrom(ways, q, 0)
    case Some(w) => Found(w, HitStatus(ways[w], q))
    case None =>
      if !AnyEligible(ways, q, |ways|) then AllReserved
      else match LastEligibleInvalid(ways, q, |ways|)
        case Some(w) => Found(w, Miss)
        case None =>
          match BestValid(ways, q, |ways|)
          case Some(w) => Found(w, Miss)
          case None => NoCandidate
  }

  /** What the probe promises: a hit status exactly when a way decides, and
      then the first such; otherwise no answer exactly when every way is
      ineligible; otherwise a miss on an eligible way, invalid if there is
      an eligible invalid way, else one of least replacement key. */
  lemma ProbeSpec(ways: seq<Line>, q: Query)
    requires WfSet(ways) && q.sector < NumSectors
    ensures var r := Probe(ways, q);
      && (r.Found? ==> r.way < |ways|)
      && ((exists j :: 0 <= j < |ways| && Decisive(ways[j], q)) <==> (r.Found? && r.status != Miss))
      && (r.Found? && r.status != Miss ==>
            Decisive(ways[r.way], q) && r.status == HitStatus(ways[r.way], q)
            && forall j :: 0 <= j < r.way ==> !Decisive(ways[j], q))
      && (r.AllReserved? <==>
            (forall j :: 0 <= j < |ways| ==> !Decisive(ways[j], q) && !Eligible(ways[j], q)))
      && (r.Found? && r.status == Miss ==> Eligible(ways[r.way], q))
      && ((r.Found? && r.status == Miss && exists j :: 0 <= j < |ways| && Eligible(ways[j], q) && IsInvalidLine(ways[j]))
          ==> IsInvalidLine(ways[r.way]))
      && (r.Found? && r.status == Miss && !IsInvalidLine(ways[r.way]) ==>
            forall j :: 0 <= j < |ways| && ValidCandidate(ways[j], q) ==> Key(ways[r.way], q.policy) <= Key(ways[j], q.policy))
  {
    FirstDecisiveFromSpec(ways, q, 0);
    LastEligibleInvalidSpec(ways, q, |ways|);
    BestValidSpec(ways, q, |ways|);
  }

  /** The scan of `probe_masked` over the ways of one set: return at the
      first decisive tag match, and otherwise remember the last eligible
      invalid way and the eligible valid way of least key. */
  method ProbeWays(ways: seq<Line>, q: Query) returns (r: ProbeResult)
    requires WfSet(ways) && q.sector < NumSectors
    ensures r == Probe(ways, q)
  {
    var invalidLine: Option<nat> := None;
    var validLine: Option<nat> := None;
    var validTime := U64Max;
    var allReserved := true;
    var way := 0;
    while way < |ways|
      invariant 0 <= way <= |ways|
      invariant FirstDecisiveFrom(ways, q, 0) == FirstDecisiveFrom(ways, q, way)
      invariant invalidLine == LastEligibleInvalid(ways, q, way)
      invariant validLine == BestValid(ways, q, way)
      invariant validTime == if validLine.Some? then Key(ways[validLine.value], q.policy) else U64Max
      invariant allReserved == !AnyEligible(ways, q, way)
    {
      var line := ways[way];
      if line.tag == q.tag {
        var status := line.sectors[q.sector];
        match status {
          case Reserved =>
            return Found(way, HitReserved);
          case Valid =>
            return Found(way, Hit);
          case Modified =>
            var sectorIsReadable := line.readable[q.sector];
            var s := if q.isWrite || sectorIsReadable then Hit else SectorMiss;
            return Found(way, s);
          case Invalid =>
            if IsValidLine(line) {
              return Found(way, SectorMiss);
            }
        }
      }
      if !IsReservedLine(line) {
        if !IsModifiedLine(line) || q.dirtyPercent >= q.maxDirtyPercent {
          allReserved := false;
          if IsInvalidLine(line) {
            invalidLine := Some(way);
          } else {
            var key := if q.policy == Lru then line.lastAccessTime else line.allocTime;
            if key < validTime {
              validTime := key;
              validLine := Some(way);
            }
          }
        }
      }
      assert AnyEligible(ways, q, way + 1) <==> AnyEligible(ways, q, way) || Eligible(ways[way], q);
      way := way + 1;
    }
    if allReserved {
      return AllReserved;
    }
    match (validLine, invalidLine) {
      case (_, Some(invalid)) =>
        r := Found(invalid, Miss);
      case (Some(valid), None) =>
        r := Found(valid, Miss);
      case (None, None) =>
        r := NoCandidate;
    }
  }

  /** The probe's way as a cache index of the set starting at `base`. */
  function AtBase(p: ProbeResult, base: nat): ProbeResult
  {
    if p.Found? then Found(base + p.way, p.status) else p
  }

  /** The line after an access with probe status `s`: a hit refreshes
      the access time, and under allocate-on-miss a miss allocates the line
      and a sector miss reserves the sector. */
  function AccessedLine(l: Line, s: RequestStatus, policy: AllocatePolicy, tag: nat, blockAddr: nat,
                        sector: nat, time: nat): (r: Line)
    requires WfLine(l) && sector < NumSectors && time <= U64Max
    ensures WfLine(r)
  {
    if s == Hit || s == HitReserved then SetLastAccess(l, time)
    else if s == Miss && policy == OnMiss then AllocateLine(l, tag, blockAddr, sector, time)
    else if s == SectorMiss && policy == OnMiss then AllocateSectorLine(l, sector, time)
    else l
  }

  /** The writeback record of an access: only a miss that allocates over a
      modified line evicts it. */
  function AccessEvicted(l: Line, s: RequestStatus, policy: AllocatePolicy): (e: Option<EvictedBlockInfo>)
    requires WfLine(l)
    ensures e.Some? <==> s == Miss && policy == OnMiss && IsModifiedLine(l)
    ensures e.Some? ==> e.value == Evict(l)
  {
    if s == Miss && policy == OnMiss && IsModifiedLine(l) then Some(Evict(l)) else None
  }

  /** The line update of `access` for a found line: refresh it on a hit;
      under allocate-on-miss, allocate it on a miss (writing back a
      modified victim) and reserve the sector on a sector miss.  `cleaned`
      says whether a modified line stopped being modified. */
  method AccessLine(line: Line, status: RequestStatus, policy: AllocatePolicy, tag: nat, blockAddr: nat,
                    sector: nat, time: nat)
    returns (l': Line, evicted: Option<EvictedBlockInfo>, cleaned: bool)
    requires WfLine(line) && sector < NumSectors && time <= U64Max
    ensures l' == AccessedLine(line, status, policy, tag, blockAddr, sector, time)
    ensures evicted == AccessEvicted(line, status, policy)
    ensures cleaned == (IsModifiedLine(line) && !IsModifiedLine(l'))
  {
    l' := line;
    evicted := None;
    cleaned := false;
    if status == HitReserved || status == Hit {
      l' := SetLastAccess(line, time);
    } else if status == Miss {
      if policy == OnMiss {
        if IsModifiedLine(line) {
          evicted := Some(Evict(line));
          cleaned := true;
        }
        l' := AllocateLine(line, tag, blockAddr, sector, time);
      }
    } else if status == SectorMiss {
      if policy == OnMiss {
        var wasModifiedBefore := IsModifiedLine(line);
        l' := AllocateSectorLine(line, sector, time);
        if wasModifiedBefore && !IsModifiedLine(l') {
          cleaned := true;
        }
      }
    }
  }

  /** A modified line makes the count positive. */
  lemma CountModifiedPositive(ls: seq<Line>, i: nat)
    requires i < |ls| && IsModifiedLine(ls[i])
    ensures CountModified(ls) >= 1
  {
    CountModifiedZero(ls);
  }

  /** The line `fill_on_fill` fills: allocated on a miss, with the sector
      reserved on a sector miss, and as found otherwise. */
  function AllocatedForFill(l: Line, s: RequestStatus, tag: nat, blockAddr: nat, sector: nat, time: nat): (r: Line)
    requires WfLine(l) && sector < NumSectors && time <= U64Max
    ensures WfLine(r)
    ensures s == Miss ==> r.tag == tag && !IsModifiedLine(r)
    ensures s != Miss ==> r.tag == l.tag
  {
    if s == Miss then AllocateLine(l, tag, blockAddr, sector, time)
    else if s == SectorMiss then AllocateSectorLine(l, sector, time)
    else l
  }

  /** The line update of `fill_on_fill`: allocate or reserve as the probe
      status demands, then fill.  `cleaned` says the allocation made a
      modified line clean, `dirtied` that the fill made a clean one
      modified. */
  method FillOnFillLine(l: Line, status: RequestStatus, tag: nat, blockAddr: nat, sector: nat, time: nat)
    returns (filled: Line, cleaned: bool, dirtied: bool)
    requires WfLine(l) && sector < NumSectors && time <= U64Max
    ensures var a := AllocatedForFill(l, status, tag, blockAddr, sector, time);
      && filled == FillLine(a, sector, time)
      && cleaned == (IsModifiedLine(l) && !IsModifiedLine(a))
      && dirtied == (IsModifiedLine(filled) && !IsModifiedLine(a))
    ensures Bit(IsModifiedLine(filled)) <= Bit(IsModifiedLine(l)) - Bit(cleaned) + Bit(dirtied)
  {
    var line := l;
    var wasModifiedBefore := IsModifiedLine(line);
    if status == Miss {
      line := AllocateLine(line, tag, blockAddr, sector, time);
    } else if status == SectorMiss {
      line := AllocateSectorLine(line, sector, time);
    }
    AllocatedForFillNoDirtier(l, status, tag, blockAddr, sector, time);
    cleaned := wasModifiedBefore && !IsModifiedLine(line);
    wasModifiedBefore := IsModifiedLine(line);
    filled := FillLine(line, sector, time);
    dirtied := IsModifiedLine(filled) && !wasModifiedBefore;
  }

  /** Allocating for a fill never makes a clean line modified. */
  lemma AllocatedForFillNoDirtier(l: Line, s: RequestStatus, tag: nat, blockAddr: nat, sector: nat, time: nat)
    requires WfLine(l) && sector < NumSectors && time <= U64Max
    ensures IsModifiedLine(AllocatedForFill(l, s, tag, blockAddr, sector, time)) ==> IsModifiedLine(l)
  {
    var a := AllocatedForFill(l, s, tag, blockAddr, sector, time);
    if IsModifiedLine(a) {
      var i :| 0 <= i < |a.sectors| && a.sectors[i] == Modified;
      assert l.sectors[i] == Modified;
    }
  }

  datatype AccessStatus = AccessStatus(cacheIndex: Option<nat>, evicted: Option<EvictedBlockInfo>, status: RequestStatus)

  // ---------------------------------------------------------------------
  // Pending lines

  /** `add_pending_line` as written: the entry is stored only when the
      block address is already pending. */
  function AddPendingLineAsWritten(pending: map<nat, nat>, blockAddr: nat, uid: nat): map<nat, nat>
  {
    if blockAddr in pending then pending[blockAddr := uid] else pending
  }

  /** As written, no block address ever becomes pending. */
  lemma PendingLinesNeverGrow(pending: map<nat, nat>, blockAddr: nat, uid: nat)
    ensures AddPendingLineAsWritten(pending, blockAddr, uid).Keys == pending.Keys
    ensures pending == map[] ==> AddPendingLineAsWritten(pending, blockAddr, uid) == map[]
  {
  }

  /** `add_pending_line` as intended: record the first instruction to wait
      for the block. */
  function AddPendingLine(pending: map<nat, nat>, blockAddr: nat, uid: nat): (r: map<nat, nat>)
    ensures blockAddr in r && r.Keys == pending.Keys + {blockAddr}
    ensures blockAddr in pending ==> r == pending
    ensures blockAddr !in pending ==> r[blockAddr] == uid
    ensures forall a :: a in pending ==> a in r && r[a] == pending[a]
  {
    if blockAddr in pending then pending else pending[blockAddr := uid]
  }

  /** `remove_pending_line`. */
  function RemovePendingLine(pending: map<nat, nat>, blockAddr: nat): (r: map<nat, nat>)
    ensures r.Keys == pending.Keys - {blockAddr}
    ensures forall a :: a in r ==> r[a] == pending[a]
  {
    pending - {blockAddr}
  }

  /** Adding then removing a block that was not pending restores the table. */
  lemma AddRemovePending(pending: map<nat, nat>, blockAddr: nat, uid: nat)
    requires blockAddr !in pending
    ensures RemovePendingLine(AddPendingLine(pending, blockAddr, uid), blockAddr) == pending
  {
  }

  // ---------------------------------------------------------------------
  // The tag array

  class Tags {
    var lines: seq<Line>
    var isUsed: bool
    var numAccess: nat
    var numMiss: nat
    var numPendingHit: nat
    var numReservationFail: nat
    var numDirty: nat
    var pendingLines: map<nat, nat>
    const assoc: nat
    const totalLines: nat
    const maxDirtyPercent: nat
    const policy: ReplacementPolicy
    const allocatePolicy: AllocatePolicy

    /** The dirty count never falls below the number of modified lines, so
        its decrements cannot underflow. */
    ghost predicate Invariant()
      reads this
    {
      WfSet(lines) && numDirty >= CountModified(lines)
    }

    function SetOf(setIndex: nat): seq<Line>
      reads this
      requires setIndex * assoc + assoc <= |lines|
    {
      lines[setIndex * assoc .. setIndex * assoc + assoc]
    }

    function QueryOf(tag: nat, sector: nat, isWrite: bool): Query
      reads this
    {
      Query(tag, sector, isWrite, DirtyPercent(numDirty, totalLines), maxDirtyPercent, policy)
    }

    /** `TagArray::new`: `numLines` invalid lines, all statistics zero. */
    constructor (numLines: nat, assoc: nat, totalLines: nat, maxDirtyPercent: nat,
                 policy: ReplacementPolicy, allocatePolicy: AllocatePolicy)
      ensures Invariant()
      ensures |lines| == numLines && forall i :: 0 <= i < numLines ==> lines[i] == DefaultLine()
      ensures !isUsed && numAccess == 0 && numMiss == 0 && numPendingHit == 0 && numReservationFail == 0
      ensures numDirty == 0 && pendingLines == map[]
      ensures this.assoc == assoc && this.totalLines == totalLines && this.maxDirtyPercent == maxDirtyPercent
      ensures this.policy == policy && this.allocatePolicy == allocatePolicy
    {
      lines := seq(numLines, _ => DefaultLine());
      isUsed := false;
      numAccess := 0;
      numMiss := 0;
      numPendingHit := 0;
      numReservationFail := 0;
      numDirty := 0;
      pendingLines := map[];
      this.assoc := assoc;
      this.totalLines := totalLines;
      this.maxDirtyPercent := maxDirtyPercent;
      this.policy := policy;
      this.allocatePolicy := allocatePolicy;
      new;
      CountModifiedZero(lines);
    }

    /** `probe_masked`: scan the ways of the set once, returning at the
        first decisive tag match and otherwise choosing a victim. */
    /** The probe of set `setIndex`, its way turned into a cache index. */
    ghost function ProbeAt(setIndex: nat, tag: nat, sector: nat, isWrite: bool): (p: ProbeResult)
      reads this
      requires Invariant() && sector < NumSectors && setIndex * assoc + assoc <= |lines|
      ensures p.Found? ==> setIndex * assoc <= p.way < setIndex * assoc + assoc && p.way < |lines|
      ensures p.Found? ==> WfLine(lines[p.way])
    {
      AtBase(Probe(SetOf(setIndex), QueryOf(tag, sector, isWrite)), setIndex * assoc)
    }

    method ProbeMasked(setIndex: nat, tag: nat, sector: nat, isWrite: bool) returns (r: ProbeResult)
      requires Invariant() && sector < NumSectors && setIndex * assoc + assoc <= |lines|
      ensures r == ProbeAt(setIndex, tag, sector, isWrite)
    {
      var base := setIndex * assoc;
      r := ProbeWays(lines[base .. base + assoc], QueryOf(tag, sector, isWrite));
      r := AtBase(r, base);
    }

    /** `access`: count the access, probe, and update the line and the
        statistics as the probe's status demands. */
    method Access(setIndex: nat, tag: nat, blockAddr: nat, sector: nat, isWrite: bool, time: nat)
      returns (out: Outcome<AccessStatus>)
      requires Invariant() && sector < NumSectors && setIndex * assoc + assoc <= |lines| && time <= U64Max
      modifies this
      ensures Invariant() && |lines| == |old(lines)|
      ensures numAccess == old(numAccess) + 1 && isUsed
      ensures pendingLines == old(pendingLines)
      ensures old(numDirty) == CountModified(old(lines)) ==> numDirty == CountModified(lines)
      ensures match old(ProbeAt(setIndex, tag, sector, isWrite))
        case NoCandidate => out == Panic
        case AllReserved =>
          && out == Done(AccessStatus(None, None, ReservationFail))
          && lines == old(lines) && numDirty == old(numDirty)
          && numReservationFail == old(numReservationFail) + 1
          && numMiss == old(numMiss) && numPendingHit == old(numPendingHit)
        case Found(i, s) =>
          var l := old(lines)[i];
          var l' := AccessedLine(l, s, allocatePolicy, tag, blockAddr, sector, time);
          && out == Done(AccessStatus(Some(i), AccessEvicted(l, s, allocatePolicy), s))
          && lines == old(lines)[i := l']
          && numDirty == old(numDirty) - Bit(IsModifiedLine(l) && !IsModifiedLine(l'))
          && numReservationFail == old(numReservationFail)
          && numMiss == old(numMiss) + Bit(s == Miss)
          && numPendingHit == old(numPendingHit) + Bit(s == HitReserved)
    {
      var r := ProbeMasked(setIndex, tag, sector, isWrite);
      numAccess := numAccess + 1;
      isUsed := true;
      match r {
        case NoCandidate =>
          return Panic;
        case AllReserved =>
          numReservationFail := numReservationFail + 1;
          return Done(AccessStatus(None, None, ReservationFail));
        case Found(idx, status) =>
          out := AccessFound(idx, status, tag, blockAddr, sector, time);
      }
    }

    /** The part of `access` after the probe found line `idx` with
        `status`. */
    method AccessFound(idx: nat, status: RequestStatus, tag: nat, blockAddr: nat, sector: nat, time: nat)
      returns (out: Outcome<AccessStatus>)
      requires Invariant() && idx < |lines| && sector < NumSectors && time <= U64Max
      modifies this
      ensures Invariant() && |lines| == |old(lines)|
      ensures old(numDirty) == CountModified(old(lines)) ==> numDirty == CountModified(lines)
      ensures var l := old(lines)[idx];
        var l' := AccessedLine(l, status, allocatePolicy, tag, blockAddr, sector, time);
        && out == Done(AccessStatus(Some(idx), AccessEvicted(l, status, allocatePolicy), status))
        && lines == old(lines)[idx := l']
        && numDirty == old(numDirty) - Bit(IsModifiedLine(l) && !IsModifiedLine(l'))
        && numMiss == old(numMiss) + Bit(status == Miss)
        && numPendingHit == old(numPendingHit) + Bit(status == HitReserved)
      ensures numAccess == old(numAccess) && numReservationFail == old(numReservationFail)
      ensures isUsed == old(isUsed) && pendingLines == old(pendingLines)
    {
      var line := lines[idx];
      var l', evicted, cleaned := AccessLine(line, status, allocatePolicy, tag, blockAddr, sector, time);
      var dirty := numDirty;
      if cleaned {
        CountModifiedPositive(lines, idx);
        dirty := dirty - 1;
      }
      SetLine(idx, l');
      numDirty := dirty;
      numPendingHit := numPendingHit + Bit(status == HitReserved);
      numMiss := numMiss + Bit(status == Miss);
      return Done(AccessStatus(Some(idx), evicted, status));
    }

    /** Store one line; the count of modified lines changes by that line's
        contribution. */
    method SetLine(idx: nat, l: Line)
      requires idx < |lines| && WfSet(lines) && WfLine(l)
      modifies this
      ensures lines == old(lines)[idx := l] && WfSet(lines)
      ensures CountModified(lines) + Bit(IsModifiedLine(old(lines)[idx])) == CountModified(old(lines)) + Bit(IsModifiedLine(l))
      ensures numDirty == old(numDirty) && numAccess == old(numAccess) && numMiss == old(numMiss)
      ensures numPendingHit == old(numPendingHit) && numReservationFail == old(numReservationFail)
      ensures isUsed == old(isUsed) && pendingLines == old(pendingLines)
    {
      CountModifiedUpdate(lines, idx, l);
      lines := lines[idx := l];
    }

    /** `flush`: invalidate every modified line, return how many there
        were, and reset the dirty count. */
    method Flush() returns (flushed: nat)
      requires Invariant()
      modifies this
      ensures Invariant()
      ensures flushed == CountModified(old(lines))
      ensures |lines| == |old(lines)|
      ensures forall i :: 0 <= i < |lines| ==>
                lines[i] == if IsModifiedLine(old(lines)[i]) then InvalidLine(old(lines)[i]) else old(lines)[i]
      ensures numDirty == 0 && CountModified(lines) == 0
      ensures numAccess == old(numAccess) && numMiss == old(numMiss) && pendingLines == old(pendingLines)
      ensures numPendingHit == old(numPendingHit) && numReservationFail == old(numReservationFail)
      ensures isUsed == old(isUsed)
    {
      var ls;
      ls, flushed := FlushLines(lines);
      lines := ls;
      numDirty := 0;
    }

    /** `invalidate`: every sector of every line becomes invalid. */
    method Invalidate()
      requires Invariant()
      modifies this
      ensures Invariant()
      ensures |lines| == |old(lines)| && forall i :: 0 <= i < |lines| ==> lines[i] == InvalidLine(old(lines)[i])
      ensures numDirty == 0 && NumUsedLines(lines) == 0
      ensures numAccess == old(numAccess) && numMiss == old(numMiss) && pendingLines == old(pendingLines)
      ensures numPendingHit == old(numPendingHit) && numReservationFail == old(numReservationFail)
      ensures isUsed == old(isUsed)
    {
      lines := InvalidateLines(lines);
      numDirty := 0;
      CountModifiedZero(lines);
    }

    /** `invalidate_addr`: the addressed sector of every way of the set that
        holds the tag becomes invalid; the dirty count is left as it was. */
    method InvalidateAddr(setIndex: nat, tag: nat, addr: nat)
      requires Invariant() && setIndex * assoc + assoc <= |lines|
      modifies this
      ensures Invariant()
      ensures |lines| == |old(lines)|
      ensures var base := setIndex * assoc; var sector := addr % 128 / 32;
        forall i :: 0 <= i < |lines| ==>
          lines[i] == if base <= i < base + assoc && old(lines)[i].tag == tag
                      then SetSectorStatus(old(lines)[i], Invalid, sector) else old(lines)[i]
      ensures numDirty == old(numDirty) && CountModified(lines) <= CountModified(old(lines))
      ensures numAccess == old(numAccess) && numMiss == old(numMiss) && pendingLines == old(pendingLines)
      ensures numPendingHit == old(numPendingHit) && numReservationFail == old(numReservationFail)
      ensures isUsed == old(isUsed)
    {
      var sector := addr % 128 / 32;
      lines := InvalidateTagInSet(lines, setIndex * assoc, assoc, tag, sector);
    }

    /** `fill_on_miss`: fill the line reserved by an earlier miss and count
        it dirty if the fill made it so. */
    method FillOnMiss(cacheIndex: nat, sector: nat, time: nat)
      requires Invariant() && cacheIndex < |lines| && sector < NumSectors
      modifies this
      ensures Invariant()
      ensures lines == old(lines)[cacheIndex := FillLine(old(lines)[cacheIndex], sector, time)]
      ensures numDirty == old(numDirty) + Bit(IsModifiedLine(lines[cacheIndex]) && !IsModifiedLine(old(lines)[cacheIndex]))
      ensures numAccess == old(numAccess) && numMiss == old(numMiss) && pendingLines == old(pendingLines)
      ensures numPendingHit == old(numPendingHit) && numReservationFail == old(numReservationFail)
      ensures isUsed == old(isUsed)
    {
      var wasModifiedBefore := IsModifiedLine(lines[cacheIndex]);
      var l := FillLine(lines[cacheIndex], sector, time);
      CountModifiedUpdate(lines, cacheIndex, l);
      lines := lines[cacheIndex := l];
      if IsModifiedLine(l) && !wasModifiedBefore {
        numDirty := numDirty + 1;
      }
    }

    /** `fill_on_fill`: probe for the block, allocate it on a miss or
        reserve the sector on a sector miss, then fill it; nothing happens
        when every way is ineligible. */
    method FillOnFill(setIndex: nat, tag: nat, blockAddr: nat, sector: nat, isWrite: bool, time: nat)
      returns (out: Outcome<Option<nat>>)
      requires Invariant() && sector < NumSectors && setIndex * assoc + assoc <= |lines| && time <= U64Max
      modifies this
      ensures Invariant() && |lines| == |old(lines)|
      ensures numAccess == old(numAccess) && numMiss == old(numMiss) && pendingLines == old(pendingLines)
      ensures numPendingHit == old(numPendingHit) && numReservationFail == old(numReservationFail)
      ensures isUsed == old(isUsed)
      ensures match old(ProbeAt(setIndex, tag, sector, isWrite))
        case NoCandidate => out == Panic
        case AllReserved => out == Done(None) && lines == old(lines) && numDirty == old(numDirty)
        case Found(i, s) =>
          var l := old(lines)[i];
          var a := AllocatedForFill(l, s, tag, blockAddr, sector, time);
          && out == Done(Some(i))
          && lines == old(lines)[i := FillLine(a, sector, time)]
          && numDirty == old(numDirty) - Bit(IsModifiedLine(l) && !IsModifiedLine(a))
                         + Bit(IsModifiedLine(FillLine(a, sector, time)) && !IsModifiedLine(a))
    {
      var r := ProbeMasked(setIndex, tag, sector, isWrite);
      match r {
        case NoCandidate =>
          return Panic;
        case AllReserved =>
          return Done(None);
        case Found(idx, status) =>
          FillFound(idx, status, tag, blockAddr, sector, time);
          return Done(Some(idx));
      }
    }

    /** The part of `fill_on_fill` after the probe found line `idx`. */
    method FillFound(idx: nat, status: RequestStatus, tag: nat, blockAddr: nat, sector: nat, time: nat)
      requires Invariant() && idx < |lines| && sector < NumSectors && time <= U64Max
      modifies this
      ensures Invariant() && |lines| == |old(lines)|
      ensures var l := old(lines)[idx];
        var a := AllocatedForFill(l, status, tag, blockAddr, sector, time);
        && lines == old(lines)[idx := FillLine(a, sector, time)]
        && numDirty == old(numDirty) - Bit(IsModifiedLine(l) && !IsModifiedLine(a))
                       + Bit(IsModifiedLine(FillLine(a, sector, time)) && !IsModifiedLine(a))
      ensures numAccess == old(numAccess) && numMiss == old(numMiss) && pendingLines == old(pendingLines)
      ensures numPendingHit == old(numPendingHit) && numReservationFail == old(numReservationFail)
      ensures isUsed == old(isUsed)
    {
      var filled, cleaned, dirtied := FillOnFillLine(lines[idx], status, tag, blockAddr, sector, time);
      if cleaned {
        CountModifiedPositive(lines, idx);
        numDirty := numDirty - 1;
      }
      if dirtied {
        numDirty := numDirty + 1;
      }
      SetLine(idx, filled);
    }

    /** `add_pending_line`, with the intended condition. */
    method AddPending(blockAddr: nat, uid: nat)
      modifies this
      ensures pendingLines == AddPendingLine(old(pendingLines), blockAddr, uid)
      ensures lines == old(lines) && numDirty == old(numDirty)
    {
      pendingLines := AddPendingLine(pendingLines, blockAddr, uid);
    }

    /** `remove_pending_line`. */
    method RemovePending(blockAddr: nat)
      modifies this
      ensures pendingLines == RemovePendingLine(old(pendingLines), blockAddr)
      ensures lines == old(lines) && numDirty == old(numDirty)
    {
      pendingLines := RemovePendingLine(pendingLines, blockAddr);
    }
  }

  /** The loop of `flush` over the lines. */
  method FlushLines(ls: seq<Line>) returns (r: seq<Line>, flushed: nat)
    requires WfSet(ls)
    ensures WfSet(r) && |r| == |ls| && flushed == CountModified(ls) && CountModified(r) == 0
    ensures forall i :: 0 <= i < |r| ==> r[i] == if IsModifiedLine(ls[i]) then InvalidLine(ls[i]) else ls[i]
  {
    r := ls;
    flushed := 0;
    var i := 0;
    while i < |r|
      invariant 0 <= i <= |r| == |ls|
      invariant forall j :: 0 <= j < i ==> r[j] == if IsModifiedLine(ls[j]) then InvalidLine(ls[j]) else ls[j]
      invariant forall j :: i <= j < |r| ==> r[j] == ls[j]
      invariant flushed == CountModified(ls[..i])
    {
      assert ls[..i + 1][..i] == ls[..i];
      if IsModifiedLine(r[i]) {
        var l := InvalidateSectors(r[i]);
        r := r[i := l];
        flushed := flushed + 1;
      }
      i := i + 1;
    }
    assert ls[..i] == ls;
    CountModifiedZero(r);
  }

  /** The loop of `invalidate` over the lines. */
  method InvalidateLines(ls: seq<Line>) returns (r: seq<Line>)
    requires WfSet(ls)
    ensures WfSet(r) && |r| == |ls| && forall i :: 0 <= i < |r| ==> r[i] == InvalidLine(ls[i])
    ensures NumUsedLines(r) == 0
  {
    r := ls;
    var i := 0;
    while i < |r|
      invariant 0 <= i <= |r| == |ls|
      invariant forall j :: 0 <= j < i ==> r[j] == InvalidLine(ls[j])
      invariant forall j :: i <= j < |r| ==> r[j] == ls[j]
    {
      var l := InvalidateSectors(r[i]);
      r := r[i := l];
      i := i + 1;
    }
    NumUsedLinesZero(r);
  }

  /** The loop of `invalidate_addr` over the ways of one set. */
  method InvalidateTagInSet(ls: seq<Line>, base: nat, assoc: nat, tag: nat, sector: nat) returns (r: seq<Line>)
    requires WfSet(ls) && base + assoc <= |ls| && sector < NumSectors
    ensures WfSet(r) && |r| == |ls| && CountModified(r) <= CountModified(ls)
    ensures forall i :: 0 <= i < |r| ==>
      r[i] == if base <= i < base + assoc && ls[i].tag == tag then SetSectorStatus(ls[i], Invalid, sector) else ls[i]
  {
    r := ls;
    var way := 0;
    while way < assoc
      invariant 0 <= way <= assoc && |r| == |ls| && WfSet(r)
      invariant CountModified(r) <= CountModified(ls)
      invariant forall i :: 0 <= i < |r| ==>
        r[i] == if base <= i < base + way && ls[i].tag == tag then SetSectorStatus(ls[i], Invalid, sector) else ls[i]
    {
      var idx := base + way;
      if r[idx].tag == tag {
        var l := SetSectorStatus(r[idx], Invalid, sector);
        InvalidSectorNotModifying(r[idx], sector);
        CountModifiedUpdate(r, idx, l);
        r := r[idx := l];
      }
      way := way + 1;
    }
  }

  /** The inner loop of `flush` and `invalidate`: set each sector invalid. */
  method InvalidateSectors(l: Line) returns (r: Line)
    requires WfLine(l)
    ensures r == InvalidLine(l)
  {
    r := l;
    var sector := 0;
    while sector < NumSectors
      invariant 0 <= sector <= NumSectors && WfLine(r)
      invariant r == l.(sectors := r.sectors)
      invariant forall i :: 0 <= i < sector ==> r.sectors[i] == Invalid
    {
      r := SetSectorStatus(r, Invalid, sector);
      sector := sector + 1;
    }
    assert r.sectors == seq(NumSectors, _ => Invalid);
  }

  /** Invalidating a sector never makes a line modified. */
  lemma InvalidSectorNotModifying(l: Line, sector: nat)
    requires WfLine(l) && sector < NumSectors
    ensures IsModifiedLine(SetSectorStatus(l, Invalid, sector)) ==> IsModifiedLine(l)
  {
    var r := SetSectorStatus(l, Invalid, sector);
    if IsModifiedLine(r) {
      var i :| 0 <= i < |r.sectors| && r.sectors[i] == Modified;
      assert l.sectors[i] == Modified;
    }
  }

  /** Invalidating the only modified sector of a line leaves the dirty
      count above the number of modified lines: `invalidate_addr` does not
      keep the count exact. */
  lemma InvalidateAddrLeavesCountStale()
    ensures var l := DefaultLine().(tag := 7, sectors := [Modified, Invalid, Invalid, Invalid]);
            var r := SetSectorStatus(l, Invalid, 0);
            IsModifiedLine(l) && !IsModifiedLine(r)
            && CountModified([l]) == 1 && CountModified([r]) == 0
  {
    var l := DefaultLine().(tag := 7, sectors := [Modified, Invalid, Invalid, Invalid]);
    var r := SetSectorStatus(l, Invalid, 0);
    assert l.sectors[0] == Modified;
    assert [l][..0] == [] && [r][..0] == [];
  }
}
