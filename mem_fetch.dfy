/**
 * Memory requests: the access kinds with their memory spaces, a memory
 * access built from a builder, and the fetch that carries an access through
 * the memory system as a request and then, once served, as a reply.
 */
module MemFetch {
  import opened Wrappers
  import Allocation

  const ReadPacketSize: nat := 8
  /** Six address bytes and two miscellaneous bytes. */
  const WritePacketSize: nat := 8
  const WriteMaskSize: nat := 8
  /** The sector geometry of the memory partitions. */
  const SectorSize: nat := 32
  const NumSectors: nat := 4
  const MaxMemoryAccessSize: nat := 128

  /** The state of a fetch in the memory system. */
  datatype Kind = ReadRequest | WriteRequest | ReadReply | WriteAck

  datatype Status =
    | Initialized | InL1iMissQueue | InL1dMissQueue | InL1tMissQueue | InL1cMissQueue
    | InL1tlbMissQueue | InVmManagerQueue | InIcntToMem | InPartitionRopDelay
    | InPartitionIcntToL2Queue | InPartitionL2ToDramQueue | InPartitionDramLatencyQueue
    | InPartitionL2MissQueue | InPartitionMcInterfaceQueue | InPartitionMcInputQueue
    | InPartitionMcBankArbQueue | InPartitionDram | InPartitionMcReturnq
    | InPartitionDramToL2Queue | InPartitionL2FillQueue | InPartitionL2ToIcntQueue
    | InIcntToShader | InClusterToShaderQueue | InShaderLdstResponseFifo | InShaderFetched
    | InShaderL1tRob | Deleted | NumMemReqStat

  /** `access::Kind`: what an access is for. */
  datatype AccessKind =
    | GlobalAccR | LocalAccR | ConstAccR | TextureAccR | GlobalAccW | LocalAccW
    | L1WrbkAcc | L2WrbkAcc | InstAccR | L1WrAllocR | L2WrAllocR

  /** The memory spaces an access kind can belong to. */
  datatype MemorySpace = Global | Local | Constant | Texture

  /** `From<Kind> for Option<MemorySpace>`. */
  function SpaceOf(k: AccessKind): Option<MemorySpace>
  {
    match k
    case GlobalAccR | GlobalAccW => Some(Global)
    case LocalAccR | LocalAccW => Some(Local)
    case ConstAccR => Some(Constant)
    case TextureAccR => Some(Texture)
    case L1WrbkAcc | L2WrbkAcc | InstAccR | L1WrAllocR | L2WrAllocR => None
  }

  predicate IsInst(k: AccessKind) { k == InstAccR }
  predicate IsGlobal(k: AccessKind) { k == GlobalAccR || k == GlobalAccW }
  predicate IsLocal(k: AccessKind) { k == LocalAccR || k == LocalAccW }
  predicate IsTexture(k: AccessKind) { k == TextureAccR }
  predicate IsConst(k: AccessKind) { k == ConstAccR }

  /** `Kind::is_write`. */
  predicate IsWriteKind(k: AccessKind)
  {
    match k
    case GlobalAccR | LocalAccR | ConstAccR | TextureAccR | InstAccR | L1WrAllocR | L2WrAllocR => false
    case GlobalAccW | LocalAccW | L1WrbkAcc | L2WrbkAcc => true
  }

  /** The space of a kind agrees with the kind predicates, and exactly the
      writeback, instruction and write-allocate kinds have none. */
  lemma SpaceOfSpec(k: AccessKind)
    ensures SpaceOf(k) == Some(Global) <==> IsGlobal(k)
    ensures SpaceOf(k) == Some(Local) <==> IsLocal(k)
    ensures SpaceOf(k) == Some(Constant) <==> IsConst(k)
    ensures SpaceOf(k) == Some(Texture) <==> IsTexture(k)
    ensures SpaceOf(k).None? <==> k in {L1WrbkAcc, L2WrbkAcc, InstAccR, L1WrAllocR, L2WrAllocR}
  {
  }

  /** The write kinds are the two write accesses and the two writebacks. */
  lemma WriteKinds(k: AccessKind)
    ensures IsWriteKind(k) <==> k in {GlobalAccW, LocalAccW, L1WrbkAcc, L2WrbkAcc}
    ensures IsWriteKind(k) && SpaceOf(k).Some? ==> SpaceOf(k) == Some(Global) || SpaceOf(k) == Some(Local)
  {
  }

  /** `access::MemAccess`: masks are one flag per byte (128), per sector (4)
      and per lane (32). */
  datatype MemAccess = MemAccess(
    addr: nat,
    allocation: Option<Allocation.Allocation>,
    kernelLaunchId: Option<nat>,
    isWrite: bool,
    reqSizeBytes: nat,
    numUncoalescedAccesses: nat,
    kind: AccessKind,
    warpActiveMask: seq<bool>,
    byteMask: seq<bool>,
    sectorMask: seq<bool>)

  datatype AccessBuilder = AccessBuilder(
    kind: AccessKind,
    addr: nat,
    kernelLaunchId: Option<nat>,
    allocation: Option<Allocation.Allocation>,
    reqSizeBytes: nat,
    isWrite: bool,
    warpActiveMask: seq<bool>,
    byteMask: seq<bool>,
    sectorMask: seq<bool>)

  /** `access::Builder::build`: the write flag must agree with the kind (an
      `assert_eq`), and a fresh access is one uncoalesced access.  An
      allocation starting above the address is only logged. */
  function BuildAccess(b: AccessBuilder): (a: MemAccess)
    requires IsWriteKind(b.kind) == b.isWrite
    ensures a.numUncoalescedAccesses == 1
    ensures a.isWrite == IsWriteKind(a.kind)
    ensures a.addr == b.addr && a.kind == b.kind && a.reqSizeBytes == b.reqSizeBytes
    ensures a.allocation == b.allocation && a.byteMask == b.byteMask && a.sectorMask == b.sectorMask
    ensures a.kernelLaunchId == b.kernelLaunchId && a.warpActiveMask == b.warpActiveMask
  {
    MemAccess(b.addr, b.allocation, b.kernelLaunchId, b.isWrite, b.reqSizeBytes, 1, b.kind,
      b.warpActiveMask, b.byteMask, b.sectorMask)
  }

  /** `relative_addr`: the address relative to the access's allocation. */
  function RelativeAddr(a: MemAccess): (r: Option<nat>)
    ensures r.Some? <==> a.allocation.Some? && a.addr >= a.allocation.value.startAddr
    ensures r.Some? ==> r.value + a.allocation.value.startAddr == a.addr
  {
    match a.allocation
    case Some(alloc) => Allocation.RelativeAddr(alloc, a.addr)
    case None => None
  }

  /** `control_size`: the header of a write or a read packet. */
  function ControlSize(a: MemAccess): nat
  {
    if a.isWrite then WritePacketSize else ReadPacketSize
  }

  /** `size`: data plus control bytes. */
  function AccessSize(a: MemAccess): nat
  {
    a.reqSizeBytes + ControlSize(a)
  }

  /** Both packet headers are 8 bytes, so the size does not depend on the
      direction. */
  lemma ControlSizeIsEight(a: MemAccess)
    ensures ControlSize(a) == 8
    ensures AccessSize(a) == a.reqSizeBytes + 8
    ensures AccessSize(a) == AccessSize(a.(isWrite := !a.isWrite))
  {
  }

  function CountOnes(mask: seq<bool>): (n: nat)
    ensures n <= |mask|
  {
    if mask == [] then 0 else (if mask[0] then 1 else 0) + CountOnes(mask[1..])
  }

  /** `num_bytes`: the set bits of the byte mask. */
  function NumBytes(a: MemAccess): nat
  {
    CountOnes(a.byteMask)
  }

  /** `first_one`: the index of the first set flag. */
  function FirstOne(mask: seq<bool>): (r: Option<nat>)
    ensures r.Some? ==> r.value < |mask| && mask[r.value] && forall i :: 0 <= i < r.value ==> !mask[i]
    ensures r.None? ==> forall i :: 0 <= i < |mask| ==> !mask[i]
  {
    if mask == [] then None
    else if mask[0] then Some(0)
    else match FirstOne(mask[1..])
      case Some(i) => Some(i + 1)
      case None => None
  }

  /** A fresh counter for fetch ids (an atomic counter in the simulator). */
  class UidGenerator {
    var next: nat

    constructor ()
      ensures next == 0
    {
      next := 0;
    }

    /** `generate_uid`: return the counter and advance it. */
    method Generate() returns (uid: nat)
      modifies this
      ensures uid == old(next) && next == old(next) + 1
    {
      uid := next;
      next := next + 1;
    }
  }

  /** The parts of the warp instruction a fetch consults. */
  datatype InstrInfo = InstrInfo(isAtomic: bool, memorySpace: Option<MemorySpace>)

  /** A fetch request: `kind` and `status` change as it moves through the
      memory system; the rest is fixed when it is built. */
  class Fetch {
    const uid: nat
    const access: MemAccess
    const instr: Option<InstrInfo>
    const warpId: nat
    var kind: Kind
    var status: Status
    var lastStatusChange: Option<nat>
    var injectCycle: Option<nat>
    var returnCycle: Option<nat>
    var latency: nat

    /** A write fetch stays a write request or a write acknowledgement, and
        a read fetch a read request or a read reply. */
    ghost predicate Valid()
      reads this
    {
      (kind == WriteRequest || kind == WriteAck) <==> access.isWrite
    }

    /** `Builder::build`, with the id drawn from `gen`. */
    constructor (access: MemAccess, instr: Option<InstrInfo>, warpId: nat, gen: UidGenerator)
      modifies gen
      ensures Valid()
      ensures this.uid == old(gen.next) && gen.next == old(gen.next) + 1
      ensures this.access == access && this.instr == instr && this.warpId == warpId
      ensures kind == (if access.isWrite then WriteRequest else ReadRequest)
      ensures status == Initialized && latency == 0
      ensures lastStatusChange == None && injectCycle == None && returnCycle == None
    {
      var id := gen.Generate();
      this.uid := id;
      this.access := access;
      this.instr := instr;
      this.warpId := warpId;
      kind := if access.isWrite then WriteRequest else ReadRequest;
      status := Initialized;
      lastStatusChange := None;
      injectCycle := None;
      returnCycle := None;
      latency := 0;
    }

    /** `PartialEq for MemFetch`: fetches are equal iff their ids are. */
    predicate Equals(other: Fetch)
    {
      uid == other.uid
    }

    predicate IsWrite()
    {
      access.isWrite
    }

    predicate IsAtomic()
    {
      instr.Some? && instr.value.isAtomic
    }

    function Size(): nat
    {
      AccessSize(access)
    }

    /** `packet_size`: writes and atomics carry their data, reads only a
        header. */
    function PacketSize(): (n: nat)
      ensures n >= ReadPacketSize
      ensures IsWrite() || IsAtomic() ==> n == access.reqSizeBytes + WritePacketSize
      ensures !(IsWrite() || IsAtomic()) ==> n == ReadPacketSize
    {
      if IsWrite() || IsAtomic() then Size() else ReadPacketSize
    }

    /** `byte_addr`: the address plus the offset of the first requested byte
        within its sector. */
    function ByteAddr(): (a: nat)
      ensures access.addr <= a < access.addr + SectorSize
      ensures FirstOne(access.byteMask).None? ==> a == access.addr
    {
      var requested := match FirstOne(access.byteMask) case Some(i) => i case None => 0;
      access.addr + requested % SectorSize
    }

    /** `relative_byte_addr`: the same offset added to the relative address,
        or to the address when there is none. */
    function RelativeByteAddr(): (a: nat)
      ensures RelativeAddr(access).Some? ==> RelativeAddr(access).value <= a < RelativeAddr(access).value + SectorSize
      ensures RelativeAddr(access).None? ==> a == ByteAddr()
    {
      var requested := match FirstOne(access.byteMask) case Some(i) => i case None => 0;
      var base := match RelativeAddr(access) case Some(r) => r case None => access.addr;
      base + requested % SectorSize
    }

    /** `is_reply`. */
    predicate IsReply()
      reads this
    {
      kind == ReadReply || kind == WriteAck
    }

    method SetStatus(s: Status, time: nat)
      modifies this
      ensures status == s && lastStatusChange == Some(time)
      ensures kind == old(kind) && latency == old(latency)
      ensures injectCycle == old(injectCycle) && returnCycle == old(returnCycle)
    {
      status := s;
      lastStatusChange := Some(time);
    }

    /** `set_reply`: a request becomes its reply; a reply stays as it is.
        Writebacks never get a reply (an `assert!`). */
    method SetReply()
      requires Valid() && access.kind != L1WrbkAcc && access.kind != L2WrbkAcc
      modifies this
      ensures Valid() && IsReply()
      ensures kind == ReplyOf(old(kind))
      ensures status == old(status) && lastStatusChange == old(lastStatusChange) && latency == old(latency)
      ensures injectCycle == old(injectCycle) && returnCycle == old(returnCycle)
    {
      match kind
      case ReadRequest =>
        kind := ReadReply;
      case WriteRequest =>
        kind := WriteAck;
      case ReadReply =>
      case WriteAck =>
    }
  }

  /** The reply to a fetch of kind `k`. */
  function ReplyOf(k: Kind): (r: Kind)
    ensures r == ReadReply || r == WriteAck
  {
    match k
    case ReadRequest => ReadReply
    case WriteRequest => WriteAck
    case ReadReply => ReadReply
    case WriteAck => WriteAck
  }

  /** Turning a fetch into a reply keeps its direction and is idempotent. */
  lemma ReplyOfSpec(k: Kind)
    ensures ReplyOf(ReplyOf(k)) == ReplyOf(k)
    ensures (ReplyOf(k) == WriteAck) <==> (k == WriteRequest || k == WriteAck)
    ensures k == ReadReply || k == WriteAck ==> ReplyOf(k) == k
  {
  }

  /** Two fetches built one after the other from the same generator have
      different ids, so they are never equal. */
  method BuildTwo(a: MemAccess, b: MemAccess, gen: UidGenerator) returns (f: Fetch, g: Fetch)
    modifies gen
    ensures !f.Equals(g) && f.uid + 1 == g.uid
  {
    f := new Fetch(a, None, 0, gen);
    g := new Fetch(b, None, 0, gen);
  }
}
