/**
 * The interface between the simulator and the booksim network: packets
 * are pushed as flits into the traffic manager's input queues, ejected
 * flits wait in per-VC ejection buffers, move one flit per VC into the
 * boundary buffers where they are reassembled into packets, and devices
 * pop whole packets round-robin over their virtual channels. Devices
 * (shaders first, then memory ports) are mapped to network nodes.
 */
module Interconnect {
  import opened Wrappers

  /** A flit as the interface sees it: the packet it belongs to, its
      head/tail marks, its destination node and its virtual channel. */
  datatype Flit = Flit(data: nat, head: bool, tail: bool, dest: nat, vc: nat)

  /** The number of flits of a packet of `size` bytes: the size divided by
      the flit size, rounded up. */
  function FlitCount(size: nat, flitSize: nat): (n: nat)
    requires flitSize > 0
    ensures n * flitSize >= size
    ensures n > 0 ==> (n - 1) * flitSize < size
    ensures n == 0 <==> size == 0
  {
    var q := size / flitSize;
    var r := size % flitSize;
    assert size == q * flitSize + r;
    if r != 0 then
      assert (q + 1) * flitSize == q * flitSize + flitSize;
      q + 1
    else q
  }

  /** The subnet a pushed packet travels on: with two subnets, requests
      from shaders use subnet 0 and replies from memory subnet 1. */
  function PushSubnet(subnets: nat, device: nat, nShader: nat): (s: nat)
    ensures s <= 1 && (subnets > 0 ==> s < subnets)
    ensures subnets > 1 ==> (s == 1 <==> device >= nShader)
  {
    if subnets == 1 then 0 else if device < nShader then 0 else 1
  }

  /** The subnet `Pop` reads as written: subnet 1 for every shader, even
      when the network has a single subnet. */
  function PopSubnetAsWritten(device: nat, nShader: nat): (s: nat)
    ensures s == 1 <==> device < nShader
    ensures s == 0 <==> device >= nShader
  {
    if device < nShader then 1 else 0
  }

  /** With a single subnet, a shader's pop reads a subnet that does not
      exist, while its replies were pushed on subnet 0. */
  lemma SingleSubnetPopOutOfRange()
    ensures PopSubnetAsWritten(0, 1) >= 1 && PushSubnet(1, 1, 1) == 0
  {
  }

  /** The subnet a pop reads, guarded like the push side: subnet 1 for
      shaders only when there are two subnets. */
  function PopSubnet(subnets: nat, device: nat, nShader: nat): (s: nat)
    ensures s <= 1 && (subnets > 0 ==> s < subnets)
    ensures subnets > 1 ==> s == PopSubnetAsWritten(device, nShader)
  {
    if subnets > 1 && device < nShader then 1 else 0
  }

  /** A request pushed by a shader for a memory port, and a reply pushed
      by a memory port for a shader, travel on the subnet their receiver
      pops. */
  lemma PushPopSubnetsAgree(subnets: nat, src: nat, dst: nat, nShader: nat)
    requires subnets > 0
    requires (src < nShader <= dst) || (dst < nShader <= src)
    ensures PushSubnet(subnets, src, nShader) == PopSubnet(subnets, dst, nShader)
  {
  }

  // ---------------------------------------------------------------------
  // Boundary buffer items: flits of whole packets, reassembled

  /** One boundary buffer: the flit data in arrival order, each flit's
      tail mark, and the number of complete packets. The source keeps
      these by value inside its per-subnet, per-node, per-VC vectors. */
  datatype BoundaryBufferItem = BoundaryBufferItem(buffer: seq<nat>, tailFlag: seq<bool>, packetN: nat)

  /** The number of tail flits. */
  function CountTails(s: seq<bool>): nat
  {
    if s == [] then 0 else (if s[0] then 1 else 0) + CountTails(s[1..])
  }

  lemma {:induction false} CountTailsPositive(s: seq<bool>)
    ensures CountTails(s) > 0 <==> exists i :: 0 <= i < |s| && s[i]
  {
    if s != [] {
      CountTailsPositive(s[1..]);
      if exists i :: 0 <= i < |s[1..]| && s[1..][i] {
        var i :| 0 <= i < |s[1..]| && s[1..][i];
        assert s[i + 1];
      }
      if exists i :: 0 <= i < |s| && s[i] {
        var i :| 0 <= i < |s| && s[i];
        if i > 0 {
          assert s[1..][i - 1];
        }
      }
    }
  }

  lemma {:induction false} CountTailsAppend(s: seq<bool>, b: bool)
    ensures CountTails(s + [b]) == CountTails(s) + (if b then 1 else 0)
  {
    if s != [] {
      assert (s + [b])[1..] == s[1..] + [b];
      CountTailsAppend(s[1..], b);
    }
  }

  /** The index of the first tail flit: the end of the oldest packet. */
  function FirstTail(s: seq<bool>): (t: nat)
    requires exists i :: 0 <= i < |s| && s[i]
    ensures t < |s| && s[t]
    ensures forall j :: 0 <= j < t ==> !s[j]
  {
    if s[0] then 0
    else
      var i :| 0 <= i < |s| && s[i];
      assert s[1..][i - 1];
      var t := FirstTail(s[1..]);
      assert forall j :: 1 <= j < t + 1 ==> s[j] == s[1..][j - 1];
      1 + t
  }

  /** The item's counters agree with its flits. */
  ghost predicate ItemValid(b: BoundaryBufferItem)
  {
    |b.buffer| == |b.tailFlag| && b.packetN == CountTails(b.tailFlag)
  }

  /** `HasPacket`. */
  predicate HasPacket(b: BoundaryBufferItem)
  {
    b.packetN > 0
  }

  /** An item with a packet holds a tail flit. */
  lemma PacketHasTail(b: BoundaryBufferItem)
    requires ItemValid(b) && HasPacket(b)
    ensures exists i :: 0 <= i < |b.tailFlag| && b.tailFlag[i]
  {
    CountTailsPositive(b.tailFlag);
  }

  /** `PushFlitData`: the flit joins the buffer; a tail flit completes a
      packet. */
  function PushFlitData(b: BoundaryBufferItem, data: nat, isTail: bool): (r: BoundaryBufferItem)
    ensures ItemValid(b) ==> ItemValid(r)
    ensures r.buffer == b.buffer + [data] && r.tailFlag == b.tailFlag + [isTail]
    ensures HasPacket(b) ==> HasPacket(r)
    ensures isTail ==> HasPacket(r)
  {
    CountTailsAppend(b.tailFlag, isTail);
    BoundaryBufferItem(b.buffer + [data], b.tailFlag + [isTail], if isTail then b.packetN + 1 else b.packetN)
  }

  /** The flits of the oldest packet carry one packet's data (the source
      asserts so while it pops them). */
  ghost predicate FrontPacketWellFormed(b: BoundaryBufferItem)
  {
    ItemValid(b) && HasPacket(b) &&
    (PacketHasTail(b);
     forall i :: 0 <= i <= FirstTail(b.tailFlag) ==> b.buffer[i] == b.buffer[0])
  }

  /** The item once its oldest packet is gone. */
  ghost function AfterPop(b: BoundaryBufferItem): (r: BoundaryBufferItem)
    requires ItemValid(b) && HasPacket(b)
    ensures ItemValid(r) && r.packetN == b.packetN - 1 && |r.buffer| < |b.buffer|
  {
    PacketHasTail(b);
    var t := FirstTail(b.tailFlag);
    CountTailsDrop(b.tailFlag, t);
    BoundaryBufferItem(b.buffer[t + 1..], b.tailFlag[t + 1..], b.packetN - 1)
  }

  /** Dropping the flits up to the first tail drops one tail. */
  lemma {:induction false} CountTailsDrop(s: seq<bool>, t: nat)
    requires t < |s| && s[t] && forall j :: 0 <= j < t ==> !s[j]
    ensures CountTails(s[t + 1..]) == CountTails(s) - 1
  {
    if t > 0 {
      assert s[1..][t - 1..] == s[t..];
      assert s[1..][t..] == s[t + 1..];
      CountTailsDrop(s[1..], t - 1);
    }
  }

  /** `PopPacket`: removes the flits up to and including the first tail
      and returns the packet's data; one packet fewer remains. */
  method PopPacket(b: BoundaryBufferItem) returns (r: BoundaryBufferItem, data: nat)
    requires FrontPacketWellFormed(b)
    ensures r == AfterPop(b) && ItemValid(r)
    ensures data == b.buffer[0]
    ensures r.packetN == b.packetN - 1 && |r.buffer| < |b.buffer|
  {
    PacketHasTail(b);
    ghost var t := FirstTail(b.tailFlag);
    var buffer, tailFlag, packetN := b.buffer, b.tailFlag, b.packetN;
    var found: Option<nat> := None;
    var flitData := buffer[0];
    ghost var k := 0;
    while found.None?
      invariant 0 <= k <= t + 1 && |buffer| == |tailFlag|
      invariant buffer == b.buffer[k..] && tailFlag == b.tailFlag[k..]
      invariant CountTails(tailFlag) + (if found.Some? then 1 else 0) == b.packetN
      invariant found.None? ==> k <= t && packetN == b.packetN
      invariant found.Some? ==> k == t + 1 && found.value == b.buffer[t] && packetN == b.packetN - 1
      decreases |buffer|
    {
      assert flitData == buffer[0];
      if tailFlag[0] {
        found := Some(buffer[0]);
        packetN := packetN - 1;
      }
      buffer := buffer[1..];
      tailFlag := tailFlag[1..];
      k := k + 1;
    }
    r := BoundaryBufferItem(buffer, tailFlag, packetN);
    data := found.value;
  }

  /** Packets leave in the order they arrived: after a whole packet's flits
      (tail only on the last) the oldest packet ends at that last flit. */
  lemma FirstTailOfPacket(packet: seq<bool>, rest: seq<bool>)
    requires |packet| > 0 && packet[|packet| - 1]
    requires forall j :: 0 <= j < |packet| - 1 ==> !packet[j]
    ensures exists i :: 0 <= i < |packet + rest| && (packet + rest)[i]
    ensures FirstTail(packet + rest) == |packet| - 1
  {
    assert (packet + rest)[|packet| - 1];
  }

  // ---------------------------------------------------------------------
  // Device to node mapping

  predicate StrictlyIncreasing(s: seq<nat>)
  {
    forall i, j :: 0 <= i < j < |s| ==> s[i] < s[j]
  }

  /** The built-in memory-node placements for the mesh shapes the source
      optimises, keyed by (shaders, memory ports). */
  function PresetMemoryNodes(nShader: nat, nMem: nat): seq<nat>
  {
    if nShader == 8 && nMem == 8 then [1, 3, 4, 6, 9, 11, 12, 14]
    else if nShader == 28 && nMem == 8 then [3, 7, 10, 12, 23, 25, 28, 32]
    else if nShader == 56 && nMem == 8 then [3, 15, 17, 29, 36, 47, 49, 61]
    else if nShader == 110 && nMem == 11 then [12, 20, 25, 28, 57, 60, 63, 92, 95, 100, 108]
    else []
  }

  /** Every preset lists one node per memory port, in increasing order,
      within the shader-plus-memory node range. */
  lemma PresetsWellFormed(nShader: nat, nMem: nat)
    ensures var p := PresetMemoryNodes(nShader, nMem);
      |p| > 0 ==> |p| == nMem && StrictlyIncreasing(p) && p[|p| - 1] < nShader + nMem
  {
  }

  /** The memory-node table used with a preset map: a configured table
      must list every memory port (the source asserts so) and replaces the
      built-in one; without one, a shape with no preset is an error. */
  function MemoryNodeTable(nShader: nat, nMem: nat, configured: seq<nat>): (r: Option<seq<nat>>)
    ensures |configured| > 0 ==> (r.Some? <==> |configured| == nMem)
    ensures |configured| > 0 && r.Some? ==> r.value == configured
    ensures |configured| == 0 ==> (r.Some? <==> |PresetMemoryNodes(nShader, nMem)| > 0)
    ensures r.Some? ==> |r.value| == nMem > 0
  {
    if |configured| > 0 then
      if |configured| == nMem then Some(configured) else None
    else
      var p := PresetMemoryNodes(nShader, nMem);
      if |p| == 0 then None else Some(p)
  }

  /** The inner loop of the node-map construction as written: it skips
      node ids taken by memory nodes, reading `memory_node[index]` with no
      bound check; reading past the table is `None`. */
  function SkipAsWritten(mem: seq<nat>, next: nat, idx: nat): Option<(nat, nat)>
    decreases |mem| - idx
  {
    if idx >= |mem| then None
    else if next == mem[idx] then SkipAsWritten(mem, next + 1, idx + 1)
    else Some((next, idx))
  }

  /** The shader node ids of the node-map construction as written, for
      `k` more shaders from node `next` and table index `idx`. */
  function ShaderNodesAsWritten(k: nat, mem: seq<nat>, next: nat, idx: nat): Option<seq<nat>>
  {
    if k == 0 then Some([])
    else match SkipAsWritten(mem, next, idx)
      case None => None
      case Some(p) =>
        match ShaderNodesAsWritten(k - 1, mem, p.0 + 1, p.1)
        case None => None
        case Some(rest) => Some([p.0] + rest)
  }

  /** With the preset for 8 shaders and 8 memory ports the last shader's
      scan runs past the end of the table: node 14 is the last memory
      node, and the loop then compares node 15 with entry 8 of 8. */
  lemma PresetMapReadsPastTable()
    ensures ShaderNodesAsWritten(8, PresetMemoryNodes(8, 8), 0, 0) == None
  {
    var mem := PresetMemoryNodes(8, 8);
    assert SkipAsWritten(mem, 15, 8) == None;
    assert SkipAsWritten(mem, 14, 7) == None;
    assert ShaderNodesAsWritten(1, mem, 14, 7) == None;
    assert SkipAsWritten(mem, 11, 5) == Some((13, 7));
    assert ShaderNodesAsWritten(2, mem, 11, 5) == None;
    assert SkipAsWritten(mem, 9, 4) == Some((10, 5));
    assert ShaderNodesAsWritten(3, mem, 9, 4) == None;
    assert SkipAsWritten(mem, 8, 4) == Some((8, 4));
    assert ShaderNodesAsWritten(4, mem, 8, 4) == None;
    assert SkipAsWritten(mem, 6, 3) == Some((7, 4));
    assert ShaderNodesAsWritten(5, mem, 6, 3) == None;
    assert SkipAsWritten(mem, 3, 1) == Some((5, 3));
    assert ShaderNodesAsWritten(6, mem, 3, 1) == None;
    assert SkipAsWritten(mem, 1, 0) == Some((2, 1));
    assert ShaderNodesAsWritten(7, mem, 1, 0) == None;
    assert SkipAsWritten(mem, 0, 0) == Some((0, 0));
  }

  /** The skip loop stopped at the end of the table. */
  function Skip(mem: seq<nat>, next: nat, idx: nat): (r: (nat, nat))
    requires idx <= |mem|
    ensures idx <= r.1 <= |mem| && r.0 == next + (r.1 - idx)
    ensures r.1 < |mem| ==> r.0 != mem[r.1]
    decreases |mem| - idx
  {
    if idx < |mem| && next == mem[idx] then Skip(mem, next + 1, idx + 1) else (next, idx)
  }

  /** Every table entry the skip stepped over held the node id it stepped
      past. */
  lemma {:induction false} SkipSteps(mem: seq<nat>, next: nat, idx: nat)
    requires idx <= |mem|
    ensures forall j :: idx <= j < Skip(mem, next, idx).1 ==> mem[j] == next + (j - idx)
    decreases |mem| - idx
  {
    if idx < |mem| && next == mem[idx] {
      SkipSteps(mem, next + 1, idx + 1);
    }
  }

  /** The bounded skip agrees with the one as written wherever the latter
      stays within the table, and the latter fails exactly when the
      bounded one runs to the end. */
  lemma {:induction false} SkipAgrees(mem: seq<nat>, next: nat, idx: nat)
    requires idx <= |mem|
    ensures SkipAsWritten(mem, next, idx).Some? ==> SkipAsWritten(mem, next, idx) == Some(Skip(mem, next, idx))
    ensures SkipAsWritten(mem, next, idx).None? <==> Skip(mem, next, idx).1 == |mem|
    decreases |mem| - idx
  {
    if idx < |mem| && next == mem[idx] {
      SkipAgrees(mem, next + 1, idx + 1);
    }
  }

  /** The shader node ids with the bounded skip. */
  function ShaderNodes(k: nat, mem: seq<nat>, next: nat, idx: nat): (r: seq<nat>)
    requires idx <= |mem|
    ensures |r| == k
  {
    if k == 0 then []
    else
      var p := Skip(mem, next, idx);
      [p.0] + ShaderNodes(k - 1, mem, p.0 + 1, p.1)
  }

  /** The table index `idx` separates the memory nodes below `next` from
      those at or above it. */
  ghost predicate Split(mem: seq<nat>, next: nat, idx: nat)
  {
    idx <= |mem| &&
    (forall j :: 0 <= j < idx ==> mem[j] < next) &&
    (forall j :: idx <= j < |mem| ==> mem[j] >= next)
  }

  lemma SkipKeepsSplit(mem: seq<nat>, next: nat, idx: nat)
    requires StrictlyIncreasing(mem) && Split(mem, next, idx)
    ensures var p := Skip(mem, next, idx);
      p.0 >= next && (forall j :: 0 <= j < |mem| ==> mem[j] != p.0) && Split(mem, p.0 + 1, p.1)
  {
    var p := Skip(mem, next, idx);
    SkipSteps(mem, next, idx);
    if p.1 > idx && p.1 < |mem| {
      assert mem[p.1] > mem[p.1 - 1];
    }
    forall j | p.1 <= j < |mem|
      ensures mem[j] > p.0
    {
      assert mem[p.1] != p.0;
      if j > p.1 {
        assert mem[j] > mem[p.1];
      }
    }
  }

  /** With an increasing memory table, the shader nodes increase, start at
      `next` or later, and avoid every memory node. */
  lemma {:induction false} ShaderNodesAvoidMemory(k: nat, mem: seq<nat>, next: nat, idx: nat)
    requires StrictlyIncreasing(mem) && Split(mem, next, idx)
    ensures var r := ShaderNodes(k, mem, next, idx);
      StrictlyIncreasing(r) &&
      (forall i :: 0 <= i < k ==> r[i] >= next) &&
      (forall i, j :: 0 <= i < k && 0 <= j < |mem| ==> r[i] != mem[j])
    decreases k
  {
    if k > 0 {
      var p := Skip(mem, next, idx);
      SkipKeepsSplit(mem, next, idx);
      ShaderNodesAvoidMemory(k - 1, mem, p.0 + 1, p.1);
      var r := ShaderNodes(k, mem, next, idx);
      var rest := ShaderNodes(k - 1, mem, p.0 + 1, p.1);
      assert r == [p.0] + rest;
      assert forall i :: 1 <= i < k ==> r[i] == rest[i - 1];
    }
  }

  /** A node-map lookup: a missing device reads as node 0, as the source's
      map indexing does. */
  function NodeOf(m: map<nat, nat>, device: nat): nat
  {
    if device in m then m[device] else 0
  }

  /** The least device below `nNode`, from `j` on, mapped to node `i`. */
  function FirstWithNode(m: map<nat, nat>, i: nat, j: nat, nNode: nat): (r: Option<nat>)
    ensures r.Some? ==> (j <= r.value < nNode && NodeOf(m, r.value) == i &&
      forall d :: j <= d < r.value ==> NodeOf(m, d) != i)
    ensures r.None? ==> forall d :: j <= d < nNode ==> NodeOf(m, d) != i
    decreases nNode - j
  {
    if j >= nNode then None
    else if NodeOf(m, j) == i then Some(j)
    else FirstWithNode(m, i, j + 1, nNode)
  }

  /** When the map is injective on the devices, the reverse map sends each
      device's node back to that device. */
  lemma ReverseInverts(m: map<nat, nat>, nNode: nat, d: nat)
    requires forall a, b :: 0 <= a < b < nNode ==> NodeOf(m, a) != NodeOf(m, b)
    requires d < nNode
    ensures FirstWithNode(m, NodeOf(m, d), 0, nNode) == Some(d)
  {
    var r := FirstWithNode(m, NodeOf(m, d), 0, nNode);
    if r.Some? {
      assert NodeOf(m, r.value) == NodeOf(m, d);
    }
  }

  /** The device-to-node map with a preset table: the shader nodes, then
      each memory port at its table entry. */
  ghost function PresetNodeMap(nShader: nat, mem: seq<nat>): (m: map<nat, nat>)
  {
    var shaders := ShaderNodes(nShader, mem, 0, 0);
    map d | 0 <= d < nShader + |mem| :: if d < nShader then shaders[d] else mem[d - nShader]
  }

  /** With an increasing memory table the preset map gives every shader and
      memory port its own node. */
  lemma PresetNodeMapInjective(nShader: nat, mem: seq<nat>)
    requires StrictlyIncreasing(mem)
    ensures forall a, b :: 0 <= a < b < nShader + |mem| ==>
      NodeOf(PresetNodeMap(nShader, mem), a) != NodeOf(PresetNodeMap(nShader, mem), b)
  {
    var m := PresetNodeMap(nShader, mem);
    var shaders := ShaderNodes(nShader, mem, 0, 0);
    ShaderNodesAvoidMemory(nShader, mem, 0, 0);
    forall a, b | 0 <= a < b < nShader + |mem|
      ensures NodeOf(m, a) != NodeOf(m, b)
    {
      if b < nShader {
        assert shaders[a] < shaders[b];
      } else if a < nShader {
        assert shaders[a] != mem[b - nShader];
      } else {
        assert mem[a - nShader] < mem[b - nShader];
      }
    }
  }

  /** The position of the ring of virtual channels `i` steps after
      `start`. */
  function VcAt(start: nat, i: nat, vcs: nat): (v: nat)
    ensures start < vcs && i <= vcs ==> v < vcs
  {
    if start + i < vcs then start + i else start + i - vcs
  }

  /** Every virtual channel is visited once in a round from any start. */
  lemma VcAtCovers(start: nat, vcs: nat, v: nat)
    requires start < vcs && v < vcs
    ensures exists i :: 0 <= i < vcs && VcAt(start, i, vcs) == v
  {
    var i := if v >= start then v - start else v + vcs - start;
    assert VcAt(start, i, vcs) == v;
  }

  /** The ring position after `v`. */
  function NextVc(v: nat, vcs: nat): nat
  {
    if v + 1 == vcs then 0 else v + 1
  }

  /** `Pop` took the packet of the VC `i` steps into the round over the
      node's boundary buffers `bs`: that VC had a packet, none before it in
      the round had one, and only its item changed. */
  ghost predicate PoppedAt(bs: seq<BoundaryBufferItem>, bs': seq<BoundaryBufferItem>, start: nat, i: nat, data: nat)
  {
    var v := VcAt(start, i, |bs|);
    && v < |bs|
    && ItemValid(bs[v]) && HasPacket(bs[v])
    && (forall j :: 0 <= j < i ==> VcAt(start, j, |bs|) < |bs| && !HasPacket(bs[VcAt(start, j, |bs|)]))
    && data == bs[v].buffer[0]
    && bs' == bs[v := AfterPop(bs[v])]
  }

  /** The outcome of one `Pop` round over the node's boundary buffers from
      VC `start`, ending at VC `t`: without a complete packet on any VC
      nothing changes; otherwise the first VC in the round with one gives
      it up and `t` is the VC after it. */
  ghost predicate PopOutcome(bs: seq<BoundaryBufferItem>, bs': seq<BoundaryBufferItem>, start: nat, t: nat, data: Option<nat>)
  {
    && (data.None? <==> forall v :: 0 <= v < |bs| ==> !HasPacket(bs[v]))
    && (data.None? ==> bs' == bs && t == start)
    && (data.Some? ==>
          exists i :: 0 <= i < |bs| && PoppedAt(bs, bs', start, i, data.value) && t == VcAt(start, i + 1, |bs|))
  }

  /** Well-formed boundary buffers within capacity. */
  ghost predicate BuffersOk(bs: seq<BoundaryBufferItem>, cap: nat)
  {
    forall v :: 0 <= v < |bs| ==> ItemValid(bs[v]) && |bs[v].buffer| <= cap
  }

  /** One round of `Pop` over the boundary buffers of one node. */
  method PopRound(bs: seq<BoundaryBufferItem>, start: nat) returns (bs': seq<BoundaryBufferItem>, data: Option<nat>, t: nat)
    requires |bs| > 0 ==> start < |bs|
    requires forall v :: 0 <= v < |bs| ==> ItemValid(bs[v]) && (HasPacket(bs[v]) ==> FrontPacketWellFormed(bs[v]))
    ensures PopOutcome(bs, bs', start, t, data)
  {
    var vcs := |bs|;
    t := start;
    data := None;
    bs' := bs;
    ghost var at := 0;
    var vc := 0;
    while vc < vcs && data.None?
      invariant 0 <= vc <= vcs && t == VcAt(start, vc, vcs)
      invariant data.None? ==> bs' == bs && forall j :: 0 <= j < vc ==> !HasPacket(bs[VcAt(start, j, vcs)])
      invariant data.Some? ==> at + 1 == vc && PoppedAt(bs, bs', start, at, data.value)
    {
      if HasPacket(bs'[t]) {
        var item, d := PopPacket(bs'[t]);
        bs' := bs'[t := item];
        data := Some(d);
        at := vc;
      }
      t := NextVc(t, vcs);
      vc := vc + 1;
    }
    if data.None? {
      forall v | 0 <= v < vcs
        ensures !HasPacket(bs[v])
      {
        VcAtCovers(start, vcs, v);
      }
      if vcs > 0 {
        assert t == start;
      }
    }
  }

  /** A `Pop` round keeps the boundary buffers well formed and within
      capacity, and keeps the turn on the ring. */
  lemma PopKeepsBuffers(bs: seq<BoundaryBufferItem>, bs': seq<BoundaryBufferItem>, start: nat, t: nat, data: Option<nat>, cap: nat)
    requires BuffersOk(bs, cap) && PopOutcome(bs, bs', start, t, data)
    requires start == 0 || start < |bs|
    ensures BuffersOk(bs', cap) && |bs'| == |bs|
    ensures t == 0 || t < |bs|
  {
    if data.Some? {
      var i :| 0 <= i < |bs| && PoppedAt(bs, bs', start, i, data.value) && t == VcAt(start, i + 1, |bs|);
    }
  }

  /** A flit moves from the ejection buffer of VC `v` to its boundary
      buffer when the former is not empty and the latter is below
      capacity. */
  predicate Moves(ejs: seq<seq<Flit>>, bs: seq<BoundaryBufferItem>, v: nat, cap: nat)
  {
    v < |ejs| && v < |bs| && |ejs[v]| > 0 && |bs[v].buffer| < cap
  }

  /** The flits `Transfer2BoundaryBuffer` moves over the first `n` VCs of
      one node, in VC order: the front flit of each VC that moves. */
  function MovedFlits(ejs: seq<seq<Flit>>, bs: seq<BoundaryBufferItem>, n: nat, cap: nat): (r: seq<Flit>)
    ensures |r| <= n
    ensures forall f :: f in r ==> exists v :: 0 <= v < n && Moves(ejs, bs, v, cap) && f == ejs[v][0]
  {
    if n == 0 then []
    else MovedFlits(ejs, bs, n - 1, cap) + (if Moves(ejs, bs, n - 1, cap) then [ejs[n - 1][0]] else [])
  }

  /** VC `v` of the node after `Transfer2BoundaryBuffer`: when a flit
      moves, it leaves the ejection buffer's front and joins the boundary
      buffer; otherwise both are unchanged. */
  ghost predicate TransferredAt(ejs: seq<seq<Flit>>, bs: seq<BoundaryBufferItem>,
                                ejs': seq<seq<Flit>>, bs': seq<BoundaryBufferItem>, v: nat, cap: nat)
  {
    && v < |ejs| && v < |bs| && v < |ejs'| && v < |bs'|
    && ejs'[v] == (if Moves(ejs, bs, v, cap) then ejs[v][1..] else ejs[v])
    && bs'[v] == (if Moves(ejs, bs, v, cap) then PushFlitData(bs[v], ejs[v][0].data, ejs[v][0].tail) else bs[v])
  }

  /** `Transfer2BoundaryBuffer` on the buffers of one node. */
  method TransferRound(ejs: seq<seq<Flit>>, bs: seq<BoundaryBufferItem>, ejected: seq<Flit>, output: nat, cap: nat)
    returns (ejs': seq<seq<Flit>>, bs': seq<BoundaryBufferItem>, ejected': seq<Flit>)
    requires |ejs| == |bs|
    requires forall v :: 0 <= v < |ejs| && |ejs[v]| > 0 && ejs[v][0].head ==> ejs[v][0].dest == output
    ensures |ejs'| == |ejs| && |bs'| == |bs|
    ensures forall v :: 0 <= v < |ejs| ==> TransferredAt(ejs, bs, ejs', bs', v, cap)
    ensures ejected' == ejected + MovedFlits(ejs, bs, |ejs|, cap)
  {
    ejs', bs', ejected' := ejs, bs, ejected;
    var vc := 0;
    while vc < |ejs|
      invariant 0 <= vc <= |ejs| && |ejs'| == |ejs| && |bs'| == |bs|
      invariant forall v :: 0 <= v < vc ==> TransferredAt(ejs, bs, ejs', bs', v, cap)
      invariant forall v :: vc <= v < |ejs| ==> ejs'[v] == ejs[v] && bs'[v] == bs[v]
      invariant ejected' == ejected + MovedFlits(ejs, bs, vc, cap)
    {
      ghost var ejs0, bs0 := ejs', bs';
      if |ejs'[vc]| > 0 && |bs'[vc].buffer| < cap {
        var flit := ejs'[vc][0];
        assert flit.head ==> flit.dest == output;
        ejs' := ejs'[vc := ejs'[vc][1..]];
        bs' := bs'[vc := PushFlitData(bs'[vc], flit.data, flit.tail)];
        ejected' := ejected' + [flit];
      }
      forall v | 0 <= v <= vc
        ensures TransferredAt(ejs, bs, ejs', bs', v, cap)
      {
        if v < vc {
          assert TransferredAt(ejs, bs, ejs0, bs0, v, cap);
        }
      }
      vc := vc + 1;
    }
  }

  /** A transfer keeps the boundary buffers well formed and within
      capacity, since a flit only moves into a buffer below capacity, and
      never lengthens an ejection buffer. */
  lemma TransferKeepsBuffers(ejs: seq<seq<Flit>>, bs: seq<BoundaryBufferItem>,
                             ejs': seq<seq<Flit>>, bs': seq<BoundaryBufferItem>, cap: nat, ejCap: nat)
    requires BuffersOk(bs, cap) && forall v :: 0 <= v < |ejs| ==> |ejs[v]| <= ejCap
    requires |ejs'| == |ejs| == |bs| == |bs'|
    requires forall v :: 0 <= v < |ejs| ==> TransferredAt(ejs, bs, ejs', bs', v, cap)
    ensures BuffersOk(bs', cap)
    ensures forall v :: 0 <= v < |ejs'| ==> |ejs'[v]| <= ejCap
  {
    forall v | 0 <= v < |bs'|
      ensures ItemValid(bs'[v]) && |bs'[v].buffer| <= cap
    {
      assert TransferredAt(ejs, bs, ejs', bs', v, cap);
    }
    forall v | 0 <= v < |ejs'|
      ensures |ejs'[v]| <= ejCap
    {
      assert TransferredAt(ejs, bs, ejs', bs', v, cap);
    }
  }

  /** The buffers the interface keeps for one node on one subnet: the
      ejection and boundary buffers of each VC, the queue of ejected flits
      and the round-robin turn of `Pop`. */
  datatype NodeBuffers = NodeBuffers(ejection: seq<seq<Flit>>, boundary: seq<BoundaryBufferItem>, ejected: seq<Flit>, turn: nat)

  /** One buffer per VC, within capacity, boundary items well formed, the
      turn on the ring. */
  ghost predicate NodeOk(nb: NodeBuffers, vcs: nat, boundaryCap: nat, ejectionCap: nat)
  {
    && |nb.ejection| == vcs && |nb.boundary| == vcs
    && (nb.turn == 0 || nb.turn < vcs)
    && BuffersOk(nb.boundary, boundaryCap)
    && forall v :: 0 <= v < vcs ==> |nb.ejection[v]| <= ejectionCap
  }

  /** The buffers of a node as `_CreateBuffer` leaves them: all empty, the
      turn at VC 0. */
  function EmptyNode(vcs: nat): (nb: NodeBuffers)
    ensures forall bc: nat, ec: nat :: NodeOk(nb, vcs, bc, ec)
    ensures forall v :: 0 <= v < vcs ==> nb.ejection[v] == [] && nb.boundary[v] == BoundaryBufferItem([], [], 0)
    ensures nb.ejected == [] && nb.turn == 0
  {
    NodeBuffers(seq(vcs, _ => []), seq(vcs, _ => BoundaryBufferItem([], [], 0)), [], 0)
  }

  /** Every (subnet, node) key of the grid is present. */
  ghost predicate Covers<T>(m: map<(nat, nat), T>, a: nat, b: nat)
  {
    forall s: nat, n: nat :: s < a && n < b ==> (s, n) in m
  }

  /** A grid of per-node values, all `x`. */
  function Grid<T>(a: nat, b: nat, x: T): (r: map<(nat, nat), T>)
    ensures Covers(r, a, b)
    ensures forall k :: k in r ==> r[k] == x
  {
    map s: nat, n: nat | s < a && n < b :: (s, n) := x
  }

  /** The inner loop of the shader part of `_CreateNodeMap`: steps over
      node ids taken by memory nodes, stopping at the end of the table. */
  method SkipMemoryNodes(mem: seq<nat>, next: nat, idx: nat) returns (next': nat, idx': nat)
    requires idx <= |mem|
    ensures (next', idx') == Skip(mem, next, idx)
  {
    next', idx' := next, idx;
    while idx' < |mem| && next' == mem[idx']
      invariant idx' <= |mem| && Skip(mem, next', idx') == Skip(mem, next, idx)
      decreases |mem| - idx'
    {
      next' := next' + 1;
      idx' := idx' + 1;
    }
  }

  /** The shader part of `_CreateNodeMap` with a preset table: shader `d`
      takes the `d`-th node id that is not a memory node; the skip loop
      stops at the end of the table. */
  method MapShaders(m: map<nat, nat>, mem: seq<nat>, nShader: nat) returns (m': map<nat, nat>)
    ensures forall d: nat :: d < nShader ==> d in m' && m'[d] == ShaderNodes(nShader, mem, 0, 0)[d]
    ensures forall d: nat :: d in m' <==> d in m || d < nShader
    ensures forall d: nat :: d in m' && d >= nShader ==> m'[d] == m[d]
  {
    m' := m;
    ghost var shaders := ShaderNodes(nShader, mem, 0, 0);
    var next: nat := 0;
    var idx: nat := 0;
    var i := 0;
    while i < nShader
      invariant 0 <= i <= nShader && idx <= |mem|
      invariant shaders[i..] == ShaderNodes(nShader - i, mem, next, idx)
      invariant forall d: nat :: d in m' <==> d in m || d < i
      invariant forall d: nat :: d < i ==> m'[d] == shaders[d]
      invariant forall d: nat :: d in m' && d >= i ==> m'[d] == m[d]
    {
      ghost var rest := ShaderNodes(nShader - i, mem, next, idx);
      next, idx := SkipMemoryNodes(mem, next, idx);
      assert rest == [next] + ShaderNodes(nShader - (i + 1), mem, next + 1, idx);
      assert shaders[i + 1..] == rest[1..];
      m' := m'[i := next];
      next := next + 1;
      i := i + 1;
    }
  }

  /** The memory part of `_CreateNodeMap` with a preset table: memory port
      `j` takes entry `j`. */
  method MapMemory(m: map<nat, nat>, mem: seq<nat>, nShader: nat) returns (m': map<nat, nat>)
    ensures forall d: nat :: nShader <= d < nShader + |mem| ==> d in m' && m'[d] == mem[d - nShader]
    ensures forall d: nat :: d in m' <==> d in m || nShader <= d < nShader + |mem|
    ensures forall d: nat :: d in m' && !(nShader <= d < nShader + |mem|) ==> m'[d] == m[d]
  {
    m' := m;
    var i := nShader;
    while i < nShader + |mem|
      invariant nShader <= i <= nShader + |mem|
      invariant forall d: nat :: d in m' <==> d in m || nShader <= d < i
      invariant forall d: nat :: nShader <= d < i ==> m'[d] == mem[d - nShader]
      invariant forall d: nat :: d in m' && !(nShader <= d < i) ==> m'[d] == m[d]
    {
      m' := m'[i := mem[i - nShader]];
      i := i + 1;
    }
  }

  /** `_CreateNodeMap` without a preset table: every node maps to itself. */
  method MapIdentity(m: map<nat, nat>, nodes: nat) returns (m': map<nat, nat>)
    ensures forall d: nat :: d < nodes ==> d in m' && m'[d] == d
    ensures forall d: nat :: d in m' <==> d in m || d < nodes
    ensures forall d: nat :: d in m' && d >= nodes ==> m'[d] == m[d]
  {
    m' := m;
    var i := 0;
    while i < nodes
      invariant 0 <= i <= nodes
      invariant forall d: nat :: d in m' <==> d in m || d < i
      invariant forall d: nat :: d < i ==> m'[d] == d
      invariant forall d: nat :: d in m' && d >= i ==> m'[d] == m[d]
    {
      m' := m'[i := i];
      i := i + 1;
    }
  }

  /** The device-to-node map `_CreateNodeMap` builds on top of `m`: with a
      preset table, shaders take the non-memory node ids in increasing
      order and memory port `j` takes entry `j`; without one, every node
      maps to itself. */
  method BuildNodeMap(m: map<nat, nat>, useMap: bool, mem: seq<nat>, nShader: nat, nMem: nat, nodes: nat)
    returns (m': map<nat, nat>)
    requires useMap ==> |mem| == nMem > 0
    ensures !useMap ==> forall d: nat :: d < nodes ==> d in m' && m'[d] == d
    ensures useMap ==> forall d: nat :: d < nShader + nMem ==> d in m' && m'[d] == PresetNodeMap(nShader, mem)[d]
    ensures forall d: nat :: d in m' <==> d in m || d < (if useMap then nShader + nMem else nodes)
  {
    if useMap {
      var m1 := MapShaders(m, mem, nShader);
      m' := MapMemory(m1, mem, nShader);
      forall d: nat | d < nShader + nMem
        ensures d in m' && m'[d] == PresetNodeMap(nShader, mem)[d]
      {
        if d < nShader {
          assert m'[d] == m1[d];
        }
      }
    } else {
      m' := MapIdentity(m, nodes);
    }
  }

  /** The reverse loop of `_CreateNodeMap` on top of `r`: every node below
      `nodes` that some device below `nodes` maps to goes to the least
      such device. */
  method BuildReverseMap(m: map<nat, nat>, r: map<nat, nat>, nodes: nat) returns (r': map<nat, nat>)
    ensures forall i: nat :: i < nodes && FirstWithNode(m, i, 0, nodes).Some? ==>
      i in r' && r'[i] == FirstWithNode(m, i, 0, nodes).value
    ensures forall i: nat :: i in r' <==> i in r || (i < nodes && FirstWithNode(m, i, 0, nodes).Some?)
    ensures forall i: nat :: i in r' && !(i < nodes && FirstWithNode(m, i, 0, nodes).Some?) ==> r'[i] == r[i]
  {
    r' := r;
    var i := 0;
    while i < nodes
      invariant 0 <= i <= nodes
      invariant forall a: nat :: a < i && FirstWithNode(m, a, 0, nodes).Some? ==>
        a in r' && r'[a] == FirstWithNode(m, a, 0, nodes).value
      invariant forall a: nat :: a in r' <==> a in r || (a < i && FirstWithNode(m, a, 0, nodes).Some?)
      invariant forall a: nat :: a in r' && !(a < i && FirstWithNode(m, a, 0, nodes).Some?) ==> r'[a] == r[a]
    {
      var j := 0;
      while j < nodes
        invariant 0 <= j <= nodes
        invariant FirstWithNode(m, i, j, nodes) == FirstWithNode(m, i, 0, nodes)
      {
        if NodeOf(m, j) == i {
          r' := r'[i := j];
          break;
        }
        j := j + 1;
      }
      i := i + 1;
    }
  }

  /** The interconnect interface's own state: the buffers of every node on
      every subnet, the device-to-node maps, and the lengths of the traffic
      manager's input queues. */
  class InterconnectInterface {
    const nShader: nat
    const nMem: nat
    const nodes: nat
    const subnets: nat
    const vcs: nat
    const flitSize: nat
    const inputBufferCapacity: nat
    const ejectionBufferCapacity: nat
    const boundaryBufferCapacity: nat
    var buffers: map<(nat, nat), NodeBuffers>
    var inputQueue: map<(nat, nat), nat>
    var nodeMap: map<nat, nat>
    var reverseNodeMap: map<nat, nat>

    ghost predicate Valid()
      reads this
    {
      && subnets > 0 && flitSize > 0
      && Covers(buffers, subnets, nodes) && Covers(inputQueue, subnets, nodes)
      && (forall k :: k in buffers ==> NodeOk(buffers[k], vcs, boundaryBufferCapacity, ejectionBufferCapacity))
      && (forall k :: k in inputQueue ==> inputQueue[k] <= inputBufferCapacity)
    }

    /** `CreateInterconnect` with `_CreateBuffer` and `_CreateNodeMap`: at
        least one subnet and a non-zero boundary capacity (both asserted);
        the input buffer holds 9 flits unless configured, the ejection
        buffer takes the VC buffer size unless configured; every buffer
        starts empty and every turn at VC 0. */
    constructor (nShader: nat, nMem: nat, nodes: nat, subnets: nat, vcs: nat, flitSize: nat,
                 ejectionBufferSize: nat, vcBufSize: nat, boundaryBufferSize: nat, inputBufferSize: nat,
                 useMap: bool, memoryNode: seq<nat>)
      requires subnets > 0 && boundaryBufferSize > 0 && flitSize > 0
      requires useMap ==> |memoryNode| == nMem > 0
      ensures Valid()
      ensures this.nShader == nShader && this.nMem == nMem && this.nodes == nodes && this.subnets == subnets
      ensures this.vcs == vcs && this.flitSize == flitSize && boundaryBufferCapacity == boundaryBufferSize
      ensures inputBufferCapacity == if inputBufferSize != 0 then inputBufferSize else 9
      ensures ejectionBufferCapacity == if ejectionBufferSize != 0 then ejectionBufferSize else vcBufSize
      ensures forall k :: k in buffers ==> buffers[k] == EmptyNode(vcs)
      ensures forall k :: k in inputQueue ==> inputQueue[k] == 0
      ensures !useMap ==> forall d: nat :: d < nodes ==> d in nodeMap && nodeMap[d] == d
      ensures useMap ==> forall d: nat :: d < nShader + nMem ==> d in nodeMap && nodeMap[d] == PresetNodeMap(nShader, memoryNode)[d]
      ensures forall i: nat :: i < nodes && FirstWithNode(nodeMap, i, 0, nodes).Some? ==>
        i in reverseNodeMap && reverseNodeMap[i] == FirstWithNode(nodeMap, i, 0, nodes).value
    {
      var m := BuildNodeMap(map[], useMap, memoryNode, nShader, nMem, nodes);
      var r := BuildReverseMap(m, map[], nodes);
      this.nShader := nShader;
      this.nMem := nMem;
      this.nodes := nodes;
      this.subnets := subnets;
      this.vcs := vcs;
      this.flitSize := flitSize;
      inputBufferCapacity := if inputBufferSize != 0 then inputBufferSize else 9;
      ejectionBufferCapacity := if ejectionBufferSize != 0 then ejectionBufferSize else vcBufSize;
      boundaryBufferCapacity := boundaryBufferSize;
      buffers := Grid(subnets, nodes, EmptyNode(vcs));
      inputQueue := Grid(subnets, nodes, 0);
      nodeMap := m;
      reverseNodeMap := r;
    }

    /** `_CreateNodeMap` run again on the current maps. */
    method CreateNodeMap(useMap: bool, memoryNode: seq<nat>)
      requires useMap ==> |memoryNode| == nMem > 0
      modifies this
      ensures buffers == old(buffers) && inputQueue == old(inputQueue)
      ensures !useMap ==> forall d: nat :: d < nodes ==> d in nodeMap && nodeMap[d] == d
      ensures useMap ==> forall d: nat :: d < nShader + nMem ==> d in nodeMap && nodeMap[d] == PresetNodeMap(nShader, memoryNode)[d]
      ensures forall d: nat :: d in nodeMap <==> d in old(nodeMap) || d < (if useMap then nShader + nMem else nodes)
      ensures forall i: nat :: i < nodes && FirstWithNode(nodeMap, i, 0, nodes).Some? ==>
        i in reverseNodeMap && reverseNodeMap[i] == FirstWithNode(nodeMap, i, 0, nodes).value
    {
      var m := BuildNodeMap(nodeMap, useMap, memoryNode, nShader, nMem, nodes);
      var r := BuildReverseMap(m, reverseNodeMap, nodes);
      nodeMap, reverseNodeMap := m, r;
    }

    /** The network node of a device. */
    function IcntOf(device: nat): nat
      reads this
    {
      NodeOf(nodeMap, device)
    }

    /** `HasBuffer`: the packet's flits fit into the input queue of the
        subnet the device pushes on. */
    predicate HasBuffer(device: nat, size: nat)
      reads this
      requires Valid() && device in nodeMap && nodeMap[device] < nodes
    {
      var n := FlitCount(size, flitSize);
      var id := nodeMap[device];
      assert (0, id) in inputQueue;
      var hasBuffer := inputQueue[(0, id)] + n <= inputBufferCapacity;
      if subnets > 1 && device >= nShader then
        assert (1, id) in inputQueue;
        inputQueue[(1, id)] + n <= inputBufferCapacity
      else hasBuffer
    }

    /** `HasBuffer` checks exactly the input queue `Push` fills. */
    lemma HasBufferOnPushSubnet(device: nat, size: nat)
      requires Valid() && device in nodeMap && nodeMap[device] < nodes
      ensures (PushSubnet(subnets, device, nShader), nodeMap[device]) in inputQueue
      ensures HasBuffer(device, size) <==>
        inputQueue[(PushSubnet(subnets, device, nShader), nodeMap[device])] + FlitCount(size, flitSize) <= inputBufferCapacity
    {
      assert (PushSubnet(subnets, device, nShader), nodeMap[device]) in inputQueue;
    }

    /** `Push`, which requires `HasBuffer`: the packet's flits join the
        traffic manager's input queue of the source node on the push
        subnet, which stays within its capacity. */
    method Push(input: nat, output: nat, data: nat, size: nat)
      requires Valid() && input in nodeMap && nodeMap[input] < nodes && HasBuffer(input, size)
      modifies this
      ensures Valid()
      ensures var k := (PushSubnet(subnets, input, nShader), IcntOf(input));
        k in old(inputQueue) && inputQueue == old(inputQueue)[k := old(inputQueue)[k] + FlitCount(size, flitSize)]
      ensures buffers == old(buffers) && nodeMap == old(nodeMap) && reverseNodeMap == old(reverseNodeMap)
    {
      HasBufferOnPushSubnet(input, size);
      var nFlits := FlitCount(size, flitSize);
      var subnet := PushSubnet(subnets, input, nShader);
      var k := (subnet, IcntOf(input));
      inputQueue := inputQueue[k := inputQueue[k] + nFlits];
    }

    /** `Pop`: one round over the device's VCs from its saved turn; the
        first VC with a complete packet gives it up and the turn moves past
        that VC. Without a packet nothing changes. */
    method Pop(device: nat) returns (data: Option<nat>)
      requires Valid() && IcntOf(device) < nodes
      requires var k := (PopSubnet(subnets, device, nShader), IcntOf(device));
        k in buffers && forall v :: 0 <= v < |buffers[k].boundary| && HasPacket(buffers[k].boundary[v]) ==>
          FrontPacketWellFormed(buffers[k].boundary[v])
      modifies this
      ensures Valid()
      ensures inputQueue == old(inputQueue) && nodeMap == old(nodeMap) && reverseNodeMap == old(reverseNodeMap)
      ensures var k := (PopSubnet(subnets, device, nShader), IcntOf(device));
        && k in old(buffers) && k in buffers && buffers == old(buffers)[k := buffers[k]]
        && buffers[k].ejection == old(buffers)[k].ejection && buffers[k].ejected == old(buffers)[k].ejected
        && PopOutcome(old(buffers)[k].boundary, buffers[k].boundary, old(buffers)[k].turn, buffers[k].turn, data)
    {
      var k := (PopSubnet(subnets, device, nShader), IcntOf(device));
      var nb := buffers[k];
      var bs, d, t := PopRound(nb.boundary, nb.turn);
      PopKeepsBuffers(nb.boundary, bs, nb.turn, t, d, boundaryBufferCapacity);
      buffers := buffers[k := nb.(boundary := bs, turn := t)];
      data := d;
    }

    /** `Transfer2BoundaryBuffer`: every VC of the node whose ejection
        buffer is not empty and whose boundary buffer is below capacity
        moves its front flit to the boundary buffer and records it as
        ejected, in VC order; the destination of a head flit must be this
        node. */
    method Transfer2BoundaryBuffer(subnet: nat, output: nat)
      requires Valid() && subnet < subnets && output < nodes
      requires var k := (subnet, output);
        k in buffers && forall v :: 0 <= v < |buffers[k].ejection| && |buffers[k].ejection[v]| > 0 && buffers[k].ejection[v][0].head ==>
          buffers[k].ejection[v][0].dest == output
      modifies this
      ensures Valid()
      ensures inputQueue == old(inputQueue) && nodeMap == old(nodeMap) && reverseNodeMap == old(reverseNodeMap)
      ensures var k := (subnet, output);
        && k in old(buffers) && k in buffers && buffers == old(buffers)[k := buffers[k]]
        && var b0, b1 := old(buffers)[k], buffers[k];
        && b1.turn == b0.turn
        && (forall v :: 0 <= v < vcs ==> TransferredAt(b0.ejection, b0.boundary, b1.ejection, b1.boundary, v, boundaryBufferCapacity))
        && b1.ejected == b0.ejected + MovedFlits(b0.ejection, b0.boundary, vcs, boundaryBufferCapacity)
    {
      var k := (subnet, output);
      var nb := buffers[k];
      var ejs, bs, ejected := TransferRound(nb.ejection, nb.boundary, nb.ejected, output, boundaryBufferCapacity);
      TransferKeepsBuffers(nb.ejection, nb.boundary, ejs, bs, boundaryBufferCapacity, ejectionBufferCapacity);
      buffers := buffers[k := nb.(ejection := ejs, boundary := bs, ejected := ejected)];
    }

    /** `WriteOutBuffer`: the network delivers a flit into the ejection
        buffer of its VC, which must have room. */
    method WriteOutBuffer(subnet: nat, output: nat, flit: Flit)
      requires Valid() && subnet < subnets && output < nodes && flit.vc < vcs
      requires (subnet, output) in buffers && |buffers[(subnet, output)].ejection[flit.vc]| < ejectionBufferCapacity
      modifies this
      ensures Valid()
      ensures var k := (subnet, output);
        && k in old(buffers)
        && var nb := old(buffers)[k];
        buffers == old(buffers)[k := nb.(ejection := nb.ejection[flit.vc := nb.ejection[flit.vc] + [flit]])]
      ensures inputQueue == old(inputQueue) && nodeMap == old(nodeMap) && reverseNodeMap == old(reverseNodeMap)
    {
      var k := (subnet, output);
      var nb := buffers[k];
      buffers := buffers[k := nb.(ejection := nb.ejection[flit.vc := nb.ejection[flit.vc] + [flit]])];
    }

    /** `GetEjectedFlit`: the oldest ejected flit of the node, if any,
        leaves its queue. */
    method GetEjectedFlit(subnet: nat, node: nat) returns (flit: Option<Flit>)
      requires Valid() && subnet < subnets && node < nodes
      modifies this
      ensures Valid()
      ensures var k := (subnet, node);
        && k in old(buffers)
        && var nb := old(buffers)[k];
        && (nb.ejected == [] ==> flit.None? && buffers == old(buffers))
        && (nb.ejected != [] ==> flit == Some(nb.ejected[0]) && buffers == old(buffers)[k := nb.(ejected := nb.ejected[1..])])
      ensures inputQueue == old(inputQueue) && nodeMap == old(nodeMap) && reverseNodeMap == old(reverseNodeMap)
    {
      var k := (subnet, node);
      assert k in buffers;
      var nb := buffers[k];
      flit := None;
      if nb.ejected != [] {
        flit := Some(nb.ejected[0]);
        buffers := buffers[k := nb.(ejected := nb.ejected[1..])];
      }
    }
  }
}
