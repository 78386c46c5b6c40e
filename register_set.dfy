/**
 * A pipeline register of the reference simulator that holds several warp
 * instructions: a fixed number of slots, each empty or holding one
 * instruction, with the oldest instruction (smallest uid) leaving first.
 * In the sub-core model each scheduler uses only the slot of its own id.
 */
module RegisterSet {
  import opened Wrappers

  /** A slot: empty, or an instruction with its uid and scheduler id. */
  datatype Slot = Empty | Occupied(uid: nat, schdId: nat)

  /** The slot `get_ready` settles on after scanning the first `n` slots:
      a non-empty slot replaces the current choice unless the choice has a
      strictly smaller uid. */
  function ReadyIn(regs: seq<Slot>, n: nat): (r: Option<nat>)
    requires n <= |regs|
    ensures r.Some? ==> r.value < n && regs[r.value].Occupied?
  {
    if n == 0 then None
    else
      var prev := ReadyIn(regs, n - 1);
      if regs[n - 1].Occupied? && !(prev.Some? && regs[prev.value].uid < regs[n - 1].uid) then Some(n - 1)
      else prev
  }

  function Ready(regs: seq<Slot>): Option<nat>
  {
    ReadyIn(regs, |regs|)
  }

  /** The choice is the non-empty slot with the smallest uid, the last one
      among equal uids, and there is none only when every slot is empty. */
  lemma {:induction false} ReadyInSpec(regs: seq<Slot>, n: nat)
    requires n <= |regs|
    ensures ReadyIn(regs, n).None? <==> forall j :: 0 <= j < n ==> regs[j].Empty?
    ensures ReadyIn(regs, n).Some? ==>
      var r := ReadyIn(regs, n).value;
      && (forall j :: 0 <= j < n && regs[j].Occupied? ==> regs[r].uid <= regs[j].uid)
      && (forall j :: r < j < n && regs[j].Occupied? ==> regs[r].uid < regs[j].uid)
  {
    if n > 0 {
      ReadyInSpec(regs, n - 1);
    }
  }

  lemma ReadySpec(regs: seq<Slot>)
    ensures Ready(regs).None? <==> forall j :: 0 <= j < |regs| ==> regs[j].Empty?
    ensures Ready(regs).Some? ==>
      var r := Ready(regs).value;
      && r < |regs| && regs[r].Occupied?
      && (forall j :: 0 <= j < |regs| && regs[j].Occupied? ==> regs[r].uid <= regs[j].uid)
      && (forall j :: r < j < |regs| && regs[j].Occupied? ==> regs[r].uid < regs[j].uid)
  {
    ReadyInSpec(regs, |regs|);
  }

  /** The first empty slot at or after `from`. */
  function FirstFreeFrom(regs: seq<Slot>, from: nat): (r: Option<nat>)
    requires from <= |regs|
    ensures r.Some? ==> from <= r.value < |regs| && regs[r.value].Empty?
    ensures r.Some? ==> forall j :: from <= j < r.value ==> regs[j].Occupied?
    ensures r.None? ==> forall j :: from <= j < |regs| ==> regs[j].Occupied?
    decreases |regs| - from
  {
    if from == |regs| then None
    else if regs[from].Empty? then Some(from)
    else FirstFreeFrom(regs, from + 1)
  }

  class RegisterSet {
    var regs: seq<Slot>
    const id: nat

    /** `register_set(num, name, id)`: `num` empty slots. */
    constructor (num: nat, id: nat)
      ensures |regs| == num && this.id == id
      ensures forall i :: 0 <= i < num ==> regs[i].Empty?
    {
      regs := seq(num, _ => Empty);
      this.id := id;
    }

    /** `has_free`: some slot is empty. */
    method HasFree() returns (b: bool)
      ensures b <==> exists i :: 0 <= i < |regs| && regs[i].Empty?
    {
      var i := 0;
      while i < |regs|
        invariant 0 <= i <= |regs|
        invariant forall j :: 0 <= j < i ==> regs[j].Occupied?
      {
        if regs[i].Empty? {
          return true;
        }
        i := i + 1;
      }
      return false;
    }

    /** `has_free(sub_core_model, reg_id)`: in the sub-core model only the
        scheduler's own slot counts. */
    method HasFreeSub(subCoreModel: bool, regId: nat) returns (b: bool)
      requires subCoreModel ==> regId < |regs|
      ensures subCoreModel ==> (b <==> regs[regId].Empty?)
      ensures !subCoreModel ==> (b <==> exists i :: 0 <= i < |regs| && regs[i].Empty?)
    {
      if !subCoreModel {
        b := HasFree();
        return;
      }
      b := regs[regId].Empty?;
    }

    /** `has_ready`: some slot holds an instruction. */
    method HasReady() returns (b: bool)
      ensures b <==> exists i :: 0 <= i < |regs| && regs[i].Occupied?
    {
      var i := 0;
      while i < |regs|
        invariant 0 <= i <= |regs|
        invariant forall j :: 0 <= j < i ==> regs[j].Empty?
      {
        if regs[i].Occupied? {
          return true;
        }
        i := i + 1;
      }
      return false;
    }

    method HasReadySub(subCoreModel: bool, regId: nat) returns (b: bool)
      requires subCoreModel ==> regId < |regs|
      ensures subCoreModel ==> (b <==> regs[regId].Occupied?)
      ensures !subCoreModel ==> (b <==> exists i :: 0 <= i < |regs| && regs[i].Occupied?)
    {
      if !subCoreModel {
        b := HasReady();
        return;
      }
      b := regs[regId].Occupied?;
    }

    /** `get_ready`: the index of the oldest instruction, if any. */
    method GetReady() returns (ready: Option<nat>)
      ensures ready == Ready(regs)
    {
      ready := None;
      var i := 0;
      while i < |regs|
        invariant 0 <= i <= |regs|
        invariant ready == ReadyIn(regs, i)
      {
        if regs[i].Occupied? {
          if ready.Some? && regs[ready.value].uid < regs[i].uid {
          } else {
            ready := Some(i);
          }
        }
        i := i + 1;
      }
    }

    /** `get_ready_reg_id`: only called when some slot is ready; the same
        slot as `get_ready`. */
    method GetReadyRegId() returns (regId: nat)
      requires exists i :: 0 <= i < |regs| && regs[i].Occupied?
      ensures Ready(regs) == Some(regId)
    {
      ReadySpec(regs);
      var ready := GetReady();
      regId := ready.value;
    }

    /** `get_ready(sub_core_model, reg_id)`: the scheduler's own slot when
        it is not empty. */
    method GetReadySub(subCoreModel: bool, regId: nat) returns (ready: Option<nat>)
      requires subCoreModel ==> regId < |regs|
      ensures !subCoreModel ==> ready == Ready(regs)
      ensures subCoreModel ==> ready == if regs[regId].Occupied? then Some(regId) else None
    {
      if !subCoreModel {
        ready := GetReady();
        return;
      }
      ready := if regs[regId].Occupied? then Some(regId) else None;
    }

    /** `get_free`: the first empty slot; `None` where the source's
        "no free registers" assertion fails. */
    method GetFree() returns (free: Option<nat>)
      ensures free == FirstFreeFrom(regs, 0)
    {
      var i := 0;
      while i < |regs|
        invariant 0 <= i <= |regs|
        invariant FirstFreeFrom(regs, 0) == FirstFreeFrom(regs, i)
      {
        if regs[i].Empty? {
          return Some(i);
        }
        i := i + 1;
      }
      return None;
    }

    method GetFreeSub(subCoreModel: bool, regId: nat) returns (free: Option<nat>)
      requires subCoreModel ==> regId < |regs|
      ensures !subCoreModel ==> free == FirstFreeFrom(regs, 0)
      ensures subCoreModel ==> free == if regs[regId].Empty? then Some(regId) else None
    {
      if !subCoreModel {
        free := GetFree();
        return;
      }
      free := if regs[regId].Empty? then Some(regId) else None;
    }

    /** `get_schd_id`. */
    function GetSchdId(regId: nat): nat
      requires regId < |regs| && regs[regId].Occupied?
      reads this
    {
      regs[regId].schdId
    }

    /** `move_in`: the instruction takes the first free slot and the source
        is left empty. */
    method MoveIn(src: Slot) returns (srcAfter: Slot)
      requires exists i :: 0 <= i < |regs| && regs[i].Empty?
      modifies this
      ensures srcAfter == Empty
      ensures var free := FirstFreeFrom(old(regs), 0);
        free.Some? && regs == old(regs)[free.value := src]
    {
      var free := GetFree();
      regs := regs[free.value := src];
      srcAfter := Empty;
    }

    /** `move_in(sub_core_model, reg_id, src)`. */
    method MoveInSub(subCoreModel: bool, regId: nat, src: Slot) returns (srcAfter: Slot)
      requires subCoreModel ==> regId < |regs| && regs[regId].Empty?
      requires !subCoreModel ==> exists i :: 0 <= i < |regs| && regs[i].Empty?
      modifies this
      ensures srcAfter == Empty
      ensures subCoreModel ==> regs == old(regs)[regId := src]
      ensures !subCoreModel ==> var free := FirstFreeFrom(old(regs), 0);
        free.Some? && regs == old(regs)[free.value := src]
    {
      if !subCoreModel {
        srcAfter := MoveIn(src);
        return;
      }
      regs := regs[regId := src];
      srcAfter := Empty;
    }

    /** `move_out_to`: the oldest instruction moves into the empty
        destination and its slot is left empty. */
    method MoveOutTo(dest: Slot) returns (destAfter: Slot)
      requires dest == Empty && exists i :: 0 <= i < |regs| && regs[i].Occupied?
      modifies this
      ensures var ready := Ready(old(regs));
        && ready.Some? && destAfter == old(regs)[ready.value]
        && regs == old(regs)[ready.value := Empty]
      ensures destAfter.Occupied?
    {
      ReadySpec(regs);
      var ready := GetReady();
      destAfter := regs[ready.value];
      regs := regs[ready.value := Empty];
    }

    method MoveOutToSub(subCoreModel: bool, regId: nat, dest: Slot) returns (destAfter: Slot)
      requires dest == Empty
      requires subCoreModel ==> regId < |regs| && regs[regId].Occupied?
      requires !subCoreModel ==> exists i :: 0 <= i < |regs| && regs[i].Occupied?
      modifies this
      ensures subCoreModel ==> destAfter == old(regs)[regId] && regs == old(regs)[regId := Empty]
      ensures !subCoreModel ==> var ready := Ready(old(regs));
        && ready.Some? && destAfter == old(regs)[ready.value]
        && regs == old(regs)[ready.value := Empty]
    {
      if !subCoreModel {
        destAfter := MoveOutTo(dest);
        return;
      }
      destAfter := regs[regId];
      regs := regs[regId := Empty];
    }

    function GetSize(): nat
      reads this
    {
      |regs|
    }
  }

  /** A move in followed by a move out returns the instruction when it is
      older than everything else in the register. */
  method MoveInThenOut(r: RegisterSet, src: Slot) returns (out: Slot)
    requires src.Occupied? && exists i :: 0 <= i < |r.regs| && r.regs[i].Empty?
    requires forall i :: 0 <= i < |r.regs| && r.regs[i].Occupied? ==> src.uid < r.regs[i].uid
    modifies r
    ensures out == src
    ensures |r.regs| == old(|r.regs|)
  {
    var left := r.MoveIn(src);
    ghost var k := FirstFreeFrom(old(r.regs), 0).value;
    assert r.regs[k] == src;
    ReadySpec(r.regs);
    out := r.MoveOutTo(left);
  }
}
