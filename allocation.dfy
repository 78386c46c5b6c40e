/**
 * Device memory allocations: an `Allocation` is an id, an optional name and
 * an address range whose end may be missing; `Allocations` stores them in a
 * range map keyed by address, which overwrites whatever part of an older
 * range a new one covers.
 */
module Allocation {
  import opened Wrappers

  datatype Allocation = Allocation(id: nat, name: Option<string>, startAddr: nat, endAddr: Option<nat>)

  /** `relative_addr`: `checked_sub` of the start address. */
  function RelativeAddr(a: Allocation, addr: nat): (r: Option<nat>)
    ensures r.Some? <==> addr >= a.startAddr
    ensures r.Some? ==> a.startAddr + r.value == addr
  {
    if addr >= a.startAddr then Some(addr - a.startAddr) else None
  }

  function Max(x: nat, y: nat): nat { if x >= y then x else y }

  /** `contains`: `start..max(end.unwrap_or(start), start)` holds the address. */
  predicate Contains(a: Allocation, addr: nat)
  {
    var endAddr := Max(match a.endAddr case Some(e) => e case None => a.startAddr, a.startAddr);
    a.startAddr <= addr < endAddr
  }

  /** `num_bytes`: end minus start, or 0 when the end is missing or below the start. */
  function NumBytes(a: Allocation): (n: nat)
    ensures a.endAddr.None? ==> n == 0
    ensures a.endAddr.Some? && a.endAddr.value >= a.startAddr ==> a.startAddr + n == a.endAddr.value
    ensures a.endAddr.Some? && a.endAddr.value < a.startAddr ==> n == 0
  {
    match a.endAddr
    case Some(e) => if e >= a.startAddr then e - a.startAddr else 0
    case None => 0
  }

  /** An allocation contains exactly the addresses whose relative address is
      below its size; a missing or lower end makes it empty. */
  lemma ContainsIffRelativeBelowSize(a: Allocation, addr: nat)
    ensures Contains(a, addr) <==> RelativeAddr(a, addr).Some? && RelativeAddr(a, addr).value < NumBytes(a)
    ensures NumBytes(a) == 0 ==> !Contains(a, addr)
  {
  }

  /** `Ord::cmp`: allocations compare by id alone. */
  function Cmp(a: Allocation, b: Allocation): (o: Ordering)
    ensures o == Equal <==> a.id == b.id
    ensures o == Less <==> a.id < b.id
  {
    if a.id < b.id then Less else if a.id == b.id then Equal else Greater
  }

  /** The order ignores names and ranges: it is antisymmetric and purely by id. */
  lemma CmpIgnoresRange(a: Allocation, b: Allocation, c: Allocation)
    requires a.id == c.id
    ensures Cmp(a, b) == Cmp(c, b)
    ensures Cmp(a, b) == Less <==> Cmp(b, a) == Greater
  {
  }

  /** One stored range `[lo, hi)` of the range map and the allocation it maps to. */
  datatype Entry = Entry(lo: nat, hi: nat, value: Allocation)

  predicate Overlap(x: Entry, lo: nat, hi: nat)
  {
    x.lo < hi && lo < x.hi
  }

  /** What is left of an entry once `[lo, hi)` is overwritten: the part before
      `lo` and the part after `hi`, each with the old value. */
  function Remnants(x: Entry, lo: nat, hi: nat): seq<Entry>
  {
    (if x.lo < lo then [x.(hi := if x.hi < lo then x.hi else lo)] else [])
    + (if x.hi > hi then [x.(lo := if x.lo > hi then x.lo else hi)] else [])
  }

  /** All entries with `[lo, hi)` cut out of them. */
  function Cut(entries: seq<Entry>, lo: nat, hi: nat): (r: seq<Entry>)
    ensures |r| <= 2 * |entries|
  {
    if entries == [] then [] else Remnants(entries[0], lo, hi) + Cut(entries[1..], lo, hi)
  }

  /** The allocation mapped at an address, if any (`RangeMap::get`). */
  function Lookup(entries: seq<Entry>, addr: nat): Option<Allocation>
  {
    if entries == [] then None
    else if entries[0].lo <= addr < entries[0].hi then Some(entries[0].value)
    else Lookup(entries[1..], addr)
  }

  /** The range map's invariant: every stored range is non-empty and no two overlap. */
  ghost predicate Disjoint(entries: seq<Entry>)
  {
    (forall i :: 0 <= i < |entries| ==> entries[i].lo < entries[i].hi)
    && (forall i, j :: 0 <= i < j < |entries| ==> !Overlap(entries[i], entries[j].lo, entries[j].hi))
  }

  /** `c` is a piece of `x`: inside its range and with its value. */
  predicate Within(c: Entry, x: Entry)
  {
    x.lo <= c.lo && c.hi <= x.hi && c.value == x.value
  }

  /** Dropping the first entry keeps the invariant. */
  lemma DisjointTail(entries: seq<Entry>)
    requires entries != [] && Disjoint(entries)
    ensures Disjoint(entries[1..])
  {
    var t := entries[1..];
    assert forall i :: 0 <= i < |t| ==> t[i] == entries[i + 1];
  }

  /** The remnants of one non-empty entry are non-empty pieces of it outside
      `[lo, hi)`, and do not overlap each other. */
  lemma RemnantsInside(x: Entry, lo: nat, hi: nat)
    requires lo < hi && x.lo < x.hi
    ensures var r := Remnants(x, lo, hi);
      && (forall k :: 0 <= k < |r| ==> r[k].lo < r[k].hi && !Overlap(r[k], lo, hi) && Within(r[k], x))
      && Disjoint(r)
  {
  }

  /** Every remnant lies inside its entry, outside `[lo, hi)`, and is non-empty. */
  lemma {:induction false} CutInside(entries: seq<Entry>, lo: nat, hi: nat, k: nat)
    requires lo < hi && Disjoint(entries) && k < |Cut(entries, lo, hi)|
    ensures var c := Cut(entries, lo, hi)[k];
      c.lo < c.hi && !Overlap(c, lo, hi)
      && exists i :: 0 <= i < |entries| && Within(c, entries[i])
  {
    var r := Remnants(entries[0], lo, hi);
    var rest := Cut(entries[1..], lo, hi);
    assert Cut(entries, lo, hi) == r + rest;
    if k < |r| {
      RemnantsInside(entries[0], lo, hi);
      assert Within(r[k], entries[0]);
    } else {
      DisjointTail(entries);
      CutInside(entries[1..], lo, hi, k - |r|);
      var c := rest[k - |r|];
      var i :| 0 <= i < |entries[1..]| && Within(c, entries[1..][i]);
      assert Within(c, entries[i + 1]);
    }
  }

  /** Pieces of the same entry are disjoint, and pieces of different entries are
      disjoint because they lie inside disjoint entries. */
  lemma {:induction false} CutDisjoint(entries: seq<Entry>, lo: nat, hi: nat)
    requires lo < hi && Disjoint(entries)
    ensures Disjoint(Cut(entries, lo, hi))
  {
    if entries != [] {
      var r := Remnants(entries[0], lo, hi);
      var rest := Cut(entries[1..], lo, hi);
      DisjointTail(entries);
      CutDisjoint(entries[1..], lo, hi);
      RemnantsInside(entries[0], lo, hi);
      var c := r + rest;
      assert Cut(entries, lo, hi) == c;
      forall i, j | 0 <= i < j < |c| ensures !Overlap(c[i], c[j].lo, c[j].hi)
      {
        if j < |r| {
          assert c[i] == r[i] && c[j] == r[j];
        } else if i < |r| {
          CrossDisjoint(entries, lo, hi, i, j - |r|);
          assert c[i] == r[i] && c[j] == rest[j - |r|];
        } else {
          assert c[i] == rest[i - |r|] && c[j] == rest[j - |r|];
        }
      }
      forall i | 0 <= i < |c| ensures c[i].lo < c[i].hi
      {
        if i >= |r| {
          CutInside(entries[1..], lo, hi, i - |r|);
          assert c[i] == rest[i - |r|];
        } else {
          assert c[i] == r[i];
        }
      }
    }
  }

  /** A remnant of the first entry and a piece cut from the later entries do
      not overlap. */
  lemma CrossDisjoint(entries: seq<Entry>, lo: nat, hi: nat, a: nat, k: nat)
    requires lo < hi && Disjoint(entries) && entries != []
    requires a < |Remnants(entries[0], lo, hi)| && k < |Cut(entries[1..], lo, hi)|
    ensures !Overlap(Remnants(entries[0], lo, hi)[a], Cut(entries[1..], lo, hi)[k].lo, Cut(entries[1..], lo, hi)[k].hi)
  {
    var x, y := Remnants(entries[0], lo, hi)[a], Cut(entries[1..], lo, hi)[k];
    RemnantsInside(entries[0], lo, hi);
    DisjointTail(entries);
    CutInside(entries[1..], lo, hi, k);
    var m :| 0 <= m < |entries[1..]| && Within(y, entries[1..][m]);
    assert entries[1..][m] == entries[m + 1];
    assert !Overlap(entries[0], entries[m + 1].lo, entries[m + 1].hi);
  }

  /** An entry clear of the cut range is its own only remnant. */
  lemma RemnantsNoOverlap(x: Entry, lo: nat, hi: nat)
    requires lo < hi && x.lo < x.hi && !Overlap(x, lo, hi)
    ensures Remnants(x, lo, hi) == [x]
  {
    if x.hi <= lo {
      assert x.(hi := if x.hi < lo then x.hi else lo) == x;
    } else {
      assert x.(lo := if x.lo > hi then x.lo else hi) == x;
    }
  }

  /** Cutting changes nothing for entries that do not overlap the cut range. */
  lemma {:induction false} CutNoOverlap(entries: seq<Entry>, lo: nat, hi: nat)
    requires lo < hi
    requires forall i :: 0 <= i < |entries| ==> entries[i].lo < entries[i].hi && !Overlap(entries[i], lo, hi)
    ensures Cut(entries, lo, hi) == entries
  {
    if entries != [] {
      var x, t := entries[0], entries[1..];
      RemnantsNoOverlap(x, lo, hi);
      assert forall i :: 0 <= i < |t| ==> t[i] == entries[i + 1];
      CutNoOverlap(t, lo, hi);
      assert Cut(entries, lo, hi) == [x] + t;
    }
  }

  /** The lookup of an address outside the cut range is unchanged by the cut. */
  lemma {:induction false} CutLookup(entries: seq<Entry>, lo: nat, hi: nat, addr: nat)
    requires !(lo <= addr < hi)
    ensures Lookup(Cut(entries, lo, hi), addr) == Lookup(entries, addr)
  {
    if entries != [] {
      var r := Remnants(entries[0], lo, hi);
      CutLookup(entries[1..], lo, hi, addr);
      LookupAppend(r, Cut(entries[1..], lo, hi), addr);
    }
  }

  lemma {:induction false} LookupAppend(a: seq<Entry>, b: seq<Entry>, addr: nat)
    ensures Lookup(a + b, addr) == if Lookup(a, addr).Some? then Lookup(a, addr) else Lookup(b, addr)
  {
    if a != [] {
      assert (a + b)[1..] == a[1..] + b;
      LookupAppend(a[1..], b, addr);
    } else {
      assert a + b == b;
    }
  }

  /** No remnant holds an address inside the cut range. */
  lemma {:induction false} CutMisses(entries: seq<Entry>, lo: nat, hi: nat, addr: nat)
    requires lo <= addr < hi
    ensures Lookup(Cut(entries, lo, hi), addr) == None
  {
    if entries != [] {
      var r := Remnants(entries[0], lo, hi);
      CutMisses(entries[1..], lo, hi, addr);
      LookupAppend(r, Cut(entries[1..], lo, hi), addr);
    }
  }

  /** `Allocations`: the range map behind its lock. */
  class Allocations {
    var entries: seq<Entry>

    ghost predicate Valid()
      reads this
    {
      Disjoint(entries)
    }

    constructor ()
      ensures Valid() && entries == []
    {
      entries := [];
    }

    /** `RangeMap::overlaps`, used only to log a warning. */
    predicate Overlaps(lo: nat, hi: nat)
      reads this
    {
      exists i :: 0 <= i < |entries| && Overlap(entries[i], lo, hi)
    }

    /** `insert`: the new allocation gets id = number of stored ranges + 1 (zero is
        reserved for instructions) and the range `[lo, hi)`; it overwrites every
        older range it overlaps.  `RangeMap::insert` rejects an empty range. */
    method Insert(lo: nat, hi: nat, name: Option<string>)
      requires lo < hi && Valid()
      modifies this
      ensures Valid()
      ensures entries == Cut(old(entries), lo, hi) + [Entry(lo, hi, Allocation(|old(entries)| + 1, name, lo, Some(hi)))]
    {
      var id := |entries| + 1;
      CutDisjoint(entries, lo, hi);
      var cut := Cut(entries, lo, hi);
      var e := Entry(lo, hi, Allocation(id, name, lo, Some(hi)));
      forall k | 0 <= k < |cut| ensures !Overlap(cut[k], lo, hi) {
        CutInside(entries, lo, hi, k);
      }
      entries := cut + [e];
    }
  }

  /** After an insert every address of the new range maps to the new allocation and
      every other address keeps its old allocation. */
  lemma InsertLookup(old_: seq<Entry>, lo: nat, hi: nat, name: Option<string>, addr: nat)
    requires lo < hi
    ensures var e := Entry(lo, hi, Allocation(|old_| + 1, name, lo, Some(hi)));
      var now := Cut(old_, lo, hi) + [e];
      (lo <= addr < hi ==> Lookup(now, addr) == Some(e.value))
      && (!(lo <= addr < hi) ==> Lookup(now, addr) == Lookup(old_, addr))
  {
    var e := Entry(lo, hi, Allocation(|old_| + 1, name, lo, Some(hi)));
    LookupAppend(Cut(old_, lo, hi), [e], addr);
    if lo <= addr < hi {
      CutMisses(old_, lo, hi, addr);
    } else {
      CutLookup(old_, lo, hi, addr);
    }
  }

  /** An insert that overlaps nothing keeps every older range and adds one, so the
      ids of non-overlapping allocations are 1, 2, 3, … in insertion order. */
  lemma InsertWithoutOverlap(old_: seq<Entry>, lo: nat, hi: nat)
    requires lo < hi && Disjoint(old_)
    requires forall i :: 0 <= i < |old_| ==> !Overlap(old_[i], lo, hi)
    ensures Cut(old_, lo, hi) == old_
  {
    CutNoOverlap(old_, lo, hi);
  }

  /** Because the id is derived from the number of stored ranges, an insert that
      overwrites an older range entirely lets a later allocation reuse an id:
      inserting `[0, 10)` twice and then `[20, 30)` yields two live allocations
      with id 2. */
  lemma OverwriteReusesId(name: Option<string>)
    ensures var e1 := [Entry(0, 10, Allocation(1, name, 0, Some(10)))];
      var e2 := Cut(e1, 0, 10) + [Entry(0, 10, Allocation(|e1| + 1, name, 0, Some(10)))];
      var e3 := Cut(e2, 20, 30) + [Entry(20, 30, Allocation(|e2| + 1, name, 20, Some(30)))];
      |e3| == 2 && e3[0].value.id == 2 && e3[1].value.id == 2 && e3[0].value != e3[1].value
  {
    var e1 := [Entry(0, 10, Allocation(1, name, 0, Some(10)))];
    assert Cut(e1, 0, 10) == [] by {
      assert Cut(e1[1..], 0, 10) == [];
    }
    var e2 := Cut(e1, 0, 10) + [Entry(0, 10, Allocation(|e1| + 1, name, 0, Some(10)))];
    assert Cut(e2, 20, 30) == e2 by {
      CutNoOverlap(e2, 20, 30);
    }
  }
}
