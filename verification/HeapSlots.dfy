/** What a heap page means: the state of each slot, the invariant every table operation
    keeps, and what inserting, deleting, updating and vacuuming do to the slots. */
module HeapSlots {
  import opened PageBytes
  import opened HeapPages
  import opened HeapPageFrames

  datatype SlotState = Free | Live(row: Bytes) | Tombstone

  function SlotAt(v: PageView, i: nat): SlotState
    requires i < |v.alloc| == |v.deleted|
  {
    if !v.alloc[i] then Free
    else if v.deleted[i] then Tombstone
    else if i < |v.rows| then Live(v.rows[i]) else Free
  }

  function Count(bits: seq<bool>): nat {
    if bits == [] then 0 else Count(bits[..|bits| - 1]) + if bits[|bits| - 1] then 1 else 0
  }

  lemma {:induction false} CountUpdate(bits: seq<bool>, i: nat, on: bool)
    requires i < |bits|
    ensures Count(bits[i := on]) == Count(bits) + (if on then 1 else 0) - (if bits[i] then 1 else 0)
  {
    var n := |bits| - 1;
    if i == n {
      assert bits[i := on][..n] == bits[..n];
    } else {
      CountUpdate(bits[..n], i, on);
      assert bits[i := on][..n] == bits[..n][i := on];
    }
  }

  lemma {:induction false} CountBound(bits: seq<bool>)
    ensures Count(bits) <= |bits|
  {
    if bits != [] {
      CountBound(bits[..|bits| - 1]);
    }
  }

  lemma {:induction false} CountNone(bits: seq<bool>)
    requires forall i :: 0 <= i < |bits| ==> !bits[i]
    ensures Count(bits) == 0
  {
    if bits != [] {
      CountNone(bits[..|bits| - 1]);
    }
  }

  /** NumUsed counts the allocated bits, only allocated slots are deleted, and the padding
      after the last slot is free. */
  ghost predicate PageOk(v: PageView) {
    && 0 < v.numSlots <= PAGE_SIZE && |v.rows| == v.numSlots
    && |v.alloc| == |v.deleted| == Capacity(v.numSlots)
    && v.numUsed == Count(v.alloc)
    && (forall i :: 0 <= i < |v.alloc| && v.deleted[i] ==> v.alloc[i])
    && (forall i :: v.numSlots <= i < |v.alloc| ==> !v.alloc[i])
  }

  lemma UsedBound(v: PageView)
    requires PageOk(v)
    ensures v.numUsed <= PAGE_SIZE + 63
  {
    CountBound(v.alloc);
  }

  lemma FreshPageOk(v: PageView)
    requires 0 < v.numSlots <= PAGE_SIZE && |v.rows| == v.numSlots && v.numUsed == 0
    requires v.alloc == v.deleted == NoBitsSet(Capacity(v.numSlots))
    ensures PageOk(v) && forall i :: 0 <= i < |v.alloc| ==> SlotAt(v, i) == Free
  {
    CountNone(v.alloc);
  }

  /** Only slot `i` differs. */
  ghost predicate OnlySlot(v: PageView, w: PageView, i: nat) {
    && |v.alloc| == |v.deleted| == |w.alloc| == |w.deleted|
    && w.numSlots == v.numSlots && w.rowSize == v.rowSize
    && forall j :: 0 <= j < |v.alloc| && j != i ==> SlotAt(w, j) == SlotAt(v, j)
  }

  function Inserted(v: PageView, i: nat, row: Bytes): PageView
    requires i < |v.alloc| == |v.deleted| && i < |v.rows|
  {
    MarkedAllocated(v, i, true).(rows := v.rows[i := CopyInto(v.rows[i], row)])
  }

  lemma InsertedOk(v: PageView, i: nat, row: Bytes)
    requires PageOk(v) && i < v.numSlots && SlotAt(v, i) == Free
    ensures PageOk(Inserted(v, i, row)) && OnlySlot(v, Inserted(v, i, row), i)
    ensures SlotAt(Inserted(v, i, row), i) == Live(CopyInto(v.rows[i], row))
  {
    CountUpdate(v.alloc, i, true);
    UsedBound(v);
  }

  function Deleted(v: PageView, i: nat): PageView
    requires i < |v.deleted|
  {
    v.(deleted := v.deleted[i := true])
  }

  lemma DeletedOk(v: PageView, i: nat)
    requires PageOk(v) && i < |v.alloc| && SlotAt(v, i).Live?
    ensures PageOk(Deleted(v, i)) && OnlySlot(v, Deleted(v, i), i) && SlotAt(Deleted(v, i), i) == Tombstone
  {
  }

  function Updated(v: PageView, i: nat, row: Bytes): PageView
    requires i < |v.rows|
  {
    v.(rows := v.rows[i := CopyInto(v.rows[i], row)])
  }

  lemma UpdatedOk(v: PageView, i: nat, row: Bytes)
    requires PageOk(v) && i < v.numSlots && SlotAt(v, i).Live?
    ensures PageOk(Updated(v, i, row)) && OnlySlot(v, Updated(v, i, row), i)
    ensures SlotAt(Updated(v, i, row), i) == Live(CopyInto(v.rows[i], row))
  {
  }

  /** One turn of the vacuum loop. */
  function VacuumSlot(v: PageView, i: nat): (w: PageView)
    requires i < |v.alloc| == |v.deleted|
    ensures |w.alloc| == |v.alloc| && |w.deleted| == |v.deleted| && w.numSlots == v.numSlots
  {
    if v.deleted[i] || !v.alloc[i] then MarkedAllocated(v.(deleted := v.deleted[i := false]), i, false) else v
  }

  function Vacuumed(v: PageView, n: nat): (w: PageView)
    requires n <= |v.alloc| == |v.deleted|
    ensures |w.alloc| == |v.alloc| && |w.deleted| == |v.deleted| && w.numSlots == v.numSlots
  {
    if n == 0 then v else VacuumSlot(Vacuumed(v, n - 1), n - 1)
  }

  lemma VacuumedNext(v: PageView, i: nat)
    requires i < |v.alloc| == |v.deleted|
    ensures Vacuumed(v, i + 1) == VacuumSlot(Vacuumed(v, i), i)
  {
  }

  lemma VacuumSlotOk(v: PageView, i: nat)
    requires PageOk(v) && i < v.numSlots
    ensures PageOk(VacuumSlot(v, i)) && OnlySlot(v, VacuumSlot(v, i), i)
    ensures SlotAt(VacuumSlot(v, i), i) == if SlotAt(v, i).Live? then SlotAt(v, i) else Free
  {
    CountUpdate(v.alloc, i, false);
    UsedBound(v);
  }

  /** `w` is `v` with the tombstones among the first `n` slots freed. */
  ghost predicate VacuumedTo(v: PageView, w: PageView, n: nat) {
    && PageOk(w) && w.numSlots == v.numSlots && w.rowSize == v.rowSize
    && |w.alloc| == |v.alloc| == |v.deleted|
    && forall j :: 0 <= j < |v.alloc| ==>
      SlotAt(w, j) == if j < n && !SlotAt(v, j).Live? then Free else SlotAt(v, j)
  }

  lemma VacuumedNone(v: PageView)
    requires PageOk(v)
    ensures VacuumedTo(v, v, 0)
  {
  }

  lemma VacuumedFurther(v: PageView, w: PageView, i: nat)
    requires VacuumedTo(v, w, i) && i < v.numSlots
    ensures VacuumedTo(v, VacuumSlot(w, i), i + 1)
  {
    VacuumSlotOk(w, i);
  }

  /** Vacuuming frees the tombstones and changes no live row. */
  lemma {:induction false} VacuumedOk(v: PageView, n: nat)
    requires PageOk(v) && n <= v.numSlots
    ensures VacuumedTo(v, Vacuumed(v, n), n)
  {
    if n == 0 {
      VacuumedNone(v);
    } else {
      VacuumedOk(v, n - 1);
      VacuumedFurther(v, Vacuumed(v, n - 1), n - 1);
      VacuumedNext(v, n - 1);
    }
  }
}
