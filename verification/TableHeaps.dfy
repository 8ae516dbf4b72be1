/** `execution/table_heap.go`, one operation at a time: a table of slotted pages behaves
    as a map from record ids to rows. The table's pages are the plain page map that the
    buffer pool stands for; an operation works on the bytes of a frame holding the page,
    and unpinning it dirty makes the new bytes the page's. */
module TableHeaps {
  import opened PageBytes
  import opened Records
  import opened Bitmaps
  import opened HeapPages
  import opened HeapPageFrames
  import opened HeapSlots

  datatype Outcome = Done | TupleDeleted | IOError

  ghost predicate PageValid(p: Bytes, rowSize: nat) {
    WellLaid(p) && RowSize(p) == rowSize && IsMaxSlots(rowSize, NumSlots(p)) && PageOk(View(p))
  }

  ghost function PageSlot(p: Bytes, i: int): SlotState {
    if WellLaid(p) && 0 <= i < Capacity(NumSlots(p)) then SlotAt(View(p), i) else Free
  }

  /** The table as a map: what a record id stands for. */
  ghost function StateOf(pages: seq<Bytes>, rid: RecordID): SlotState {
    if 0 <= rid.page < |pages| then PageSlot(pages[rid.page], rid.slot) else Free
  }

  /** Every other record id means what it meant. */
  ghost predicate OnlyRecord(before: seq<Bytes>, after: seq<Bytes>, rid: RecordID) {
    forall r :: r != rid ==> StateOf(after, r) == StateOf(before, r)
  }

  ghost predicate Full(p: Bytes) {
    WellLaid(p) && forall i :: 0 <= i < NumSlots(p) ==> PageSlot(p, i) != Free
  }

  ghost predicate OnlyPageSlot(p: Bytes, q: Bytes, i: int) {
    forall j :: j != i ==> PageSlot(q, j) == PageSlot(p, j)
  }

  lemma SlotChanged(p: Bytes, q: Bytes, i: nat)
    requires WellLaid(p) && WellLaid(q) && OnlySlot(View(p), View(q), i)
    ensures OnlyPageSlot(p, q, i)
  {
  }

  /** A page rewritten at one slot only. */
  lemma PageChanged(pages: seq<Bytes>, k: nat, q: Bytes, i: int)
    requires k < |pages| && OnlyPageSlot(pages[k], q, i)
    ensures OnlyRecord(pages, pages[k := q], RecordID(k, i))
    ensures StateOf(pages[k := q], RecordID(k, i)) == PageSlot(q, i)
  {
    forall r | r != RecordID(k, i)
      ensures StateOf(pages[k := q], r) == StateOf(pages, r)
    {
    }
  }

  /** A page added. */
  lemma PageAdded(pages: seq<Bytes>, q: Bytes)
    requires forall i :: i != 0 ==> PageSlot(q, i) == Free
    ensures OnlyRecord(pages, pages + [q], RecordID(|pages|, 0))
    ensures StateOf(pages + [q], RecordID(|pages|, 0)) == PageSlot(q, 0)
  {
    forall r | r != RecordID(|pages|, 0)
      ensures StateOf(pages + [q], r) == StateOf(pages, r)
    {
    }
  }

  ghost predicate AllValid(pages: seq<Bytes>, rowSize: nat) {
    forall k :: 0 <= k < |pages| ==> PageValid(pages[k], rowSize)
  }

  /** The slot holds the row: a full row exactly, a short one as a prefix. */
  ghost predicate Holds(s: SlotState, row: Bytes, rowSize: nat) {
    && s.Live? && |s.row| == rowSize && CopyInto(s.row, row) == s.row
    && (|row| == rowSize ==> s == Live(row))
  }

  ghost predicate PageInserted(p: Bytes, q: Bytes, slot: int, row: Bytes, rowSize: nat) {
    PageSlot(p, slot) == Free && Holds(PageSlot(q, slot), row, rowSize) && OnlyPageSlot(p, q, slot)
  }

  /** The id was neither live nor tombstoned, it now holds the row, and no other changed. */
  ghost predicate InsertedAt(before: seq<Bytes>, after: seq<Bytes>, rid: RecordID, row: Bytes, rowSize: nat) {
    StateOf(before, rid) == Free && Holds(StateOf(after, rid), row, rowSize) && OnlyRecord(before, after, rid)
  }

  lemma InsertedInPage(pages: seq<Bytes>, k: nat, q: Bytes, slot: int, row: Bytes, rowSize: nat)
    requires k < |pages| && AllValid(pages, rowSize) && PageValid(q, rowSize)
    requires PageInserted(pages[k], q, slot, row, rowSize)
    ensures AllValid(pages[k := q], rowSize) && InsertedAt(pages, pages[k := q], RecordID(k, slot), row, rowSize)
  {
    PageChanged(pages, k, q, slot);
  }

  // One page in a frame.

  method LoadFrame(page: Bytes) returns (frame: array<Byte>)
    requires |page| == PAGE_SIZE
    ensures fresh(frame) && frame[..] == page
  {
    frame := new Byte[PAGE_SIZE];
    forall i | 0 <= i < PAGE_SIZE {
      frame[i] := page[i];
    }
    assert frame[..] == page;
  }

  /** The first free slot, if there is one. */
  method FreeSlot(heapPage: HeapPage) returns (slot: int)
    requires heapPage.Attached() && PageOk(heapPage.Page())
    ensures slot == -1 ==> Full(heapPage.bytes[..])
    ensures slot != -1 ==> 0 <= slot < heapPage.Page().numSlots && SlotAt(heapPage.Page(), slot) == Free
    ensures FirstFree(heapPage.bytes[..], slot)
  {
    ghost var v := heapPage.Page();
    slot := heapPage.FindFreeSlot();
    ScanGivesUp(v.alloc[..v.numSlots], 0);
    FirstZeroIsFirstFree(heapPage.bytes[..], v, slot);
    if slot == -1 {
      assert forall i :: 0 <= i < v.numSlots ==> v.alloc[i] == v.alloc[..v.numSlots][i];
    }
  }

  lemma BitsBeforeFirstZero(bits: seq<bool>, r: int)
    requires |bits| > 0 && CyclicScan(bits, 0) == r
    ensures forall j :: 0 <= j < r && j < |bits| ==> bits[j]
  {
    ScanIsFirstZero(bits, 0, r);
    if r != -1 {
      forall j | 0 <= j < r
        ensures bits[j]
      {
        assert Ahead(|bits|, 0, j) < Ahead(|bits|, 0, r);
      }
    }
  }

  lemma FirstZeroIsFirstFree(p: Bytes, v: PageView, slot: int)
    requires WellLaid(p) && v == View(p) && PageOk(v) && slot == CyclicScan(v.alloc[..v.numSlots], 0)
    ensures FirstFree(p, slot)
  {
    var bits := v.alloc[..v.numSlots];
    BitsBeforeFirstZero(bits, slot);
    assert forall j :: 0 <= j < v.numSlots ==> bits[j] == v.alloc[j];
  }

  /** No slot before this one is free. */
  ghost predicate FirstFree(p: Bytes, slot: int) {
    WellLaid(p) && forall j :: 0 <= j < slot && j < NumSlots(p) ==> PageSlot(p, j) != Free
  }

  method InsertIntoPage(frame: array<Byte>, row: Bytes, ghost rowSize: nat) returns (slot: int)
    requires frame.Length == PAGE_SIZE && PageValid(frame[..], rowSize)
    modifies frame
    ensures PageValid(frame[..], rowSize)
    ensures slot == -1 ==> frame[..] == old(frame[..]) && Full(frame[..])
    ensures slot != -1 ==> PageInserted(old(frame[..]), frame[..], slot, row, rowSize)
    ensures slot != -1 ==> FirstFree(old(frame[..]), slot)
  {
    var heapPage := new HeapPage(frame);
    ghost var p, v := frame[..], heapPage.Page();
    slot := FreeSlot(heapPage);
    if slot != -1 {
      InsertedOk(v, slot, row);
      heapPage.MarkAllocated(slot, true);
      heapPage.CopyIn(slot, row);
      SlotChanged(p, frame[..], slot);
    }
  }

  /** Pin the page, insert into its frame and unpin it. */
  method InsertIntoCopy(page: Bytes, row: Bytes, ghost rowSize: nat) returns (slot: int, after: Bytes)
    requires PageValid(page, rowSize)
    ensures PageValid(after, rowSize)
    ensures slot == -1 ==> Full(page)
    ensures slot != -1 ==> PageInserted(page, after, slot, row, rowSize) && FirstFree(page, slot)
  {
    var frame := LoadFrame(page);
    slot := InsertIntoPage(frame, row, rowSize);
    after := frame[..];
  }

  /** The id is the first free slot of the last page. */
  ghost predicate TakenFromLast(pages: seq<Bytes>, rid: RecordID) {
    |pages| > 0 && rid.page == |pages| - 1 && FirstFree(pages[rid.page], rid.slot)
  }

  /** Tries the last page. */
  method InsertIntoLast(pages: seq<Bytes>, row: Bytes, ghost rowSize: nat) returns (slot: int, after: seq<Bytes>)
    requires AllValid(pages, rowSize) && |pages| > 0
    ensures AllValid(after, rowSize) && |after| == |pages|
    ensures slot == -1 ==> after == pages && Full(pages[|pages| - 1])
    ensures slot != -1 ==> InsertedAt(pages, after, RecordID(|pages| - 1, slot), row, rowSize)
    ensures slot != -1 ==> TakenFromLast(pages, RecordID(|pages| - 1, slot))
  {
    var last := |pages| - 1;
    var page;
    slot, page := InsertIntoCopy(pages[last], row, rowSize);
    after := pages;
    if slot != -1 {
      InsertedInPage(pages, last, page, slot, row, rowSize);
      after := pages[last := page];
    }
  }

  /** Allocated and not deleted. */
  method IsLive(heapPage: HeapPage, slot: int) returns (live: bool)
    requires heapPage.Attached() && -64 < slot < Capacity(heapPage.Page().numSlots) && PageOk(heapPage.Page())
    ensures live <==> PageSlot(heapPage.bytes[..], slot).Live?
    ensures live ==> 0 <= slot < heapPage.Page().numSlots
  {
    var inUse := heapPage.IsAllocated(slot);
    var deleted := heapPage.IsDeleted(slot);
    return inUse && !deleted;
  }

  method UpdateInPage(frame: array<Byte>, slot: int, row: Bytes, ghost rowSize: nat) returns (live: bool)
    requires frame.Length == PAGE_SIZE && PageValid(frame[..], rowSize) && -64 < slot < Capacity(NumSlots(frame[..]))
    modifies frame
    ensures PageValid(frame[..], rowSize)
    ensures live <==> PageSlot(old(frame[..]), slot).Live?
    ensures !live ==> frame[..] == old(frame[..])
    ensures live ==> PageSlot(frame[..], slot) == Live(CopyInto(PageSlot(old(frame[..]), slot).row, row))
    ensures OnlyPageSlot(old(frame[..]), frame[..], slot)
  {
    var heapPage := new HeapPage(frame);
    ghost var p, v := frame[..], heapPage.Page();
    live := IsLive(heapPage, slot);
    if live {
      UpdatedOk(v, slot, row);
      heapPage.CopyIn(slot, row);
      SlotChanged(p, frame[..], slot);
    }
  }

  method DeleteInPage(frame: array<Byte>, slot: int, ghost rowSize: nat) returns (live: bool)
    requires frame.Length == PAGE_SIZE && PageValid(frame[..], rowSize) && -64 < slot < Capacity(NumSlots(frame[..]))
    modifies frame
    ensures PageValid(frame[..], rowSize)
    ensures live <==> PageSlot(old(frame[..]), slot).Live?
    ensures !live ==> frame[..] == old(frame[..])
    ensures live ==> PageSlot(frame[..], slot) == Tombstone
    ensures OnlyPageSlot(old(frame[..]), frame[..], slot)
  {
    var heapPage := new HeapPage(frame);
    ghost var p, v := frame[..], heapPage.Page();
    live := IsLive(heapPage, slot);
    if live {
      DeletedOk(v, slot);
      heapPage.MarkDeleted(slot, true);
      SlotChanged(p, frame[..], slot);
    }
  }

  ghost function AfterVacuum(s: SlotState): SlotState {
    if s == Tombstone then Free else s
  }

  lemma VacuumedPage(p: Bytes, q: Bytes, rowSize: nat)
    requires PageValid(p, rowSize) && WellLaid(q) && View(q) == Vacuumed(View(p), NumSlots(p))
    ensures PageValid(q, rowSize)
    ensures forall i :: PageSlot(q, i) == AfterVacuum(PageSlot(p, i))
  {
    VacuumedOk(View(p), NumSlots(p));
  }

  method VacuumFrame(frame: array<Byte>, ghost rowSize: nat)
    requires frame.Length == PAGE_SIZE && PageValid(frame[..], rowSize)
    modifies frame
    ensures PageValid(frame[..], rowSize)
    ensures forall i :: PageSlot(frame[..], i) == AfterVacuum(PageSlot(old(frame[..]), i))
  {
    ghost var p := frame[..];
    var heapPage := new HeapPage(frame);
    VacuumSlots(heapPage);
    VacuumedPage(p, frame[..], rowSize);
  }

  /** The vacuum loop; it takes no latch and looks at no lock. */
  method VacuumSlots(heapPage: HeapPage)
    requires heapPage.Attached()
    modifies heapPage.bytes
    ensures heapPage.Attached() && heapPage.Page() == Vacuumed(old(heapPage.Page()), old(heapPage.Page()).numSlots)
  {
    ghost var v, now := heapPage.Page(), heapPage.Page();
    var n := heapPage.Slots();
    var i := 0;
    while i < n
      invariant 0 <= i <= n == v.numSlots == now.numSlots <= |v.alloc| == |v.deleted|
      invariant heapPage.Attached() && heapPage.Page() == now && now == Vacuumed(v, i)
    {
      VacuumedNext(v, i);
      VacuumTurn(heapPage, i);
      now := VacuumSlot(now, i);
      i := i + 1;
    }
  }

  method VacuumTurn(heapPage: HeapPage, i: nat)
    requires heapPage.Attached() && i < Capacity(heapPage.Page().numSlots)
    modifies heapPage.bytes
    ensures heapPage.Attached() && heapPage.Page() == VacuumSlot(old(heapPage.Page()), i)
  {
    var deleted := heapPage.IsDeleted(i);
    var inUse := heapPage.IsAllocated(i);
    if deleted || !inUse {
      heapPage.MarkDeleted(i, false);
      heapPage.MarkAllocated(i, false);
    }
  }

  // The table.

  class TableHeap {
    var pages: seq<Bytes>
    const rowSize: nat

    ghost predicate Valid()
      reads this
    {
      LegalRowSize(rowSize) && AllValid(pages, rowSize)
    }

    /** The bitmap lookups of an existing page do not panic: see `Bitmap.InWords`. */
    predicate Addressable(rid: RecordID)
      requires Valid()
      reads this
    {
      0 <= rid.page < |pages| ==> -64 < rid.slot < Capacity(NumSlots(pages[rid.page]))
    }

    constructor (rowSize: nat)
      requires LegalRowSize(rowSize)
      ensures Valid() && this.rowSize == rowSize && forall rid :: StateOf(pages, rid) == Free
    {
      this.rowSize := rowSize;
      this.pages := [];
    }

    /** Returns an id that was neither live nor tombstoned, and changes no other row: the first
        free slot of the last page, or the first of a page added when that one is full. */
    method InsertTuple(row: Bytes) returns (rid: RecordID)
      requires Valid()
      modifies this
      ensures Valid()
      ensures InsertedAt(old(pages), pages, rid, row, rowSize)
      ensures |pages| == old(|pages|) || (|pages| == old(|pages|) + 1 && rid == RecordID(old(|pages|), 0))
      ensures |pages| > old(|pages|) > 0 ==> Full(old(pages[|pages| - 1]))
      ensures |pages| == old(|pages|) ==> TakenFromLast(old(pages), rid)
    {
      if |pages| > 0 {
        var slot;
        slot, pages := InsertIntoLast(pages, row, rowSize);
        if slot != -1 {
          rid := RecordID(|pages| - 1, slot);
          return;
        }
      }
      var page := NewPage(row);
      PageAdded(pages, page);
      pages := pages + [page];
      rid := RecordID(|pages| - 1, 0);
    }

    /** Initialise a page and put the row into its first slot. */
    method NewPage(row: Bytes) returns (page: Bytes)
      requires Valid()
      ensures PageValid(page, rowSize) && Holds(PageSlot(page, 0), row, rowSize)
      ensures forall i :: i != 0 ==> PageSlot(page, i) == Free
    {
      var frame := new Byte[PAGE_SIZE];
      ghost var n := InitializeHeapPage(rowSize, frame);
      FreshView(rowSize, n);
      var heapPage := new HeapPage(frame);
      ghost var v := heapPage.Page();
      FreshPageOk(v);
      InsertedOk(v, 0, row);
      heapPage.MarkAllocated(0, true);
      heapPage.CopyIn(0, row);
      page := frame[..];
    }

    /** Fails with `TupleDeleted` exactly on ids of the table that are not live. */
    method ReadTuple(rid: RecordID, buffer: array<Byte>) returns (e: Outcome)
      requires Valid() && Addressable(rid)
      modifies buffer
      ensures e == IOError <==> !(0 <= rid.page < |pages|)
      ensures e == Done <==> StateOf(pages, rid).Live?
      ensures buffer[..] == if e == Done then CopyInto(old(buffer[..]), StateOf(pages, rid).row) else old(buffer[..])
    {
      if !(0 <= rid.page < |pages|) {
        return IOError;
      }
      var frame := LoadFrame(pages[rid.page]);
      var heapPage := new HeapPage(frame);
      var live := IsLive(heapPage, rid.slot);
      if !live {
        return TupleDeleted;
      }
      heapPage.CopyOut(rid.slot, buffer);
      return Done;
    }

    method UpdateTuple(rid: RecordID, row: Bytes) returns (e: Outcome)
      requires Valid() && Addressable(rid)
      modifies this
      ensures Valid()
      ensures e == IOError <==> !(0 <= rid.page < |pages|)
      ensures e == Done <==> StateOf(old(pages), rid).Live?
      ensures e != Done ==> pages == old(pages)
      ensures e == Done ==> StateOf(pages, rid) == Live(CopyInto(StateOf(old(pages), rid).row, row))
      ensures OnlyRecord(old(pages), pages, rid)
    {
      if !(0 <= rid.page < |pages|) {
        return IOError;
      }
      var frame := LoadFrame(pages[rid.page]);
      var live := UpdateInPage(frame, rid.slot, row, rowSize);
      if !live {
        return TupleDeleted;
      }
      PageChanged(pages, rid.page, frame[..], rid.slot);
      pages := pages[rid.page := frame[..]];
      return Done;
    }

    method DeleteTuple(rid: RecordID) returns (e: Outcome)
      requires Valid() && Addressable(rid)
      modifies this
      ensures Valid()
      ensures e == IOError <==> !(0 <= rid.page < |pages|)
      ensures e == Done <==> StateOf(old(pages), rid).Live?
      ensures e != Done ==> pages == old(pages)
      ensures e == Done ==> StateOf(pages, rid) == Tombstone
      ensures OnlyRecord(old(pages), pages, rid)
    {
      if !(0 <= rid.page < |pages|) {
        return IOError;
      }
      var frame := LoadFrame(pages[rid.page]);
      var live := DeleteInPage(frame, rid.slot, rowSize);
      if !live {
        return TupleDeleted;
      }
      PageChanged(pages, rid.page, frame[..], rid.slot);
      pages := pages[rid.page := frame[..]];
      return Done;
    }

    /** Frees the tombstones of the page and nothing else. */
    method VacuumPage(page: int) returns (e: Outcome)
      requires Valid()
      modifies this
      ensures Valid()
      ensures e == if 0 <= page < |pages| then Done else IOError
      ensures forall rid: RecordID :: rid.page == page ==> StateOf(pages, rid) == AfterVacuum(StateOf(old(pages), rid))
      ensures forall rid: RecordID :: rid.page != page ==> StateOf(pages, rid) == StateOf(old(pages), rid)
    {
      if !(0 <= page < |pages|) {
        return IOError;
      }
      var frame := LoadFrame(pages[page]);
      VacuumFrame(frame, rowSize);
      pages := pages[page := frame[..]];
      return Done;
    }
  }
}
