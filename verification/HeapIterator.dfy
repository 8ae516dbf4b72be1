/** `TableHeapIterator` of `execution/table_heap.go` on a table that does not change: it
    yields every live row once, in page and slot order, and gives back exactly the pins
    and latches it took, each only while it has it. */
module HeapIterator {
  import opened PageBytes
  import opened Records
  import opened HeapPages
  import opened HeapPageFrames
  import opened HeapSlots
  import opened TableHeaps

  // The live rows in order.

  datatype Entry = Entry(rid: RecordID, row: Bytes)

  /** For each page, the state of its slots. */
  type SlotTable = seq<seq<SlotState>>

  ghost function EntryOf(s: SlotState, k: nat, i: nat): seq<Entry> {
    if s.Live? then [Entry(RecordID(k, i), s.row)] else []
  }

  ghost function LiveOnPage(slots: seq<SlotState>, k: nat, i: nat): seq<Entry>
    decreases |slots| - i
  {
    if i >= |slots| then [] else EntryOf(slots[i], k, i) + LiveOnPage(slots, k, i + 1)
  }

  ghost function LiveFrom(table: SlotTable, k: nat, i: nat): seq<Entry>
    decreases |table| - k
  {
    if k >= |table| then [] else LiveOnPage(table[k], k, i) + LiveFrom(table, k + 1, 0)
  }

  lemma NextSlot(table: SlotTable, k: nat, i: nat)
    requires k < |table| && i < |table[k]|
    ensures LiveFrom(table, k, i) == EntryOf(table[k][i], k, i) + LiveFrom(table, k, i + 1)
  {
  }

  lemma NextPage(table: SlotTable, k: nat, i: nat)
    requires k < |table| && i >= |table[k]|
    ensures LiveFrom(table, k, i) == LiveFrom(table, k + 1, 0)
  {
  }

  predicate Before(a: RecordID, b: RecordID) {
    a.page < b.page || (a.page == b.page && a.slot < b.slot)
  }

  ghost predicate Ordered(entries: seq<Entry>) {
    forall i, j :: 0 <= i < j < |entries| ==> Before(entries[i].rid, entries[j].rid)
  }

  lemma OrderedConcat(a: seq<Entry>, b: seq<Entry>)
    requires Ordered(a) && Ordered(b) && forall x, y :: x in a && y in b ==> Before(x.rid, y.rid)
    ensures Ordered(a + b)
  {
    forall i, j | 0 <= i < j < |a + b|
      ensures Before((a + b)[i].rid, (a + b)[j].rid)
    {
      if i < |a| <= j {
        assert a[i] in a && b[j - |a|] in b;
      }
    }
  }

  predicate OnPage(slots: seq<SlotState>, k: nat, i: nat, e: Entry) {
    e.rid.page == k && i <= e.rid.slot < |slots| && slots[e.rid.slot] == Live(e.row)
  }

  lemma {:induction false} LiveOnPageIsOrdered(slots: seq<SlotState>, k: nat, i: nat)
    ensures Ordered(LiveOnPage(slots, k, i))
    ensures forall e :: e in LiveOnPage(slots, k, i) <==> OnPage(slots, k, i, e)
    decreases |slots| - i
  {
    if i < |slots| {
      LiveOnPageIsOrdered(slots, k, i + 1);
      OrderedConcat(EntryOf(slots[i], k, i), LiveOnPage(slots, k, i + 1));
    }
  }

  predicate InTable(table: SlotTable, e: Entry) {
    0 <= e.rid.page < |table| && OnPage(table[e.rid.page], e.rid.page, 0, e)
  }

  lemma {:induction false} LiveFromIsOrdered(table: SlotTable, k: nat)
    ensures Ordered(LiveFrom(table, k, 0))
    ensures forall e :: e in LiveFrom(table, k, 0) <==> e.rid.page >= k && InTable(table, e)
    decreases |table| - k
  {
    if k < |table| {
      LiveOnPageIsOrdered(table[k], k, 0);
      LiveFromIsOrdered(table, k + 1);
      OrderedConcat(LiveOnPage(table[k], k, 0), LiveFrom(table, k + 1, 0));
    }
  }

  ghost function SlotsOf(p: Bytes): seq<SlotState>
    requires WellLaid(p)
  {
    seq(NumSlots(p), i requires 0 <= i < NumSlots(p) => PageSlot(p, i))
  }

  ghost predicate DescribesPage(table: SlotTable, pages: seq<Bytes>, rowSize: nat, k: int) {
    0 <= k < |table| == |pages| && PageValid(pages[k], rowSize) && table[k] == SlotsOf(pages[k])
  }

  /** The table lists, page by page, the slots of valid pages. */
  ghost predicate Describes(table: SlotTable, pages: seq<Bytes>, rowSize: nat) {
    |table| == |pages| && forall k :: 0 <= k < |pages| ==> DescribesPage(table, pages, rowSize, k)
  }

  ghost function TableOf(pages: seq<Bytes>, rowSize: nat): (table: SlotTable)
    requires AllValid(pages, rowSize)
    ensures Describes(table, pages, rowSize)
  {
    seq(|pages|, k requires 0 <= k < |pages| => SlotsOf(pages[k]))
  }

  lemma LiveSlotInRange(p: Bytes, rowSize: nat, i: int)
    requires PageValid(p, rowSize) && PageSlot(p, i).Live?
    ensures 0 <= i < NumSlots(p)
  {
  }

  lemma InTableIsLive(table: SlotTable, pages: seq<Bytes>, rowSize: nat, e: Entry)
    requires Describes(table, pages, rowSize)
    ensures InTable(table, e) <==> StateOf(pages, e.rid) == Live(e.row)
  {
    if 0 <= e.rid.page < |pages| {
      assert DescribesPage(table, pages, rowSize, e.rid.page);
      if PageSlot(pages[e.rid.page], e.rid.slot).Live? {
        LiveSlotInRange(pages[e.rid.page], rowSize, e.rid.slot);
      }
    }
  }

  /** What a scan is to yield: each live row once, in page and slot order. */
  lemma EntriesAreTheLiveRows(table: SlotTable, pages: seq<Bytes>, rowSize: nat)
    requires Describes(table, pages, rowSize)
    ensures Ordered(LiveFrom(table, 0, 0))
    ensures forall e :: e in LiveFrom(table, 0, 0) <==> StateOf(pages, e.rid) == Live(e.row)
    ensures forall i, j :: 0 <= i < j < |LiveFrom(table, 0, 0)| ==>
      LiveFrom(table, 0, 0)[i].rid != LiveFrom(table, 0, 0)[j].rid
  {
    var entries := LiveFrom(table, 0, 0);
    LiveFromIsOrdered(table, 0);
    forall e: Entry
      ensures e in entries <==> StateOf(pages, e.rid) == Live(e.row)
    {
      InTableIsLive(table, pages, rowSize, e);
    }
    forall i, j | 0 <= i < j < |entries|
      ensures entries[i].rid != entries[j].rid
    {
      assert Before(entries[i].rid, entries[j].rid);
    }
  }

  // The pages behind the iterator.

  /** The table's file behind the buffer pool; its pages do not change. */
  class HeapFile {
    const pages: seq<Bytes>
    ghost const rowSize: nat
    ghost const table: SlotTable

    ghost predicate Valid() {
      Describes(table, pages, rowSize)
    }

    constructor (pages: seq<Bytes>, ghost rowSize: nat)
      requires AllValid(pages, rowSize)
      ensures Valid() && this.pages == pages && this.rowSize == rowSize
    {
      this.pages := pages;
      this.rowSize := rowSize;
      this.table := TableOf(pages, rowSize);
    }

    method NumSlotsOf(k: nat) returns (n: nat)
      requires Valid() && k < |table|
      ensures n == |table[k]|
    {
      assert DescribesPage(table, pages, rowSize, k);
      return NumSlots(pages[k]);
    }

    /** Both bitmap lookups on the pinned frame. */
    method IsLiveAt(k: nat, i: nat) returns (live: bool)
      requires Valid() && k < |table| && i < |table[k]|
      ensures live == table[k][i].Live?
    {
      assert DescribesPage(table, pages, rowSize, k);
      var frame := LoadFrame(pages[k]);
      var heapPage := new HeapPage(frame);
      live := IsLive(heapPage, i);
    }

    method RowOf(k: nat, i: nat) returns (row: Bytes)
      requires Valid() && k < |table| && i < |table[k]| && table[k][i].Live?
      ensures table[k][i] == Live(row)
    {
      assert DescribesPage(table, pages, rowSize, k);
      var frame := LoadFrame(pages[k]);
      var heapPage := new HeapPage(frame);
      var start, end := heapPage.AccessTuple(i);
      return frame[start..end];
    }
  }

  // The position of a scan.

  datatype Cursor = Cursor(page: nat, slot: int, hasFrame: bool, hasLock: bool)

  ghost predicate CursorOk(c: Cursor, table: SlotTable) {
    && c.page <= |table| && -1 <= c.slot
    && (c.page < |table| ==> c.slot < |table[c.page]|)
    && (c.hasFrame ==> c.page < |table|)
    && (c.hasLock ==> c.hasFrame && 0 <= c.slot && table[c.page][c.slot].Live?)
  }

  /** The row under the cursor, while it is latched. */
  ghost function CurrentAt(c: Cursor, table: SlotTable): seq<Entry>
    requires CursorOk(c, table)
  {
    if c.hasLock then EntryOf(table[c.page][c.slot], c.page, c.slot) else []
  }

  /** The rows still to come. */
  ghost function RemainingAt(c: Cursor, table: SlotTable): seq<Entry>
    requires CursorOk(c, table)
  {
    LiveFrom(table, c.page, c.slot + 1)
  }

  // What the iterator takes from the buffer pool and gives back.

  datatype Resource = PagePin(page: int) | PageLatch(page: int)

  /** `GetPage` and `RLock` take; `UnpinPage` and `RUnlock` give back. */
  datatype Call = Take(what: Resource) | Give(what: Resource)

  /** How often `r` was taken less how often it was given back. */
  function Out(calls: seq<Call>, r: Resource): int {
    var taken: int, given: int := multiset(calls)[Take(r)], multiset(calls)[Give(r)];
    taken - given
  }

  /** Nothing was given back more often than taken, and latches are on pinned pages only. */
  ghost predicate InOrder(calls: seq<Call>) {
    forall p :: 0 <= Out(calls, PageLatch(p)) <= Out(calls, PagePin(p))
  }

  ghost predicate InOrderAfter(calls: seq<Call>, i: int) {
    0 <= i <= |calls| && InOrder(calls[..i])
  }

  /** That holds after each of the calls. */
  ghost predicate Disciplined(calls: seq<Call>) {
    forall i :: 0 <= i <= |calls| ==> InOrderAfter(calls, i)
  }

  /** Each pin and latch was given back as often as it was taken. */
  ghost predicate Settled(calls: seq<Call>) {
    forall r :: Out(calls, r) == 0
  }

  /** What an iterator at this position has to give back. */
  function Owned(c: Cursor, r: Resource): int {
    if (c.hasFrame && r == PagePin(c.page)) || (c.hasLock && r == PageLatch(c.page)) then 1 else 0
  }

  ghost predicate Accounted(calls: seq<Call>, c: Cursor) {
    Disciplined(calls) && forall r :: Out(calls, r) == Owned(c, r)
  }

  function Change(c: Call, r: Resource): int {
    if c == Take(r) then 1 else if c == Give(r) then -1 else 0
  }

  lemma OneMoreCall(calls: seq<Call>, c: Call, r: Resource)
    ensures Out(calls + [c], r) == Out(calls, r) + Change(c, r)
  {
  }

  lemma DisciplineExtends(calls: seq<Call>, c: Call)
    requires Disciplined(calls) && InOrder(calls + [c])
    ensures Disciplined(calls + [c])
  {
    var longer := calls + [c];
    forall i | 0 <= i <= |longer|
      ensures InOrderAfter(longer, i)
    {
      if i <= |calls| {
        assert InOrderAfter(calls, i);
        assert longer[..i] == calls[..i];
      } else {
        assert longer[..i] == longer;
      }
    }
  }

  /** A call that matches the change of position. */
  lemma AccountedAfter(calls: seq<Call>, c: Cursor, call: Call, d: Cursor)
    requires Accounted(calls, c) && (d.hasLock ==> d.hasFrame)
    requires forall r :: Owned(d, r) == Owned(c, r) + Change(call, r)
    ensures Accounted(calls + [call], d)
  {
    forall r
      ensures Out(calls + [call], r) == Owned(d, r)
    {
      OneMoreCall(calls, call, r);
    }
    DisciplineExtends(calls, call);
  }

  lemma AccountedAtStart(c: Cursor)
    requires !c.hasFrame && !c.hasLock
    ensures Accounted([], c)
  {
    forall i | 0 <= i <= 0
      ensures InOrderAfter([], i)
    {
    }
  }

  lemma AccountedElsewhere(calls: seq<Call>, c: Cursor, d: Cursor)
    requires Accounted(calls, c) && forall r :: Owned(d, r) == Owned(c, r)
    ensures Accounted(calls, d)
  {
  }

  lemma SettledAtRest(calls: seq<Call>, c: Cursor)
    requires Accounted(calls, c) && !c.hasFrame && !c.hasLock
    ensures Settled(calls)
  {
  }

  // The iterator.

  class TableHeapIterator {
    const heap: HeapFile
    const numPages: nat
    var currentPageNum: nat
    var currentSlot: int
    var hasFrame: bool
    var hasLock: bool
    /** The calls this iterator has made, in order. */
    var calls: seq<Call>

    function Position(): Cursor
      reads this
    {
      Cursor(currentPageNum, currentSlot, hasFrame, hasLock)
    }

    ghost predicate Valid()
      reads this
    {
      numPages == |heap.table| && CursorOk(Position(), heap.table) && Accounted(calls, Position())
    }

    ghost function Current(): seq<Entry>
      requires Valid()
      reads this
    {
      CurrentAt(Position(), heap.table)
    }

    ghost function Remaining(): seq<Entry>
      requires Valid()
      reads this
    {
      RemainingAt(Position(), heap.table)
    }

    constructor (heap: HeapFile)
      requires heap.Valid()
      ensures Valid() && this.heap == heap && Remaining() == LiveFrom(heap.table, 0, 0) && !hasLock && calls == []
    {
      this.heap := heap;
      numPages := |heap.pages|;
      currentPageNum := 0;
      currentSlot := -1;
      hasFrame, hasLock := false, false;
      calls := [];
      new;
      AccountedAtStart(Position());
    }

    method GetPage()
      requires Valid() && currentPageNum < numPages && !hasFrame
      modifies this`hasFrame, this`calls
      ensures Valid() && Position() == old(Position()).(hasFrame := true)
      ensures calls == old(calls) + [Take(PagePin(currentPageNum))]
    {
      var call := Take(PagePin(currentPageNum));
      AccountedAfter(calls, Position(), call, Position().(hasFrame := true));
      calls := calls + [call];
      hasFrame := true;
    }

    method UnpinPage()
      requires Valid() && hasFrame && !hasLock
      modifies this`hasFrame, this`calls
      ensures Valid() && Position() == old(Position()).(hasFrame := false)
      ensures calls == old(calls) + [Give(PagePin(currentPageNum))]
    {
      var call := Give(PagePin(currentPageNum));
      AccountedAfter(calls, Position(), call, Position().(hasFrame := false));
      calls := calls + [call];
      hasFrame := false;
    }

    method RUnlock()
      requires Valid() && hasLock
      modifies this`hasLock, this`calls
      ensures Valid() && Position() == old(Position()).(hasLock := false)
      ensures calls == old(calls) + [Give(PageLatch(currentPageNum))]
    {
      var call := Give(PageLatch(currentPageNum));
      AccountedAfter(calls, Position(), call, Position().(hasLock := false));
      calls := calls + [call];
      hasLock := false;
    }

    /** Leaves the exhausted page. */
    method Advance()
      requires Valid() && hasFrame && !hasLock && currentSlot + 1 >= |heap.table[currentPageNum]|
      modifies this`currentPageNum, this`currentSlot, this`hasFrame, this`calls
      ensures Valid() && Position() == Cursor(old(currentPageNum) + 1, -1, false, false) && old(calls) <= calls
    {
      UnpinPage();
      AccountedElsewhere(calls, Position(), Cursor(currentPageNum + 1, -1, false, false));
      currentPageNum := currentPageNum + 1;
      currentSlot := -1;
    }

    /** Looks at the next slot of the pinned page, under its latch, and keeps the latch if
        the slot is live. */
    method TrySlot() returns (live: bool)
      requires Valid() && heap.Valid() && hasFrame && !hasLock && currentSlot + 1 < |heap.table[currentPageNum]|
      modifies this`currentSlot, this`hasLock, this`calls
      ensures live == heap.table[currentPageNum][old(currentSlot) + 1].Live?
      ensures Valid() && Position() == old(Position()).(slot := old(currentSlot) + 1, hasLock := live)
      ensures old(calls) <= calls
    {
      var here := Position().(slot := currentSlot + 1);
      AccountedElsewhere(calls, Position(), here);
      AccountedAfter(calls, here, Take(PageLatch(currentPageNum)), here.(hasLock := true));
      calls := calls + [Take(PageLatch(currentPageNum))];
      live := heap.IsLiveAt(currentPageNum, currentSlot + 1);
      currentSlot := currentSlot + 1;
      if live {
        hasLock := true;
      } else {
        AccountedAfter(calls, here.(hasLock := true), Give(PageLatch(currentPageNum)), here);
        calls := calls + [Give(PageLatch(currentPageNum))];
      }
    }

    /** One turn of the loop of `Next`. */
    method Step() returns (live: bool)
      requires Valid() && heap.Valid() && currentPageNum < numPages && !hasLock
      modifies this`currentPageNum, this`currentSlot, this`hasFrame, this`hasLock, this`calls
      ensures Valid() && live == hasLock && old(calls) <= calls
      ensures Stepped(old(Position()), Position(), heap.table)
    {
      ghost var start := Position();
      if !hasFrame {
        GetPage();
      }
      var n := heap.NumSlotsOf(currentPageNum);
      if currentSlot + 1 >= n {
        Advance();
        live := false;
      } else {
        live := TrySlot();
      }
      StepStays(start, Position(), heap.table);
    }

    /** The loop of `Next`. */
    method Search() returns (more: bool)
      requires Valid() && heap.Valid() && !hasLock
      modifies this`currentPageNum, this`currentSlot, this`hasFrame, this`hasLock, this`calls
      ensures Valid() && more == hasLock && old(calls) <= calls && (!more ==> currentPageNum == numPages)
      ensures Found(old(Position()), Position(), heap.table)
    {
      ghost var start := Position();
      more := false;
      FoundHere(start, heap.table);
      while !more && currentPageNum < numPages
        invariant Valid() && more == hasLock && old(calls) <= calls
        invariant Found(start, Position(), heap.table)
        decreases Distance(Position(), heap.table).0, Distance(Position(), heap.table).1
      {
        ghost var before := Position();
        more := Step();
        FoundFurther(start, before, Position(), heap.table);
      }
    }

    /** Moves to the next live row. At the end everything has been given back. */
    method Next() returns (more: bool)
      requires Valid() && heap.Valid()
      modifies this`currentPageNum, this`currentSlot, this`hasFrame, this`hasLock, this`calls
      ensures Valid() && more == hasLock && old(calls) <= calls
      ensures old(Remaining()) == Current() + Remaining()
      ensures !more ==> Remaining() == [] && Settled(calls)
    {
      if hasLock {
        RUnlock();
      }
      more := Search();
      if !more {
        SettledAtRest(calls, Position());
        AccountedElsewhere(calls, Position(), Position().(slot := currentSlot + 1));
        currentSlot := currentSlot + 1;
      }
    }

    method CurrentTuple() returns (e: Entry)
      requires Valid() && heap.Valid() && hasLock
      ensures Current() == [e]
    {
      var row := heap.RowOf(currentPageNum, currentSlot);
      return Entry(RecordID(currentPageNum, currentSlot), row);
    }

    /** Gives back exactly what is still out, latch first, at any point of the scan. */
    method Close()
      requires Valid()
      modifies this`hasFrame, this`hasLock, this`calls
      ensures Valid() && Settled(calls)
      ensures calls == old(calls)
                       + (if old(hasLock) then [Give(PageLatch(currentPageNum))] else [])
                       + (if old(hasFrame) then [Give(PagePin(currentPageNum))] else [])
    {
      if hasLock {
        RUnlock();
      }
      if hasFrame {
        UnpinPage();
      }
      SettledAtRest(calls, Position());
    }
  }

  ghost function Distance(c: Cursor, table: SlotTable): (int, int) {
    if c.page < |table| then (|table| - c.page, |table[c.page]| - c.slot) else (0, 0)
  }

  /** One turn takes at most one row off what remains, namely the one it stops at. */
  ghost predicate Stepped(c: Cursor, d: Cursor, table: SlotTable) {
    && CursorOk(c, table) && CursorOk(d, table)
    && RemainingAt(c, table) == CurrentAt(d, table) + RemainingAt(d, table)
    && (Distance(d, table).0 < Distance(c, table).0
        || (Distance(d, table).0 == Distance(c, table).0 && Distance(d, table).1 < Distance(c, table).1))
  }

  ghost predicate Found(c: Cursor, d: Cursor, table: SlotTable) {
    CursorOk(c, table) && CursorOk(d, table) && RemainingAt(c, table) == CurrentAt(d, table) + RemainingAt(d, table)
  }

  lemma FoundHere(c: Cursor, table: SlotTable)
    requires CursorOk(c, table) && !c.hasLock
    ensures Found(c, c, table)
  {
  }

  lemma FoundFurther(c: Cursor, d: Cursor, e: Cursor, table: SlotTable)
    requires Found(c, d, table) && !d.hasLock && Stepped(d, e, table)
    ensures Found(c, e, table)
  {
  }

  lemma StepStays(c: Cursor, d: Cursor, table: SlotTable)
    requires CursorOk(c, table) && CursorOk(d, table) && c.page < |table| && !c.hasLock
    requires if c.slot + 1 >= |table[c.page]| then d == Cursor(c.page + 1, -1, false, false)
             else d == Cursor(c.page, c.slot + 1, true, table[c.page][c.slot + 1].Live?)
    ensures Stepped(c, d, table)
  {
    if c.slot + 1 >= |table[c.page]| {
      NextPage(table, c.page, c.slot + 1);
    } else {
      NextSlot(table, c.page, c.slot + 1);
    }
  }

  /** A whole scan, and the calls it made. */
  method Scan(heap: HeapFile) returns (entries: seq<Entry>, calls: seq<Call>)
    requires heap.Valid()
    ensures entries == LiveFrom(heap.table, 0, 0)
    ensures Disciplined(calls) && Settled(calls)
  {
    var it := new TableHeapIterator(heap);
    entries := [];
    ghost var all, left := it.Remaining(), it.Remaining();
    var more := it.Next();
    while more
      invariant it.Valid() && fresh(it) && it.heap == heap && more == it.hasLock
      invariant all == entries + left && left == it.Current() + it.Remaining()
      invariant !more ==> left == []
      decreases |left|
    {
      var e := it.CurrentTuple();
      left := it.Remaining();
      Associate(entries, [e], left);
      entries := entries + [e];
      more := it.Next();
    }
    it.Close();
    calls := it.calls;
  }

  lemma Associate(a: seq<Entry>, b: seq<Entry>, c: seq<Entry>)
    ensures a + (b + c) == (a + b) + c
  {
  }
}
