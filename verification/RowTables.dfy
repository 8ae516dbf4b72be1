/** A table heap seen as what its clients rely on: a map from record ids to rows. */
module RowTables {
  import opened PageBytes
  import opened Records
  import opened HeapPages
  import opened HeapSlots
  import opened TableHeaps
  import opened HeapIterator

  type Rows = map<RecordID, Bytes>

  ghost predicate RowAtRid(rows: Rows, pages: seq<Bytes>, rowSize: nat, rid: RecordID) {
    && (rid in rows <==> StateOf(pages, rid).Live?)
    && (rid in rows ==> StateOf(pages, rid) == Live(rows[rid]) && |rows[rid]| == rowSize)
  }

  ghost predicate Represents(rows: Rows, pages: seq<Bytes>, rowSize: nat) {
    forall rid :: RowAtRid(rows, pages, rowSize, rid)
  }

  lemma InsertRepresents(rows: Rows, before: seq<Bytes>, after: seq<Bytes>, rowSize: nat, rid: RecordID, row: Bytes)
    requires Represents(rows, before, rowSize) && |row| == rowSize
    requires OnlyRecord(before, after, rid) && StateOf(after, rid) == Live(row)
    ensures Represents(rows[rid := row], after, rowSize)
  {
    var updated := rows[rid := row];
    forall r
      ensures RowAtRid(updated, after, rowSize, r)
    {
      assert RowAtRid(rows, before, rowSize, r);
    }
  }

  lemma DeleteRepresents(rows: Rows, before: seq<Bytes>, after: seq<Bytes>, rowSize: nat, rid: RecordID)
    requires Represents(rows, before, rowSize)
    requires OnlyRecord(before, after, rid) && !StateOf(after, rid).Live?
    ensures Represents(rows - {rid}, after, rowSize)
  {
    forall r
      ensures RowAtRid(rows - {rid}, after, rowSize, r)
    {
      assert RowAtRid(rows, before, rowSize, r);
    }
  }

  lemma LiveIsAddressable(pages: seq<Bytes>, rowSize: nat, rid: RecordID)
    requires AllValid(pages, rowSize) && StateOf(pages, rid).Live?
    ensures 0 <= rid.page < |pages| && 0 <= rid.slot < Capacity(NumSlots(pages[rid.page]))
  {
  }

  class Table {
    const heap: TableHeap
    ghost var rows: Rows

    ghost predicate Valid()
      reads this, heap
    {
      heap.Valid() && Represents(rows, heap.pages, heap.rowSize)
    }

    constructor (rowSize: nat)
      requires LegalRowSize(rowSize)
      ensures Valid() && rows == map[] && heap.rowSize == rowSize && fresh(heap)
    {
      var h := new TableHeap(rowSize);
      heap := h;
      rows := map[];
      new;
      forall rid
        ensures RowAtRid(map[], heap.pages, rowSize, rid)
      {
        assert StateOf(heap.pages, rid) == Free;
      }
    }

    method Insert(row: Bytes) returns (rid: RecordID)
      requires Valid() && |row| == heap.rowSize
      modifies this, heap
      ensures Valid() && rid !in old(rows) && rows == old(rows)[rid := row]
    {
      assert Represents(rows, heap.pages, heap.rowSize);
      ghost var before := heap.pages;
      rid := heap.InsertTuple(row);
      assert RowAtRid(rows, before, heap.rowSize, rid);
      InsertRepresents(rows, before, heap.pages, heap.rowSize, rid, row);
      rows := rows[rid := row];
    }

    method Update(rid: RecordID, row: Bytes) returns (e: Outcome)
      requires Valid() && |row| == heap.rowSize && (rid in rows || heap.Addressable(rid))
      modifies this, heap
      ensures Valid() && (e == Done <==> rid in old(rows))
      ensures rows == if e == Done then old(rows)[rid := row] else old(rows)
    {
      ghost var before := heap.pages;
      assert RowAtRid(rows, before, heap.rowSize, rid);
      if rid in rows {
        LiveIsAddressable(before, heap.rowSize, rid);
      }
      e := heap.UpdateTuple(rid, row);
      if e == Done {
        InsertRepresents(rows, before, heap.pages, heap.rowSize, rid, row);
        rows := rows[rid := row];
      }
    }

    method Delete(rid: RecordID) returns (e: Outcome)
      requires Valid() && (rid in rows || heap.Addressable(rid))
      modifies this, heap
      ensures Valid() && (e == Done <==> rid in old(rows))
      ensures rows == if e == Done then old(rows) - {rid} else old(rows)
    {
      ghost var before := heap.pages;
      assert RowAtRid(rows, before, heap.rowSize, rid);
      if rid in rows {
        LiveIsAddressable(before, heap.rowSize, rid);
      }
      e := heap.DeleteTuple(rid);
      if e == Done {
        DeleteRepresents(rows, before, heap.pages, heap.rowSize, rid);
        rows := rows - {rid};
      }
    }

    /** `ReadTuple` into a buffer of one row. */
    method Read(rid: RecordID) returns (e: Outcome, row: Bytes)
      requires Valid() && (rid in rows || heap.Addressable(rid))
      ensures e == Done <==> rid in rows
      ensures e == Done ==> row == rows[rid]
    {
      assert RowAtRid(rows, heap.pages, heap.rowSize, rid);
      if rid in rows {
        LiveIsAddressable(heap.pages, heap.rowSize, rid);
      }
      var buffer := new Byte[heap.rowSize];
      e := heap.ReadTuple(rid, buffer);
      row := buffer[..];
    }

    /** A whole scan of the table. */
    method ScanAll() returns (entries: seq<Entry>)
      requires Valid()
      ensures forall e :: e in entries <==> e.rid in rows && rows[e.rid] == e.row
      ensures forall i, j :: 0 <= i < j < |entries| ==> entries[i].rid != entries[j].rid
    {
      var file := new HeapFile(heap.pages, heap.rowSize);
      var calls;
      entries, calls := Scan(file);
      EntriesAreTheLiveRows(file.table, heap.pages, heap.rowSize);
      forall e: Entry
        ensures e in entries <==> e.rid in rows && rows[e.rid] == e.row
      {
        assert RowAtRid(rows, heap.pages, heap.rowSize, e.rid);
      }
    }
  }
}
