/** `storage/heap_page.go`: a 4096-byte slotted page.

    LSN (8) | RowSize (2) | NumSlots (2) | NumUsed (2) | padding (2)
    | allocation bitmap | deleted bitmap | rows

    The bytes are read through `View`, a record of the page's parts. Every write of the
    code changes the one part it is meant to change and nothing else. */
module HeapPages {
  import Bits
  import opened PageBytes
  import opened Bitmaps

  const PAGE_SIZE: nat := 4096

  // Layout.

  function BitmapBytes(numSlots: nat): nat {
    WordsFor(numSlots) * 8
  }

  function TupleOffset(numSlots: nat): nat {
    16 + 2 * BitmapBytes(numSlots)
  }

  /** The bytes of `n` rows; `RowBytesIsProduct` says it is the product. */
  function RowBytes(n: nat, rowSize: nat): nat {
    if n == 0 then 0 else RowBytes(n - 1, rowSize) + rowSize
  }

  lemma {:induction false} RowBytesIsProduct(n: nat, rowSize: nat)
    ensures RowBytes(n, rowSize) == n * rowSize
  {
    if n > 0 {
      RowBytesIsProduct(n - 1, rowSize);
      assert n * rowSize == (n - 1) * rowSize + rowSize;
    }
  }

  lemma {:induction false} RowBytesGrows(m: nat, n: nat, rowSize: nat)
    requires m <= n
    ensures RowBytes(m, rowSize) <= RowBytes(n, rowSize)
  {
    if m < n {
      RowBytesGrows(m, n - 1, rowSize);
    }
  }

  /** Bytes taken by a page of `numSlots` rows. */
  function SizeNeeded(rowSize: nat, numSlots: nat): nat {
    TupleOffset(numSlots) + RowBytes(numSlots, rowSize)
  }

  /** The page in numbers: a header of 16 bytes, two bitmaps of a 64-bit word per 64 slots, the
      rows behind each other. */
  lemma PageLayout(rowSize: nat, n: nat, i: nat)
    ensures SizeNeeded(rowSize, n) == 16 + 2 * (8 * ((n + 63) / 64)) + n * rowSize
    ensures TupleOffset(n) + RowBytes(i, rowSize) == 16 + 2 * (8 * ((n + 63) / 64)) + i * rowSize
  {
    RowBytesIsProduct(n, rowSize);
    RowBytesIsProduct(i, rowSize);
  }

  /** The largest number of slots that fits. */
  ghost predicate IsMaxSlots(rowSize: nat, n: nat) {
    && n <= PAGE_SIZE && (n > 0 ==> SizeNeeded(rowSize, n) <= PAGE_SIZE)
    && forall m :: n < m <= PAGE_SIZE ==> SizeNeeded(rowSize, m) > PAGE_SIZE
  }

  function RowSize(p: Bytes): nat
    requires |p| == PAGE_SIZE
  {
    Uint16(p, 8)
  }

  function NumSlots(p: Bytes): nat
    requires |p| == PAGE_SIZE
  {
    Uint16(p, 10)
  }

  function NumUsed(p: Bytes): nat
    requires |p| == PAGE_SIZE
  {
    Uint16(p, 12)
  }

  /** The header describes a page that has slots and whose slots lie inside the page. */
  predicate WellLaid(p: Bytes) {
    |p| == PAGE_SIZE && NumSlots(p) > 0 && SizeNeeded(RowSize(p), NumSlots(p)) <= PAGE_SIZE
  }

  function RowOffset(rowSize: nat, numSlots: nat, i: nat): nat {
    TupleOffset(numSlots) + RowBytes(i, rowSize)
  }

  lemma RowInPage(rowSize: nat, n: nat, i: nat)
    requires i < n
    ensures RowOffset(rowSize, n, i) + rowSize <= SizeNeeded(rowSize, n)
  {
    RowBytesGrows(i + 1, n, rowSize);
  }

  /** Slots do not overlap. */
  lemma RowsApart(rowSize: nat, n: nat, i: nat, j: nat)
    ensures i < j ==> RowOffset(rowSize, n, i) + rowSize <= RowOffset(rowSize, n, j)
    ensures j < i ==> RowOffset(rowSize, n, j) + rowSize <= RowOffset(rowSize, n, i)
  {
    if i < j {
      RowBytesGrows(i + 1, j, rowSize);
    } else if j < i {
      RowBytesGrows(j + 1, i, rowSize);
    }
  }

  function RowAt(p: Bytes, rowSize: nat, n: nat, i: nat): (row: Bytes)
    requires |p| == PAGE_SIZE && SizeNeeded(rowSize, n) <= PAGE_SIZE && i < n
    ensures |row| == rowSize
  {
    RowInPage(rowSize, n, i);
    p[RowOffset(rowSize, n, i)..RowOffset(rowSize, n, i) + rowSize]
  }

  ghost function RowsOf(p: Bytes, rowSize: nat, n: nat): (rows: seq<Bytes>)
    requires |p| == PAGE_SIZE && SizeNeeded(rowSize, n) <= PAGE_SIZE
    ensures |rows| == n
  {
    seq(n, i requires 0 <= i < n => RowAt(p, rowSize, n, i))
  }

  lemma RowsKept(p: Bytes, q: Bytes, rowSize: nat, n: nat)
    requires SizeNeeded(rowSize, n) <= PAGE_SIZE && |p| == PAGE_SIZE && SameOn(q, p, TupleOffset(n), PAGE_SIZE)
    ensures RowsOf(q, rowSize, n) == RowsOf(p, rowSize, n)
  {
    var before, after := RowsOf(p, rowSize, n), RowsOf(q, rowSize, n);
    forall i | 0 <= i < n
      ensures after[i] == before[i]
    {
      RowInPage(rowSize, n, i);
      var off := RowOffset(rowSize, n, i);
      SameSlice(q, p, TupleOffset(n), PAGE_SIZE, off, off + rowSize);
    }
  }

  lemma RowsAfterWrite(p: Bytes, rowSize: nat, n: nat, i: nat, row: Bytes)
    requires |p| == PAGE_SIZE && SizeNeeded(rowSize, n) <= PAGE_SIZE && i < n && |row| == rowSize
    requires RowOffset(rowSize, n, i) + rowSize <= PAGE_SIZE
    ensures RowsOf(Splice(p, RowOffset(rowSize, n, i), row), rowSize, n) == RowsOf(p, rowSize, n)[i := row]
  {
    var off := RowOffset(rowSize, n, i);
    var q := Splice(p, off, row);
    var before, after := RowsOf(p, rowSize, n), RowsOf(q, rowSize, n);
    forall j | 0 <= j < n
      ensures after[j] == before[i := row][j]
    {
      RowInPage(rowSize, n, j);
      if i == j {
        SpliceReads(p, off, row);
      } else {
        RowsApart(rowSize, n, i, j);
        var o := RowOffset(rowSize, n, j);
        SpliceKeeps(p, off, row, o, o + rowSize);
        SameSlice(q, p, o, o + rowSize, o, o + rowSize);
      }
    }
  }

  // The parts of a page.

  datatype PageView = PageView(rowSize: nat, numSlots: nat, numUsed: nat, alloc: seq<bool>, deleted: seq<bool>,
                               rows: seq<Bytes>)

  /** The bits of one bitmap, padding included. */
  function Capacity(n: nat): nat {
    64 * WordsFor(n)
  }

  ghost function BitmapAt(p: Bytes, start: nat, n: nat): (bits: seq<bool>)
    requires start + BitmapBytes(n) <= |p|
    ensures |bits| == Capacity(n)
  {
    assert WordsFor(Capacity(n)) == WordsFor(n);
    BitsOf(p, start, Capacity(n))
  }

  lemma BitmapKept(p: Bytes, q: Bytes, start: nat, n: nat)
    requires SameOn(q, p, start, start + BitmapBytes(n))
    ensures BitmapAt(q, start, n) == BitmapAt(p, start, n)
  {
    assert WordsFor(Capacity(n)) == WordsFor(n);
    BitsKept(p, q, start, Capacity(n));
  }

  lemma BitmapAfterSet(p: Bytes, start: nat, n: nat, i: nat, on: bool)
    requires start + BitmapBytes(n) <= |p| && i < Capacity(n)
    ensures WordOffset(start, i) + 8 <= start + BitmapBytes(n)
    ensures BitmapAt(SetBitIn(p, start, i, on), start, n) == BitmapAt(p, start, n)[i := on]
  {
    assert WordsFor(Capacity(n)) == WordsFor(n);
    BitInBounds(n, start, i);
    BitsAfterSet(p, start, i, on, Capacity(n));
  }

  /** The page read with the given header. */
  ghost function Parts(p: Bytes, rowSize: nat, n: nat, used: nat): (v: PageView)
    requires |p| == PAGE_SIZE && SizeNeeded(rowSize, n) <= PAGE_SIZE
    ensures |v.alloc| == |v.deleted| == Capacity(n) && |v.rows| == n && v.numSlots == n && v.rowSize == rowSize
    ensures v.numUsed == used
  {
    PageView(rowSize, n, used, BitmapAt(p, 16, n), BitmapAt(p, 16 + BitmapBytes(n), n), RowsOf(p, rowSize, n))
  }

  ghost function View(p: Bytes): (v: PageView)
    requires WellLaid(p)
    ensures |v.alloc| == |v.deleted| == Capacity(v.numSlots) && |v.rows| == v.numSlots
    ensures v.numSlots == NumSlots(p) && v.rowSize == RowSize(p) && v.numUsed == NumUsed(p)
  {
    Parts(p, RowSize(p), NumSlots(p), NumUsed(p))
  }

  lemma SameHeader(p: Bytes, q: Bytes)
    requires WellLaid(p) && SameOn(q, p, 8, 12)
    ensures WellLaid(q) && RowSize(q) == RowSize(p) && NumSlots(q) == NumSlots(p)
  {
    assert q[8] == p[8] && q[9] == p[9] && q[10] == p[10] && q[11] == p[11];
  }

  lemma SameUsed(p: Bytes, q: Bytes)
    requires |p| == PAGE_SIZE && SameOn(q, p, 12, 14)
    ensures NumUsed(q) == NumUsed(p)
  {
    assert q[12] == p[12] && q[13] == p[13];
  }

  lemma AllocWordInBitmap(n: nat, i: nat)
    requires i < Capacity(n)
    ensures 16 <= WordOffset(16, i) && WordOffset(16, i) + 8 <= 16 + BitmapBytes(n) <= TupleOffset(n)
  {
  }

  lemma AllocParts(p: Bytes, size: nat, n: nat, used: nat, i: nat, on: bool)
    requires |p| == PAGE_SIZE && SizeNeeded(size, n) <= PAGE_SIZE && i < Capacity(n)
    ensures WordOffset(16, i) + 8 <= |p|
    ensures var q, v := SetBitIn(p, 16, i, on), Parts(p, size, n, used);
      SameOn(q, p, 8, 14) && Parts(q, size, n, used) == v.(alloc := v.alloc[i := on])
  {
    AllocWordInBitmap(n, i);
    BitmapAfterSet(p, 16, n, i, on);
    var q := SetBitIn(p, 16, i, on);
    BytesAfterSet(p, 16, i, on, 8, 14);
    BytesAfterSet(p, 16, i, on, 16 + BitmapBytes(n), TupleOffset(n));
    BytesAfterSet(p, 16, i, on, TupleOffset(n), PAGE_SIZE);
    RowsKept(p, q, size, n);
    BitmapKept(p, q, 16 + BitmapBytes(n), n);
  }

  lemma DeletedParts(p: Bytes, size: nat, n: nat, used: nat, i: nat, on: bool)
    requires |p| == PAGE_SIZE && SizeNeeded(size, n) <= PAGE_SIZE && i < Capacity(n)
    ensures WordOffset(16 + BitmapBytes(n), i) + 8 <= |p|
    ensures var q, v := SetBitIn(p, 16 + BitmapBytes(n), i, on), Parts(p, size, n, used);
      SameOn(q, p, 8, 14) && Parts(q, size, n, used) == v.(deleted := v.deleted[i := on])
  {
    var d := 16 + BitmapBytes(n);
    BitmapAfterSet(p, d, n, i, on);
    var q := SetBitIn(p, d, i, on);
    BytesAfterSet(p, d, i, on, 8, d);
    BytesAfterSet(p, d, i, on, TupleOffset(n), PAGE_SIZE);
    RowsKept(p, q, size, n);
    BitmapKept(p, q, 16, n);
  }

  lemma HeaderParts(p: Bytes, q: Bytes, size: nat, n: nat, used: nat)
    requires |p| == PAGE_SIZE && SizeNeeded(size, n) <= PAGE_SIZE && SameOn(q, p, 16, PAGE_SIZE)
    ensures Parts(q, size, n, used) == Parts(p, size, n, used)
  {
    RowsKept(p, q, size, n);
    BitmapKept(p, q, 16, n);
    BitmapKept(p, q, 16 + BitmapBytes(n), n);
  }

  lemma RowParts(p: Bytes, size: nat, n: nat, used: nat, i: nat, row: Bytes)
    requires |p| == PAGE_SIZE && SizeNeeded(size, n) <= PAGE_SIZE && i < n && |row| == size
    ensures RowOffset(size, n, i) + size <= PAGE_SIZE
    ensures var q, v := Splice(p, RowOffset(size, n, i), row), Parts(p, size, n, used);
      SameOn(q, p, 8, 14) && Parts(q, size, n, used) == v.(rows := v.rows[i := row])
  {
    RowInPage(size, n, i);
    var off := RowOffset(size, n, i);
    var q := Splice(p, off, row);
    SpliceKeeps(p, off, row, 8, TupleOffset(n));
    BitmapKept(p, q, 16, n);
    BitmapKept(p, q, 16 + BitmapBytes(n), n);
    RowsAfterWrite(p, size, n, i, row);
  }

  // What each write does to the page.

  lemma SetAllocView(p: Bytes, i: nat, on: bool)
    requires WellLaid(p) && i < Capacity(NumSlots(p))
    ensures WordOffset(16, i) + 8 <= |p|
    ensures var q := SetBitIn(p, 16, i, on);
      WellLaid(q) && View(q) == View(p).(alloc := View(p).alloc[i := on])
  {
    AllocParts(p, RowSize(p), NumSlots(p), NumUsed(p), i, on);
    SameHeader(p, SetBitIn(p, 16, i, on));
    SameUsed(p, SetBitIn(p, 16, i, on));
  }

  lemma SetDeletedView(p: Bytes, i: nat, on: bool)
    requires WellLaid(p) && i < Capacity(NumSlots(p))
    ensures WordOffset(16 + BitmapBytes(NumSlots(p)), i) + 8 <= |p|
    ensures var q := SetBitIn(p, 16 + BitmapBytes(NumSlots(p)), i, on);
      WellLaid(q) && View(q) == View(p).(deleted := View(p).deleted[i := on])
  {
    var n := NumSlots(p);
    DeletedParts(p, RowSize(p), n, NumUsed(p), i, on);
    SameHeader(p, SetBitIn(p, 16 + BitmapBytes(n), i, on));
    SameUsed(p, SetBitIn(p, 16 + BitmapBytes(n), i, on));
  }

  lemma SetUsedView(p: Bytes, used: nat)
    requires WellLaid(p) && used < 0x1_0000
    ensures var q := PutUint16(p, 12, used); WellLaid(q) && View(q) == View(p).(numUsed := used)
  {
    var q := PutUint16(p, 12, used);
    SameHeader(p, q);
    HeaderParts(p, q, RowSize(p), NumSlots(p), used);
  }

  lemma WriteRowView(p: Bytes, i: nat, row: Bytes)
    requires WellLaid(p) && i < NumSlots(p) && |row| == RowSize(p)
    ensures RowOffset(RowSize(p), NumSlots(p), i) + |row| <= PAGE_SIZE
    ensures var q := Splice(p, RowOffset(RowSize(p), NumSlots(p), i), row);
      WellLaid(q) && View(q) == View(p).(rows := View(p).rows[i := row])
  {
    RowParts(p, RowSize(p), NumSlots(p), NumUsed(p), i, row);
    var q := Splice(p, RowOffset(RowSize(p), NumSlots(p), i), row);
    SameHeader(p, q);
    SameUsed(p, q);
  }

  // A fresh page.

  lemma BitmapGrows(m: nat, n: nat)
    requires m <= n
    ensures BitmapBytes(m) <= BitmapBytes(n)
  {
    assert (m + 63) / 64 <= (n + 63) / 64;
  }

  lemma NeededGrows(rowSize: nat, m: nat, n: nat)
    requires m <= n
    ensures SizeNeeded(rowSize, m) <= SizeNeeded(rowSize, n)
  {
    BitmapGrows(m, n);
    RowBytesGrows(m, n, rowSize);
  }

  /** A row size the tuple descriptor accepts. */
  predicate LegalRowSize(rowSize: nat) {
    rowSize % 8 == 0 && rowSize <= PAGE_SIZE - 32
  }

  lemma NoMoreSlots(rowSize: nat, n: nat)
    requires SizeNeeded(rowSize, n) > PAGE_SIZE
    ensures forall m :: n <= m ==> SizeNeeded(rowSize, m) > PAGE_SIZE
  {
    forall m | n <= m
      ensures SizeNeeded(rowSize, m) > PAGE_SIZE
    {
      NeededGrows(rowSize, n, m);
    }
  }

  /** The slot-count loop of `InitializeHeapPage`: every legal schema gets the maximal
      number of slots and at least one. */
  method CountSlots(rowSize: nat) returns (maxSlots: nat)
    ensures IsMaxSlots(rowSize, maxSlots)
    ensures LegalRowSize(rowSize) ==> maxSlots > 0
  {
    maxSlots := 0;
    var totalSlots := 1;
    while totalSlots <= PAGE_SIZE
      invariant 1 <= totalSlots <= PAGE_SIZE + 1 && maxSlots == totalSlots - 1
      invariant maxSlots > 0 ==> SizeNeeded(rowSize, maxSlots) <= PAGE_SIZE
    {
      var bitmapBytes := ((totalSlots + 63) / 64) * 8;
      var rows := totalSlots * rowSize;
      var totalAllocated := 16 + 2 * bitmapBytes + rows;
      assert rows == RowBytes(totalSlots, rowSize) by {
        RowBytesIsProduct(totalSlots, rowSize);
      }
      if totalAllocated <= PAGE_SIZE {
        maxSlots := totalSlots;
      } else {
        NoMoreSlots(rowSize, totalSlots);
        break;
      }
      totalSlots := totalSlots + 1;
    }
    assert RowBytes(1, rowSize) == RowBytes(0, rowSize) + rowSize;
  }

  /** The bytes `InitializeHeapPage` leaves. */
  function FreshPage(rowSize: nat, n: nat): (p: Bytes)
    ensures |p| == PAGE_SIZE
  {
    PutUint16(PutUint16(PutUint16(Zeros(PAGE_SIZE), 8, rowSize), 10, n), 12, 0)
  }

  function NoBitsSet(n: nat): (bits: seq<bool>)
    ensures |bits| == n && forall i :: 0 <= i < n ==> !bits[i]
  {
    seq(n, _ => false)
  }

  lemma {:induction false} DecodeZeros(b: Bytes)
    requires forall i :: 0 <= i < |b| ==> b[i] == 0
    ensures Decode(b) == 0
  {
    if b != [] {
      DecodeZeros(b[1..]);
    }
  }

  lemma ZeroBitmap(p: Bytes, start: nat, n: nat)
    requires start + BitmapBytes(n) <= |p| && forall i :: start <= i < |p| ==> p[i] == 0
    ensures BitmapAt(p, start, n) == NoBitsSet(Capacity(n))
  {
    var bits := BitmapAt(p, start, n);
    forall j | 0 <= j < Capacity(n)
      ensures !bits[j]
    {
      BitInBounds(n, start, j);
      var off := WordOffset(start, j);
      DecodeZeros(p[off..off + 8]);
      Bits.ZeroBits(j % 64);
    }
  }

  lemma FreshHeader(rowSize: nat, n: nat)
    requires rowSize < 0x1_0000 && n < 0x1_0000
    ensures var p := FreshPage(rowSize, n);
      RowSize(p) == rowSize && NumSlots(p) == n && NumUsed(p) == 0 && forall i :: 16 <= i < PAGE_SIZE ==> p[i] == 0
  {
  }

  /** A fresh page has all its slots free. */
  lemma FreshView(rowSize: nat, n: nat)
    requires rowSize < 0x1_0000 && 0 < n <= PAGE_SIZE && SizeNeeded(rowSize, n) <= PAGE_SIZE
    ensures WellLaid(FreshPage(rowSize, n))
    ensures var v := View(FreshPage(rowSize, n));
      && v.rowSize == rowSize && v.numSlots == n && v.numUsed == 0
      && v.alloc == NoBitsSet(Capacity(n)) && v.deleted == NoBitsSet(Capacity(n))
  {
    FreshHeader(rowSize, n);
    var p := FreshPage(rowSize, n);
    ZeroBitmap(p, 16, n);
    ZeroBitmap(p, 16 + BitmapBytes(n), n);
  }
}
