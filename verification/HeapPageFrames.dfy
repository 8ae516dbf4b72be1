/** The operations of `storage/heap_page.go` on the bytes of a frame, in place. */
module HeapPageFrames {
  import opened PageBytes
  import opened Bitmaps
  import opened HeapPages

  /** Go's `copy(dst, src)`: as many bytes as the shorter of the two has. */
  function CopyInto(dst: Bytes, src: Bytes): (r: Bytes)
    ensures |r| == |dst|
    ensures |src| == |dst| ==> r == src
    ensures forall i :: 0 <= i < |dst| ==> r[i] == if i < |src| then src[i] else dst[i]
  {
    if |src| >= |dst| then src[..|dst|] else src + dst[|src|..]
  }

  /** What `MarkAllocated` does to a page: the bit, the counter modulo 2^16 and, on both
      branches, a cleared deleted bit. */
  function MarkedAllocated(v: PageView, i: nat, on: bool): PageView
    requires i < |v.alloc| == |v.deleted|
  {
    var used := if on && !v.alloc[i] then v.numUsed + 1 else if !on && v.alloc[i] then v.numUsed - 1 else v.numUsed;
    v.(alloc := v.alloc[i := on], deleted := v.deleted[i := false], numUsed := used % 0x1_0000)
  }

  method InitializeHeapPage(rowSize: nat, frame: array<Byte>) returns (ghost maxSlots: nat)
    requires frame.Length == PAGE_SIZE && LegalRowSize(rowSize)
    modifies frame
    ensures IsMaxSlots(rowSize, maxSlots) && maxSlots > 0
    ensures frame[..] == FreshPage(rowSize, maxSlots)
    ensures Uint16(frame[..], 8) == rowSize && Uint16(frame[..], 10) == maxSlots
    ensures forall i :: 0 <= i < PAGE_SIZE && !(8 <= i < 12) ==> frame[i] == 0
  {
    var n := CountSlots(rowSize);
    maxSlots := n;
    forall i | 0 <= i < frame.Length {
      frame[i] := 0;
    }
    assert frame[..] == Zeros(PAGE_SIZE);
    WriteUint16(frame, 8, rowSize);
    WriteUint16(frame, 10, n);
    WriteUint16(frame, 12, 0);
  }

  method WriteUint16(frame: array<Byte>, off: nat, u: nat)
    requires off + 2 <= frame.Length
    modifies frame
    ensures frame[..] == PutUint16(old(frame[..]), off, u)
  {
    frame[off] := u % 256;
    frame[off + 1] := u / 256 % 256;
    assert frame[..] == PutUint16(old(frame[..]), off, u);
  }

  class HeapPage {
    const bytes: array<Byte>
    const allocOffset: nat
    const deletedOffset: nat
    const tupleOffset: nat

    /** The cached offsets still match the header. */
    ghost predicate Attached()
      reads bytes
    {
      && WellLaid(bytes[..])
      && allocOffset == 16
      && deletedOffset == 16 + BitmapBytes(NumSlots(bytes[..]))
      && tupleOffset == TupleOffset(NumSlots(bytes[..]))
    }

    ghost function Page(): PageView
      requires Attached()
      reads bytes
    {
      View(bytes[..])
    }

    /** `AsHeapPage` */
    constructor (frame: array<Byte>)
      requires WellLaid(frame[..])
      ensures bytes == frame && Attached()
    {
      var bitmapSize := ((NumSlots(frame[..]) + 63) / 64) * 8;
      bytes := frame;
      allocOffset := 16;
      deletedOffset := 16 + bitmapSize;
      tupleOffset := 16 + 2 * bitmapSize;
    }

    method Slots() returns (n: nat)
      requires Attached()
      ensures n == Page().numSlots
    {
      return Uint16(bytes[..], 10);
    }

    /** The first free slot, or -1 exactly when every slot is taken. */
    method FindFreeSlot() returns (slot: int)
      requires Attached()
      ensures slot == CyclicScan(Page().alloc[..Page().numSlots], 0)
    {
      var n := Slots();
      assert BitmapBytes(n) >= 8;
      var bm := new Bitmap(bytes, allocOffset, deletedOffset - allocOffset, n);
      slot := bm.FindFirstZero(0);
      assert bm.View() == Page().alloc[..n];
    }

    method IsAllocated(slot: int) returns (inUse: bool)
      requires Attached() && -64 < slot < Capacity(Page().numSlots)
      ensures inUse == (slot >= 0 && Page().alloc[slot])
    {
      var n := Slots();
      assert BitmapBytes(n) >= 8;
      var bm := new Bitmap(bytes, allocOffset, deletedOffset - allocOffset, n);
      inUse := bm.LoadBit(slot);
    }

    method IsDeleted(slot: int) returns (deleted: bool)
      requires Attached() && -64 < slot < Capacity(Page().numSlots)
      ensures deleted == (slot >= 0 && Page().deleted[slot])
    {
      var n := Slots();
      assert BitmapBytes(n) >= 8;
      var bm := new Bitmap(bytes, deletedOffset, tupleOffset - deletedOffset, n);
      deleted := bm.LoadBit(slot);
    }

    method MarkDeleted(slot: nat, deleted: bool)
      requires Attached() && slot < Capacity(Page().numSlots)
      modifies bytes
      ensures Attached() && Page() == old(Page()).(deleted := old(Page()).deleted[slot := deleted])
    {
      var n := Slots();
      assert BitmapBytes(n) >= 8;
      ghost var p := bytes[..];
      var bm := new Bitmap(bytes, deletedOffset, tupleOffset - deletedOffset, n);
      SetDeletedView(p, slot, deleted);
      var _ := bm.SetBit(slot, deleted);
    }

    method SetNumUsed(used: int)
      requires Attached()
      modifies bytes
      ensures Attached() && Page() == old(Page()).(numUsed := used % 0x1_0000)
    {
      SetUsedView(bytes[..], used % 0x1_0000);
      WriteUint16(bytes, 12, used % 0x1_0000);
    }

    method SetAllocated(slot: nat, inUse: bool) returns (wasInUse: bool)
      requires Attached() && slot < Capacity(Page().numSlots)
      modifies bytes
      ensures Attached() && Page() == old(Page()).(alloc := old(Page()).alloc[slot := inUse])
      ensures wasInUse == old(Page()).alloc[slot]
    {
      var n := Slots();
      assert BitmapBytes(n) >= 8;
      ghost var p := bytes[..];
      var bm := new Bitmap(bytes, allocOffset, deletedOffset - allocOffset, n);
      SetAllocView(p, slot, inUse);
      wasInUse := bm.SetBit(slot, inUse);
    }

    method MarkAllocated(slot: nat, inUse: bool)
      requires Attached() && slot < Capacity(Page().numSlots)
      modifies bytes
      ensures Attached() && Page() == MarkedAllocated(old(Page()), slot, inUse)
    {
      var used: int := Uint16(bytes[..], 12);
      var wasInUse := SetAllocated(slot, inUse);
      if inUse && !wasInUse {
        SetNumUsed(used + 1);
      } else if !inUse && wasInUse {
        SetNumUsed(used - 1);
      }
      MarkDeleted(slot, false);
    }

    /** The byte range of a slot. */
    method AccessTuple(slot: nat) returns (start: nat, end: nat)
      requires Attached() && slot < Page().numSlots
      ensures start + Page().rowSize == end <= PAGE_SIZE
      ensures bytes[start..end] == Page().rows[slot]
      ensures start == RowOffset(Page().rowSize, Page().numSlots, slot)
    {
      var size := Uint16(bytes[..], 8);
      RowInPage(size, NumSlots(bytes[..]), slot);
      RowBytesIsProduct(slot, size);
      start := tupleOffset + slot * size;
      end := start + size;
      assert bytes[start..end] == bytes[..][start..end];
    }

    /** `copy(AccessTuple(rid), row)` */
    method CopyIn(slot: nat, row: Bytes)
      requires Attached() && slot < Page().numSlots
      modifies bytes
      ensures Attached()
      ensures Page() == old(Page()).(rows := old(Page()).rows[slot := CopyInto(old(Page()).rows[slot], row)])
    {
      var start, end := AccessTuple(slot);
      var stored := CopyInto(bytes[start..end], row);
      WriteRowView(bytes[..], slot, stored);
      forall k | 0 <= k < |stored| {
        bytes[start + k] := stored[k];
      }
      assert bytes[..] == Splice(old(bytes[..]), start, stored);
    }

    /** `copy(buffer, AccessTuple(rid))` */
    method CopyOut(slot: nat, buffer: array<Byte>)
      requires Attached() && slot < Page().numSlots && buffer != bytes
      modifies buffer
      ensures Attached() && buffer[..] == CopyInto(old(buffer[..]), Page().rows[slot])
    {
      var start, end := AccessTuple(slot);
      var result := CopyInto(buffer[..], bytes[start..end]);
      forall k | 0 <= k < buffer.Length {
        buffer[k] := result[k];
      }
      assert buffer[..] == result;
    }
  }
}
