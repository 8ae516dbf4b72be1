/** `storage/tuple.go`: rows as bytes with fields at fixed offsets, and rows that carry
    computed values after their stored ones. */
module Tuples {
  import opened PageBytes
  import opened Values
  import opened Serialization
  import HeapPages

  // Layout.

  function Offset(fields: seq<Type>, i: nat): nat
    requires i <= |fields|
  {
    if i == 0 then 0 else Offset(fields, i - 1) + SizeOf(fields[i - 1])
  }

  function TupleSize(fields: seq<Type>): nat {
    Offset(fields, |fields|)
  }

  lemma {:induction false} OffsetGrows(fields: seq<Type>, i: nat, j: nat)
    requires i < j <= |fields|
    ensures Offset(fields, i) + SizeOf(fields[i]) <= Offset(fields, j)
  {
    if i < j - 1 {
      OffsetGrows(fields, i, j - 1);
    }
  }

  lemma {:induction false} OffsetOfPrefix(fields: seq<Type>, n: nat, i: nat)
    requires i <= n <= |fields|
    ensures Offset(fields[..n], i) == Offset(fields, i)
  {
    if i > 0 {
      OffsetOfPrefix(fields, n, i - 1);
    }
  }

  lemma {:induction false} OffsetOfSuffix(a: seq<Type>, b: seq<Type>, i: nat)
    requires i <= |b|
    ensures Offset(a + b, |a| + i) == TupleSize(a) + Offset(b, i)
  {
    if i == 0 {
      OffsetOfPrefix(a + b, |a|, |a|);
      assert (a + b)[..|a|] == a;
    } else {
      OffsetOfSuffix(a, b, i - 1);
    }
  }

  /** The offset table of `NewRawTupleDesc`: every row is 8-byte aligned. The code panics
      on a row that does not leave 32 bytes of a page. */
  method NewRawTupleDesc(fields: seq<Type>) returns (panics: bool, offsets: seq<nat>, size: nat)
    ensures |offsets| == |fields| && forall i :: 0 <= i < |fields| ==> offsets[i] == Offset(fields, i)
    ensures size == TupleSize(fields)
    ensures !panics <==> HeapPages.LegalRowSize(TupleSize(fields))
  {
    size, offsets := 0, [];
    var i := 0;
    while i < |fields|
      invariant 0 <= i == |offsets| <= |fields| && size == Offset(fields, i) && size % 8 == 0
      invariant forall k :: 0 <= k < i ==> offsets[k] == Offset(fields, k)
    {
      offsets := offsets + [size];
      size := size + SizeOf(fields[i]);
      i := i + 1;
    }
    panics := size % 8 != 0 || size > HeapPages.PAGE_SIZE - 32;
  }

  // Fields of a buffer.

  function FieldBytes(b: Bytes, fields: seq<Type>, i: nat): (r: Bytes)
    requires |b| >= TupleSize(fields) && i < |fields|
    ensures |r| == SizeOf(fields[i])
  {
    OffsetGrows(fields, i, |fields|);
    b[Offset(fields, i)..Offset(fields, i) + SizeOf(fields[i])]
  }

  function PutField(b: Bytes, fields: seq<Type>, i: nat, chunk: Bytes): (r: Bytes)
    requires |b| >= TupleSize(fields) && i < |fields| && |chunk| == SizeOf(fields[i])
    ensures |r| == |b|
  {
    OffsetGrows(fields, i, |fields|);
    Splice(b, Offset(fields, i), chunk)
  }

  lemma FieldsApart(fields: seq<Type>, i: nat, j: nat)
    requires i < |fields| && j < |fields| && i != j
    ensures
      || Offset(fields, i) + SizeOf(fields[i]) <= Offset(fields, j)
      || Offset(fields, j) + SizeOf(fields[j]) <= Offset(fields, i)
  {
    if i < j {
      OffsetGrows(fields, i, j);
    } else {
      OffsetGrows(fields, j, i);
    }
  }

  lemma FieldAfterPut(b: Bytes, fields: seq<Type>, i: nat, chunk: Bytes, j: nat)
    requires |b| >= TupleSize(fields) && i < |fields| && j < |fields| && |chunk| == SizeOf(fields[i])
    ensures FieldBytes(PutField(b, fields, i, chunk), fields, j) == if j == i then chunk else FieldBytes(b, fields, j)
  {
    OffsetGrows(fields, i, |fields|);
    if i == j {
      SpliceReads(b, Offset(fields, i), chunk);
    } else {
      var o := Offset(fields, j);
      OffsetGrows(fields, j, |fields|);
      FieldsApart(fields, i, j);
      SpliceKeeps(b, Offset(fields, i), chunk, o, o + SizeOf(fields[j]));
      SameSlice(PutField(b, fields, i, chunk), b, o, o + SizeOf(fields[j]), o, o + SizeOf(fields[j]));
    }
  }

  predicate ChunksFit(chunks: seq<Bytes>, fields: seq<Type>, from: nat) {
    from + |chunks| <= |fields| && forall k :: 0 <= k < |chunks| ==> |chunks[k]| == SizeOf(fields[from + k])
  }

  /** The first `n` chunks written to consecutive fields. */
  function PutFields(b: Bytes, fields: seq<Type>, from: nat, chunks: seq<Bytes>, n: nat): (r: Bytes)
    requires |b| >= TupleSize(fields) && ChunksFit(chunks, fields, from) && n <= |chunks|
    ensures |r| == |b|
  {
    if n == 0 then b else PutField(PutFields(b, fields, from, chunks, n - 1), fields, from + (n - 1), chunks[n - 1])
  }

  lemma PutFieldsStep(b: Bytes, fields: seq<Type>, from: nat, chunks: seq<Bytes>, n: nat)
    requires |b| >= TupleSize(fields) && ChunksFit(chunks, fields, from) && n < |chunks|
    ensures |chunks[n]| == SizeOf(fields[from + n])
    ensures PutFields(b, fields, from, chunks, n + 1) ==
      PutField(PutFields(b, fields, from, chunks, n), fields, from + n, chunks[n])
  {
  }

  /** A field after the first `n` chunks are written. */
  function FieldOrChunk(b: Bytes, fields: seq<Type>, from: nat, chunks: seq<Bytes>, n: nat, j: nat): Bytes
    requires |b| >= TupleSize(fields) && n <= |chunks| && j < |fields|
  {
    if from <= j < from + n then chunks[j - from] else FieldBytes(b, fields, j)
  }

  lemma FieldAfterNext(b: Bytes, before: Bytes, fields: seq<Type>, from: nat, chunks: seq<Bytes>, n: nat, j: nat)
    requires |before| == |b| >= TupleSize(fields) && n < |chunks| && j < |fields|
    requires from + n < |fields| && |chunks[n]| == SizeOf(fields[from + n])
    requires FieldBytes(before, fields, j) == FieldOrChunk(b, fields, from, chunks, n, j)
    ensures FieldBytes(PutField(before, fields, from + n, chunks[n]), fields, j) ==
      FieldOrChunk(b, fields, from, chunks, n + 1, j)
  {
    FieldAfterPut(before, fields, from + n, chunks[n], j);
  }

  lemma {:induction false} FieldAfterPuts(b: Bytes, fields: seq<Type>, from: nat, chunks: seq<Bytes>, n: nat, j: nat)
    requires |b| >= TupleSize(fields) && ChunksFit(chunks, fields, from) && n <= |chunks| && j < |fields|
    ensures FieldBytes(PutFields(b, fields, from, chunks, n), fields, j) == FieldOrChunk(b, fields, from, chunks, n, j)
  {
    if n > 0 {
      FieldAfterPuts(b, fields, from, chunks, n - 1, j);
      PutFieldsStep(b, fields, from, chunks, n - 1);
      FieldAfterNext(b, PutFields(b, fields, from, chunks, n - 1), fields, from, chunks, n - 1, j);
    }
  }

  // Values in fields.

  function GetField(b: Bytes, fields: seq<Type>, i: nat): Value
    requires |b| >= TupleSize(fields) && i < |fields|
  {
    ReadValue(fields[i], FieldBytes(b, fields, i))
  }

  predicate Fitting(values: seq<Value>, fields: seq<Type>, from: nat) {
    from + |values| <= |fields| && forall k :: 0 <= k < |values| ==>
      Storable(values[k]) && TypeOf(values[k]) == fields[from + k]
  }

  /** The values as they are read back. */
  function AllStored(values: seq<Value>): (r: seq<Value>)
    requires forall k :: 0 <= k < |values| ==> Storable(values[k])
    ensures |r| == |values| && forall k :: 0 <= k < |values| ==> r[k] == AfterStorage(values[k])
  {
    seq(|values|, k requires 0 <= k < |values| => AfterStorage(values[k]))
  }

  /** They are the values that were written exactly if those are canonical. */
  lemma AllStoredIffCanonical(values: seq<Value>)
    requires forall k :: 0 <= k < |values| ==> Storable(values[k])
    ensures AllStored(values) == values <==> forall k :: 0 <= k < |values| ==> Canonical(values[k])
  {
    forall k | 0 <= k < |values|
      ensures AllStored(values)[k] == values[k] <==> Canonical(values[k])
    {
      RoundTripIffCanonical(values[k]);
    }
  }

  lemma AllStoredConcat(a: seq<Value>, b: seq<Value>)
    requires forall k :: 0 <= k < |a| ==> Storable(a[k])
    requires forall k :: 0 <= k < |b| ==> Storable(b[k])
    ensures AllStored(a + b) == AllStored(a) + AllStored(b)
  {
  }

  /** The stored form of each value. */
  function Chunks(values: seq<Value>): (chunks: seq<Bytes>)
    requires forall k :: 0 <= k < |values| ==> Storable(values[k])
    ensures |chunks| == |values| && forall k :: 0 <= k < |values| ==> chunks[k] == WriteValue(values[k])
  {
    seq(|values|, k requires 0 <= k < |values| => WriteValue(values[k]))
  }

  lemma FittingChunks(values: seq<Value>, fields: seq<Type>, from: nat)
    requires Fitting(values, fields, from)
    ensures ChunksFit(Chunks(values), fields, from)
    ensures forall k :: 0 <= k < |values| ==> ReadValue(fields[from + k], Chunks(values)[k]) == AllStored(values)[k]
  {
  }

  /** The buffer, read with the fields, holds the values from field `from` on. */
  predicate HoldsFrom(b: Bytes, fields: seq<Type>, from: nat, values: seq<Value>)
    requires |b| >= TupleSize(fields) && from + |values| <= |fields|
  {
    forall j :: 0 <= j < |values| ==> GetField(b, fields, from + j) == values[j]
  }

  function WriteFields(b: Bytes, fields: seq<Type>, from: nat, values: seq<Value>): (r: Bytes)
    requires |b| >= TupleSize(fields) && Fitting(values, fields, from)
    ensures |r| == |b|
  {
    FittingChunks(values, fields, from);
    PutFields(b, fields, from, Chunks(values), |values|)
  }

  /** Written values read back as storage gives them, and the other fields keep their bytes. */
  lemma WrittenFieldsHold(b: Bytes, fields: seq<Type>, from: nat, values: seq<Value>)
    requires |b| >= TupleSize(fields) && Fitting(values, fields, from)
    ensures HoldsFrom(WriteFields(b, fields, from, values), fields, from, AllStored(values))
    ensures forall j :: 0 <= j < |fields| && !(from <= j < from + |values|) ==>
      FieldBytes(WriteFields(b, fields, from, values), fields, j) == FieldBytes(b, fields, j)
  {
    FittingChunks(values, fields, from);
    var after := WriteFields(b, fields, from, values);
    forall j | 0 <= j < |fields|
      ensures FieldBytes(after, fields, j) ==
        if from <= j < from + |values| then Chunks(values)[j - from] else FieldBytes(b, fields, j)
    {
      FieldAfterPuts(b, fields, from, Chunks(values), |values|, j);
    }
  }

  // Tuples.

  /** Stored columns first, computed ones after them; a tuple without a descriptor is one
      without stored columns. */
  datatype Tuple = Tuple(raw: Bytes, rawFields: seq<Type>, extras: seq<Value>) {
    /** The bytes are exactly one stored row and the computed values can be stored. */
    predicate Valid() {
      |raw| == TupleSize(rawFields) && forall k :: 0 <= k < |extras| ==> Storable(extras[k])
    }

    function NumColumns(): nat {
      |rawFields| + |extras|
    }

    function GetValue(i: nat): (v: Value)
      requires Valid() && i < NumColumns()
    {
      if i < |rawFields| then GetField(raw, rawFields, i) else extras[i - |rawFields|]
    }

    function Values(): (vs: seq<Value>)
      requires Valid()
      ensures |vs| == NumColumns()
    {
      seq(NumColumns(), i requires 0 <= i < NumColumns() => GetValue(i))
    }

    function Types(): (ts: seq<Type>)
      ensures |ts| == NumColumns()
    {
      rawFields + seq(|extras|, i requires 0 <= i < |extras| => TypeOf(extras[i]))
    }
  }

  lemma ValuesFit(t: Tuple, fields: seq<Type>, from: nat)
    requires t.Valid() && from + t.NumColumns() <= |fields|
    requires forall k :: 0 <= k < t.NumColumns() ==> t.Types()[k] == fields[from + k]
    ensures Fitting(t.Values(), fields, from) && Fitting(t.extras, fields, from + |t.rawFields|)
  {
    forall k | 0 <= k < t.NumColumns()
      ensures Storable(t.Values()[k]) && TypeOf(t.Values()[k]) == fields[from + k]
    {
      if k < |t.rawFields| {
        ReadIsCanonical(t.rawFields[k], FieldBytes(t.raw, t.rawFields, k));
        assert t.Types()[k] == t.rawFields[k];
      } else {
        assert t.Types()[k] == TypeOf(t.extras[k - |t.rawFields|]);
      }
    }
    forall k | 0 <= k < |t.extras|
      ensures TypeOf(t.extras[k]) == fields[from + |t.rawFields| + k]
    {
      assert t.Types()[|t.rawFields| + k] == TypeOf(t.extras[k]);
    }
  }

  lemma OffsetWithin(fields: seq<Type>, from: nat, part: seq<Type>, j: nat)
    requires from + |part| <= |fields| && fields[from..from + |part|] == part && j <= |part|
    ensures Offset(fields, from + j) == Offset(fields, from) + Offset(part, j)
  {
    var front := fields[..from];
    assert front + part == fields[..from + |part|];
    OffsetOfSuffix(front, part, j);
    OffsetOfPrefix(fields, from + |part|, from + j);
    OffsetOfPrefix(fields, from, from);
  }

  lemma SliceOfSlice(b: Bytes, start: nat, raw: Bytes, o: nat, size: nat)
    requires start + |raw| <= |b| && b[start..start + |raw|] == raw && o + size <= |raw|
    ensures raw[o..o + size] == b[start + o..start + o + size]
  {
    forall k | o <= k < o + size
      ensures raw[k] == b[start + k]
    {
      assert b[start..start + |raw|][k] == b[start + k];
    }
  }

  /** Stored bytes copied to the place of their columns are the same fields there. */
  lemma CopiedField(b: Bytes, fields: seq<Type>, from: nat, raw: Bytes, part: seq<Type>, j: nat)
    requires from + |part| <= |fields| && fields[from..from + |part|] == part
    requires |raw| == TupleSize(part) && |b| >= TupleSize(fields) && j < |part|
    requires Offset(fields, from) + |raw| <= |b| && b[Offset(fields, from)..Offset(fields, from) + |raw|] == raw
    ensures FieldBytes(b, fields, from + j) == FieldBytes(raw, part, j) && fields[from + j] == part[j]
  {
    OffsetWithin(fields, from, part, j);
    OffsetGrows(part, j, |part|);
    assert fields[from + j] == fields[from..from + |part|][j];
    SliceOfSlice(b, Offset(fields, from), raw, Offset(part, j), SizeOf(part[j]));
  }

  lemma CopiedFields(b: Bytes, fields: seq<Type>, from: nat, raw: Bytes, part: seq<Type>)
    requires from + |part| <= |fields| && fields[from..from + |part|] == part
    requires |raw| == TupleSize(part) && |b| >= TupleSize(fields)
    requires Offset(fields, from) + |raw| <= |b| && b[Offset(fields, from)..Offset(fields, from) + |raw|] == raw
    ensures forall j :: 0 <= j < |part| ==> GetField(b, fields, from + j) == GetField(raw, part, j)
  {
    forall j | 0 <= j < |part|
      ensures GetField(b, fields, from + j) == GetField(raw, part, j)
    {
      CopiedField(b, fields, from, raw, part, j);
    }
  }

  /** The row's columns are the fields from `from` on. */
  ghost predicate Matches(t: Tuple, fields: seq<Type>, from: nat) {
    t.Valid() && from + t.NumColumns() <= |fields| && fields[from..from + t.NumColumns()] == t.Types()
  }

  lemma MatchesFields(t: Tuple, fields: seq<Type>, from: nat)
    requires Matches(t, fields, from)
    ensures fields[from..from + |t.rawFields|] == t.rawFields
    ensures Fitting(t.Values(), fields, from) && Fitting(t.extras, fields, from + |t.rawFields|)
  {
    forall k | 0 <= k < t.NumColumns()
      ensures t.Types()[k] == fields[from + k]
    {
      assert fields[from..from + t.NumColumns()][k] == fields[from + k];
    }
    ValuesFit(t, fields, from);
    assert forall k :: 0 <= k < |t.rawFields| ==> t.Types()[k] == t.rawFields[k];
  }

  lemma RawEnds(t: Tuple, fields: seq<Type>, from: nat)
    requires Matches(t, fields, from)
    ensures Offset(fields, from) + |t.raw| == Offset(fields, from + |t.rawFields|) <= TupleSize(fields)
  {
    MatchesFields(t, fields, from);
    OffsetWithin(fields, from, t.rawFields, |t.rawFields|);
    if from + |t.rawFields| < |fields| {
      OffsetGrows(fields, from + |t.rawFields|, |fields|);
    }
  }

  // Writing tuples.

  /** `copy(buf[off:], chunk)` where the chunk fits. */
  method CopyTo(buf: array<Byte>, off: nat, chunk: Bytes)
    requires off + |chunk| <= buf.Length
    modifies buf
    ensures buf[..] == Splice(old(buf[..]), off, chunk)
  {
    forall k | 0 <= k < |chunk| {
      buf[off + k] := chunk[k];
    }
    assert buf[..] == Splice(old(buf[..]), off, chunk);
  }

  /** `desc.SetValue(buf, i, v)` */
  method SetValue(buf: array<Byte>, fields: seq<Type>, i: nat, v: Value)
    requires buf.Length >= TupleSize(fields) && i < |fields| && TypeOf(v) == fields[i] && Storable(v)
    modifies buf
    ensures buf[..] == PutField(old(buf[..]), fields, i, WriteValue(v))
  {
    OffsetGrows(fields, i, |fields|);
    CopyTo(buf, Offset(fields, i), WriteValue(v));
  }

  /** The loop that serializes values one by one. */
  method SetValues(buf: array<Byte>, fields: seq<Type>, from: nat, values: seq<Value>)
    requires buf.Length >= TupleSize(fields) && Fitting(values, fields, from)
    modifies buf
    ensures buf[..] == WriteFields(old(buf[..]), fields, from, values)
  {
    FittingChunks(values, fields, from);
    ghost var start, chunks := buf[..], Chunks(values);
    var i := 0;
    while i < |values|
      invariant 0 <= i <= |values| && buf[..] == PutFields(start, fields, from, chunks, i)
    {
      PutFieldsStep(start, fields, from, chunks, i);
      SetValue(buf, fields, from + i, values[i]);
      i := i + 1;
    }
  }

  /** Values written behind others leave those readable. */
  lemma WriteBehind(b: Bytes, fields: seq<Type>, values: seq<Value>, more: seq<Value>)
    requires |b| >= TupleSize(fields) && |values| <= |fields| && Fitting(more, fields, |values|)
    requires HoldsFrom(b, fields, 0, values)
    ensures HoldsFrom(WriteFields(b, fields, |values|, more), fields, 0, values)
    ensures HoldsFrom(WriteFields(b, fields, |values|, more), fields, |values|, AllStored(more))
  {
    WrittenFieldsHold(b, fields, |values|, more);
    var r := WriteFields(b, fields, |values|, more);
    forall j | 0 <= j < |values|
      ensures GetField(r, fields, 0 + j) == values[j]
    {
      assert GetField(b, fields, 0 + j) == values[j];
      assert FieldBytes(r, fields, j) == FieldBytes(b, fields, j);
    }
  }

  lemma JoinHeld(b: Bytes, fields: seq<Type>, first: seq<Value>, second: seq<Value>)
    requires |b| >= TupleSize(fields) && |first| + |second| <= |fields|
    requires HoldsFrom(b, fields, 0, first) && HoldsFrom(b, fields, |first|, second)
    ensures HoldsFrom(b, fields, 0, first + second)
  {
    forall j | 0 <= j < |first + second|
      ensures GetField(b, fields, 0 + j) == (first + second)[j]
    {
      if j >= |first| {
        assert GetField(b, fields, |first| + (j - |first|)) == second[j - |first|];
      }
    }
  }

  /** The stored part of a tuple. */
  function Stored(t: Tuple): Tuple {
    Tuple(t.raw, t.rawFields, [])
  }

  lemma StoredMatches(t: Tuple, fields: seq<Type>)
    requires Matches(t, fields, 0)
    ensures Matches(Stored(t), fields, 0) && t.Values() == Stored(t).Values() + t.extras
  {
    MatchesFields(t, fields, 0);
    assert Stored(t).Types() == t.rawFields;
  }

  /** Stored columns read back as they are. */
  lemma StoredSurvives(t: Tuple)
    requires t.Valid() && t.extras == []
    ensures forall k :: 0 <= k < t.NumColumns() ==> Storable(t.Values()[k])
    ensures AllStored(t.Values()) == t.Values()
  {
    forall k | 0 <= k < t.NumColumns()
      ensures Canonical(t.Values()[k])
    {
      ReadIsCanonical(t.rawFields[k], FieldBytes(t.raw, t.rawFields, k));
    }
    AllStoredIffCanonical(t.Values());
  }

  lemma StoredThenExtras(t: Tuple, fields: seq<Type>)
    requires Matches(t, fields, 0)
    ensures Fitting(t.Values(), fields, 0) && AllStored(t.Values()) == Stored(t).Values() + AllStored(t.extras)
  {
    MatchesFields(t, fields, 0);
    StoredMatches(t, fields);
    StoredSurvives(Stored(t));
    AllStoredConcat(Stored(t).Values(), t.extras);
  }

  /** What `WriteToBuffer` leaves in the buffer. */
  function Written(b: Bytes, fields: seq<Type>, t: Tuple): Bytes
    requires |b| >= TupleSize(fields) && |t.raw| <= |b| && Fitting(t.extras, fields, |t.rawFields|)
  {
    WriteFields(Splice(b, 0, t.raw), fields, |t.rawFields|, t.extras)
  }

  /** Copying the stored part and serializing the rest leaves all values readable. */
  lemma CopyThenWrite(b: Bytes, fields: seq<Type>, t: Tuple)
    requires |b| >= TupleSize(fields) && Matches(t, fields, 0)
    ensures |t.raw| <= |b| && Fitting(t.extras, fields, |t.rawFields|) && Fitting(t.Values(), fields, 0)
    ensures HoldsFrom(Written(b, fields, t), fields, 0, AllStored(t.Values()))
  {
    MatchesFields(t, fields, 0);
    RawEnds(t, fields, 0);
    StoredMatches(t, fields);
    StoredThenExtras(t, fields);
    SpliceReads(b, 0, t.raw);
    StoredHolds(Splice(b, 0, t.raw), fields, 0, Stored(t));
    WriteBehind(Splice(b, 0, t.raw), fields, Stored(t).Values(), t.extras);
    JoinHeld(Written(b, fields, t), fields, Stored(t).Values(), AllStored(t.extras));
  }

  /** The buffer holds the tuple's values, as storage gives them back. */
  ghost predicate HoldsTuple(b: Bytes, fields: seq<Type>, from: nat, t: Tuple) {
    && |b| >= TupleSize(fields) && t.Valid() && Fitting(t.Values(), fields, from)
    && HoldsFrom(b, fields, from, AllStored(t.Values()))
  }

  lemma WrittenIsHeld(b: Bytes, fields: seq<Type>, t: Tuple)
    requires |b| >= TupleSize(fields) && Matches(t, fields, 0)
    ensures |t.raw| <= |b| && Fitting(t.extras, fields, |t.rawFields|)
    ensures HoldsTuple(Written(b, fields, t), fields, 0, t)
    ensures t.raw == [] ==> Written(b, fields, t) == WriteFields(b, fields, |t.rawFields|, t.extras)
  {
    CopyThenWrite(b, fields, t);
    if t.raw == [] {
      assert Splice(b, 0, t.raw) == b;
    }
  }

  /** `WriteToBuffer`: a hybrid tuple becomes a stored one with the values storage keeps. */
  method WriteToBuffer(buf: array<Byte>, fields: seq<Type>, t: Tuple)
    requires buf.Length >= TupleSize(fields) && Matches(t, fields, 0) && t.NumColumns() == |fields|
    modifies buf
    ensures HoldsTuple(buf[..], fields, 0, t)
    ensures Fitting(t.extras, fields, |t.rawFields|)
    ensures t.raw == [] ==> buf[..] == WriteFields(old(buf[..]), fields, |t.rawFields|, t.extras)
  {
    WrittenIsHeld(buf[..], fields, t);
    CopyTo(buf, 0, t.raw);
    SetValues(buf, fields, |t.rawFields|, t.extras);
  }

  lemma StoredHolds(b: Bytes, fields: seq<Type>, from: nat, t: Tuple)
    requires Matches(t, fields, from) && t.extras == [] && |b| >= TupleSize(fields)
    requires Offset(fields, from) + |t.raw| <= |b| && b[Offset(fields, from)..Offset(fields, from) + |t.raw|] == t.raw
    ensures HoldsFrom(b, fields, from, t.Values())
  {
    MatchesFields(t, fields, from);
    CopiedFields(b, fields, from, t.raw, t.rawFields);
  }

  /** Stitching two stored rows together. */
  lemma Stitched(b: Bytes, fields: seq<Type>, left: Tuple, right: Tuple)
    requires |b| >= TupleSize(fields) && left.extras == right.extras == []
    requires Matches(left, fields, 0) && Matches(right, fields, left.NumColumns())
    ensures |left.raw| + |right.raw| <= |b|
    ensures var r := Splice(Splice(b, 0, left.raw), |left.raw|, right.raw);
      HoldsFrom(r, fields, 0, left.Values()) && HoldsFrom(r, fields, left.NumColumns(), right.Values())
  {
    RawEnds(left, fields, 0);
    RawEnds(right, fields, left.NumColumns());
    var first := Splice(b, 0, left.raw);
    var r := Splice(first, |left.raw|, right.raw);
    SpliceReads(b, 0, left.raw);
    SpliceReads(first, |left.raw|, right.raw);
    SpliceKeeps(first, |left.raw|, right.raw, 0, |left.raw|);
    SameSlice(r, first, 0, |left.raw|, 0, |left.raw|);
    StoredHolds(r, fields, 0, left);
    StoredHolds(r, fields, left.NumColumns(), right);
  }

  lemma WrittenOneByOne(b: Bytes, fields: seq<Type>, left: Tuple, right: Tuple)
    requires |b| >= TupleSize(fields)
    requires Matches(left, fields, 0) && Matches(right, fields, left.NumColumns())
    ensures Fitting(left.Values(), fields, 0) && Fitting(right.Values(), fields, left.NumColumns())
    ensures var r := WriteFields(WriteFields(b, fields, 0, left.Values()), fields, left.NumColumns(), right.Values());
      HoldsTuple(r, fields, 0, left) && HoldsTuple(r, fields, left.NumColumns(), right)
  {
    var n := left.NumColumns();
    MatchesFields(left, fields, 0);
    MatchesFields(right, fields, n);
    WrittenFieldsHold(b, fields, 0, left.Values());
    WriteBehind(WriteFields(b, fields, 0, left.Values()), fields, AllStored(left.Values()), right.Values());
  }

  /** Stored rows stitched together hold the same as rows written value by value. */
  lemma StitchedIsHeld(b: Bytes, fields: seq<Type>, left: Tuple, right: Tuple)
    requires |b| >= TupleSize(fields) && left.extras == right.extras == []
    requires Matches(left, fields, 0) && Matches(right, fields, left.NumColumns())
    ensures |left.raw| + |right.raw| <= |b|
    ensures var r := Splice(Splice(b, 0, left.raw), |left.raw|, right.raw);
      HoldsTuple(r, fields, 0, left) && HoldsTuple(r, fields, left.NumColumns(), right)
  {
    Stitched(b, fields, left, right);
    MatchesFields(left, fields, 0);
    MatchesFields(right, fields, left.NumColumns());
    StoredSurvives(left);
    StoredSurvives(right);
  }

  /** `MergeTuples`: by either path the buffer holds the left values, then the right ones. */
  method MergeTuples(buf: array<Byte>, fields: seq<Type>, left: Tuple, right: Tuple)
    requires buf.Length >= TupleSize(fields) && left.NumColumns() + right.NumColumns() == |fields|
    requires Matches(left, fields, 0) && Matches(right, fields, left.NumColumns())
    modifies buf
    ensures HoldsTuple(buf[..], fields, 0, left) && HoldsTuple(buf[..], fields, left.NumColumns(), right)
  {
    if left.extras == [] && right.extras == [] {
      StitchedIsHeld(buf[..], fields, left, right);
      CopyTo(buf, 0, left.raw);
      CopyTo(buf, |left.raw|, right.raw);
    } else {
      WrittenOneByOne(buf[..], fields, left, right);
      SetValues(buf, fields, 0, left.Values());
      SetValues(buf, fields, left.NumColumns(), right.Values());
    }
  }

  // A fully written buffer.

  function Joined(chunks: seq<Bytes>, n: nat): Bytes
    requires n <= |chunks|
  {
    if n == 0 then [] else Joined(chunks, n - 1) + chunks[n - 1]
  }

  lemma {:induction false} WrittenPrefix(b: Bytes, fields: seq<Type>, chunks: seq<Bytes>, n: nat)
    requires |b| == TupleSize(fields) && ChunksFit(chunks, fields, 0) && n <= |chunks| == |fields|
    ensures Offset(fields, n) <= |b| && PutFields(b, fields, 0, chunks, n)[..Offset(fields, n)] == Joined(chunks, n)
  {
    if n < |fields| {
      OffsetGrows(fields, n, |fields|);
    }
    if n > 0 {
      WrittenPrefix(b, fields, chunks, n - 1);
      PutFieldsStep(b, fields, 0, chunks, n - 1);
      var before, o, chunk := PutFields(b, fields, 0, chunks, n - 1), Offset(fields, n - 1), chunks[n - 1];
      OffsetGrows(fields, n - 1, |fields|);
      assert Splice(before, o, chunk)[..o + |chunk|] == before[..o] + chunk;
    }
  }

  /** Writing every field determines the buffer, whatever was in it. */
  lemma WrittenBuffer(b: Bytes, fields: seq<Type>, values: seq<Value>)
    requires |b| == TupleSize(fields) && Fitting(values, fields, 0) && |values| == |fields|
    ensures WriteFields(b, fields, 0, values) == Joined(Chunks(values), |values|)
  {
    FittingChunks(values, fields, 0);
    WrittenPrefix(b, fields, Chunks(values), |values|);
    var after := WriteFields(b, fields, 0, values);
    assert after[..|b|] == after;
  }
}
