/** The insert, update, delete and index-lookup executors of `execution/` and
    `rebuildIndexes` of `recovery/no_log_recovery.go`, without a transaction: every index of
    a table holds exactly one entry per live row. A child executor is the list of rows it
    has yielded. */
module IndexMaintenance {
  import opened PageBytes
  import opened Values
  import opened Serialization
  import opened Tuples
  import opened Records
  import opened IndexContents
  import opened Expressions
  import opened HeapIterator
  import opened TableHeaps
  import opened RowTables
  import HeapPages

  // Keys.

  /** The table columns that make up the key. */
  datatype IndexDef = IndexDef(proj: seq<nat>)

  predicate DefOk(def: IndexDef, width: nat) {
    forall i :: 0 <= i < |def.proj| ==> def.proj[i] < width
  }

  predicate DefsOk(defs: seq<IndexDef>, width: nat) {
    forall d :: 0 <= d < |defs| ==> DefOk(defs[d], width)
  }

  function Project<T>(def: IndexDef, columns: seq<T>): (r: seq<T>)
    requires DefOk(def, |columns|)
    ensures |r| == |def.proj| && forall i :: 0 <= i < |r| ==> r[i] == columns[def.proj[i]]
  {
    seq(|def.proj|, i requires 0 <= i < |def.proj| => columns[def.proj[i]])
  }

  /** Storable values whose types are the fields. */
  predicate FitsRow(values: seq<Value>, fields: seq<Type>) {
    |values| == |fields| && Fitting(values, fields, 0)
  }

  lemma ProjectFits(def: IndexDef, values: seq<Value>, fields: seq<Type>)
    requires FitsRow(values, fields) && DefOk(def, |fields|)
    ensures FitsRow(Project(def, values), Project(def, fields))
  {
    forall k | 0 <= k < |def.proj|
      ensures Storable(Project(def, values)[k]) && TypeOf(Project(def, values)[k]) == Project(def, fields)[0 + k]
    {
      assert Storable(values[def.proj[k]]) && TypeOf(values[def.proj[k]]) == fields[0 + def.proj[k]];
    }
  }

  /** The key bytes of a row of values. */
  function KeyOfValues(def: IndexDef, values: seq<Value>, fields: seq<Type>): Bytes
    requires FitsRow(values, fields) && DefOk(def, |fields|)
  {
    ProjectFits(def, values, fields);
    Joined(Chunks(Project(def, values)), |def.proj|)
  }

  /** The key buffer as the executors fill it. */
  method BuildKey(def: IndexDef, values: seq<Value>, fields: seq<Type>) returns (key: Bytes)
    requires FitsRow(values, fields) && DefOk(def, |fields|)
    ensures key == KeyOfValues(def, values, fields) && |key| == TupleSize(Project(def, fields))
    ensures forall i :: 0 <= i < |def.proj| ==>
      Storable(values[def.proj[i]]) && FieldBytes(key, Project(def, fields), i) == WriteValue(values[def.proj[i]])
  {
    ProjectFits(def, values, fields);
    var keyFields, keyValues := Project(def, fields), Project(def, values);
    var keyBuf := new Byte[TupleSize(keyFields)];
    var t := Tuple([], [], keyValues);
    assert t.Types() == keyFields && keyFields[0..|keyFields|] == keyFields;
    WrittenBuffer(keyBuf[..], keyFields, keyValues);
    WriteToBuffer(keyBuf, keyFields, t);
    key := keyBuf[..];
    KeyFields(def, values, fields, key);
  }

  /** Field by field a key holds the stored form of the projected values. */
  lemma KeyFields(def: IndexDef, values: seq<Value>, fields: seq<Type>, key: Bytes)
    requires FitsRow(values, fields) && DefOk(def, |fields|)
    requires key == KeyOfValues(def, values, fields) && |key| == TupleSize(Project(def, fields))
    ensures forall i :: 0 <= i < |def.proj| ==>
      Storable(values[def.proj[i]]) && FieldBytes(key, Project(def, fields), i) == WriteValue(values[def.proj[i]])
  {
    ProjectFits(def, values, fields);
    var keyFields, keyValues := Project(def, fields), Project(def, values);
    FittingChunks(keyValues, keyFields, 0);
    WrittenBuffer(key, keyFields, keyValues);
    forall i | 0 <= i < |def.proj|
      ensures Storable(values[def.proj[i]]) && FieldBytes(key, keyFields, i) == WriteValue(values[def.proj[i]])
    {
      FieldAfterPuts(key, keyFields, 0, Chunks(keyValues), |keyValues|, i);
      assert keyValues[i] == values[def.proj[i]];
    }
  }

  function RowValues(row: Bytes, fields: seq<Type>): (values: seq<Value>)
    requires |row| == TupleSize(fields)
    ensures |values| == |fields| && forall i :: 0 <= i < |fields| ==> values[i] == GetField(row, fields, i)
  {
    seq(|fields|, i requires 0 <= i < |fields| => GetField(row, fields, i))
  }

  lemma RowValuesFit(row: Bytes, fields: seq<Type>)
    requires |row| == TupleSize(fields)
    ensures FitsRow(RowValues(row, fields), fields)
  {
    forall k | 0 <= k < |fields|
      ensures Storable(RowValues(row, fields)[k]) && TypeOf(RowValues(row, fields)[k]) == fields[0 + k]
    {
      ReadIsCanonical(fields[k], FieldBytes(row, fields, k));
    }
  }

  // Keys of values that storage changes.

  /** Nothing hides behind a NUL in the key columns. */
  predicate KeyClear(def: IndexDef, values: seq<Value>)
    requires DefOk(def, |values|)
  {
    forall i :: 0 <= i < |def.proj| ==> TailClear(values[def.proj[i]])
  }

  predicate KeysClear(defs: seq<IndexDef>, values: seq<Value>)
    requires DefsOk(defs, |values|)
  {
    forall d :: 0 <= d < |defs| ==> KeyClear(defs[d], values)
  }

  lemma {:induction false} JoinedEqualIff(a: seq<Bytes>, b: seq<Bytes>, n: nat)
    requires n <= |a| == |b| && forall k :: 0 <= k < n ==> |a[k]| == |b[k]|
    ensures |Joined(a, n)| == |Joined(b, n)|
    ensures Joined(a, n) == Joined(b, n) <==> forall k :: 0 <= k < n ==> a[k] == b[k]
  {
    if n > 0 {
      JoinedEqualIff(a, b, n - 1);
      SplitEqual(Joined(a, n - 1), a[n - 1], Joined(b, n - 1), b[n - 1]);
    }
  }

  lemma SplitEqual(a: Bytes, b: Bytes, c: Bytes, d: Bytes)
    requires |a| == |c|
    ensures a + b == c + d <==> a == c && b == d
  {
    if a + b == c + d {
      assert a == (a + b)[..|a|] == (c + d)[..|c|] == c;
      assert b == (a + b)[|a|..] == (c + d)[|c|..] == d;
    }
  }

  lemma StoredAgain(values: seq<Value>)
    requires forall k :: 0 <= k < |values| ==> Storable(values[k])
    ensures forall k :: 0 <= k < |values| ==> Storable(AllStored(values)[k])
  {
    forall k | 0 <= k < |values|
      ensures Storable(AllStored(values)[k])
    {
      ReadIsCanonical(TypeOf(values[k]), WriteValue(values[k]));
    }
  }

  lemma ChunksSurviveIff(values: seq<Value>)
    requires forall k :: 0 <= k < |values| ==> Storable(values[k])
    ensures forall k :: 0 <= k < |values| ==> Storable(AllStored(values)[k])
    ensures Joined(Chunks(AllStored(values)), |values|) == Joined(Chunks(values), |values|)
      <==> forall k :: 0 <= k < |values| ==> TailClear(values[k])
  {
    StoredAgain(values);
    var a, b := Chunks(AllStored(values)), Chunks(values);
    forall k | 0 <= k < |values|
      ensures a[k] == b[k] <==> TailClear(values[k])
    {
      KeyBytesSurviveIff(values[k]);
    }
    JoinedEqualIff(a, b, |values|);
  }

  lemma AllStoredFits(values: seq<Value>, fields: seq<Type>)
    requires FitsRow(values, fields)
    ensures FitsRow(AllStored(values), fields)
  {
    StoredAgain(values);
    forall k | 0 <= k < |values|
      ensures TypeOf(AllStored(values)[k]) == fields[0 + k]
    {
    }
  }

  lemma ProjectStored(def: IndexDef, values: seq<Value>, fields: seq<Type>)
    requires FitsRow(values, fields) && DefOk(def, |fields|)
    ensures FitsRow(Project(def, values), Project(def, fields))
    ensures Project(def, AllStored(values)) == AllStored(Project(def, values))
  {
    ProjectFits(def, values, fields);
  }

  /** The key computed before a row is stored is the one computed from the stored row,
      exactly when nothing hides behind a NUL in its columns. */
  lemma KeySurvivesIff(def: IndexDef, values: seq<Value>, fields: seq<Type>)
    requires FitsRow(values, fields) && DefOk(def, |fields|)
    ensures FitsRow(AllStored(values), fields)
    ensures KeyOfValues(def, AllStored(values), fields) == KeyOfValues(def, values, fields) <==> KeyClear(def, values)
  {
    AllStoredFits(values, fields);
    ProjectStored(def, values, fields);
    ChunksSurviveIff(Project(def, values));
  }

  lemma CanonicalIsClear(v: Value)
    requires Canonical(v)
    ensures TailClear(v)
  {
  }

  lemma RowKeysClear(row: Bytes, fields: seq<Type>, defs: seq<IndexDef>)
    requires |row| == TupleSize(fields) && DefsOk(defs, |fields|)
    ensures KeysClear(defs, RowValues(row, fields))
    ensures FitsRow(RowValues(row, fields), fields) && AllStored(RowValues(row, fields)) == RowValues(row, fields)
  {
    var values := RowValues(row, fields);
    RowValuesFit(row, fields);
    forall k | 0 <= k < |fields|
      ensures Canonical(values[k]) && TailClear(values[k])
    {
      ReadIsCanonical(fields[k], FieldBytes(row, fields, k));
      CanonicalIsClear(values[k]);
    }
    AllStoredIffCanonical(values);
  }

  ghost function KeyOf(def: IndexDef, row: Bytes, fields: seq<Type>): Bytes {
    if |row| == TupleSize(fields) && DefOk(def, |fields|) then
      RowValuesFit(row, fields);
      KeyOfValues(def, RowValues(row, fields), fields)
    else []
  }

  ghost function KeysOf(rows: Rows, def: IndexDef, fields: seq<Type>): Keys {
    map rid | rid in rows :: KeyOf(def, rows[rid], fields)
  }

  lemma KeysOfUpdate(rows: Rows, def: IndexDef, fields: seq<Type>, rid: RecordID, row: Bytes)
    ensures KeysOf(rows[rid := row], def, fields) == KeysOf(rows, def, fields)[rid := KeyOf(def, row, fields)]
    ensures KeysOf(rows - {rid}, def, fields) == KeysOf(rows, def, fields) - {rid}
  {
  }

  // Agreement of all indexes of a table.

  ghost predicate AgreesFor(indexes: seq<Index>, rows: Rows, defs: seq<IndexDef>, fields: seq<Type>, d: nat)
    requires d < |defs| == |indexes|
  {
    Agrees(indexes[d], KeysOf(rows, defs[d], fields))
  }

  ghost predicate AllAgree(indexes: seq<Index>, rows: Rows, defs: seq<IndexDef>, fields: seq<Type>) {
    |indexes| == |defs| && forall d :: 0 <= d < |defs| ==> AgreesFor(indexes, rows, defs, fields, d)
  }

  // One row and all indexes.

  /** The index loop of the insert executor. */
  method AddToIndexes(indexes: seq<Index>, defs: seq<IndexDef>, fields: seq<Type>, values: seq<Value>, rid: RecordID)
    returns (out: seq<Index>)
    requires |indexes| == |defs| && DefsOk(defs, |fields|) && FitsRow(values, fields)
    ensures |out| == |indexes|
    ensures forall d :: 0 <= d < |out| ==> out[d] == AddEntry(indexes[d], KeyOfValues(defs[d], values, fields), rid)
  {
    out := indexes;
    var d := 0;
    while d < |indexes|
      invariant 0 <= d <= |indexes| == |out|
      invariant forall k :: 0 <= k < d ==> out[k] == AddEntry(indexes[k], KeyOfValues(defs[k], values, fields), rid)
      invariant forall k :: d <= k < |out| ==> out[k] == indexes[k]
    {
      var key := BuildKey(defs[d], values, fields);
      out := out[d := AddEntry(out[d], key, rid)];
      d := d + 1;
    }
  }

  method DeleteEntry(index: Index, key: Bytes, rid: RecordID) returns (out: Index)
    requires NoDuplicates(Entries(index, key))
    ensures out == DropEntry(index, key, rid)
  {
    if key !in index {
      return index;
    }
    SweepOfDistinct(index[key], rid);
    var outcome := SwapRemove(index[key], rid);
    if rid !in index[key] {
      return index;
    }
    var rids := outcome.rids;
    return if rids == [] then index - {key} else index[key := rids];
  }

  /** The index loop of the delete executor. */
  method DropFromIndexes(indexes: seq<Index>, defs: seq<IndexDef>, fields: seq<Type>, values: seq<Value>, rid: RecordID)
    returns (out: seq<Index>)
    requires |indexes| == |defs| && DefsOk(defs, |fields|) && FitsRow(values, fields)
    requires forall d, key :: 0 <= d < |indexes| ==> NoDuplicates(Entries(indexes[d], key))
    ensures |out| == |indexes|
    ensures forall d :: 0 <= d < |out| ==> out[d] == DropEntry(indexes[d], KeyOfValues(defs[d], values, fields), rid)
  {
    out := indexes;
    var d := 0;
    while d < |indexes|
      invariant 0 <= d <= |indexes| == |out|
      invariant forall k :: 0 <= k < d ==> out[k] == DropEntry(indexes[k], KeyOfValues(defs[k], values, fields), rid)
      invariant forall k :: d <= k < |out| ==> out[k] == indexes[k]
    {
      var key := BuildKey(defs[d], values, fields);
      var index := DeleteEntry(out[d], key, rid);
      out := out[d := index];
      d := d + 1;
    }
  }

  /** The loop that compares the old and the new key columns. */
  method KeyChanged(was: seq<Value>, now: seq<Value>) returns (changed: bool)
    requires |was| == |now| && forall i :: 0 <= i < |was| ==> TypeOf(was[i]) == TypeOf(now[i])
    ensures changed <==> was != now
  {
    changed := false;
    var i := 0;
    while i < |was|
      invariant 0 <= i <= |was| && (changed <==> was[..i] != now[..i])
    {
      CompareZero(was[i], now[i]);
      assert was[..i + 1] == was[..i] + [was[i]] && now[..i + 1] == now[..i] + [now[i]];
      if Compare(was[i], now[i]) != 0 {
        changed := true;
      }
      i := i + 1;
    }
    assert was[..i] == was && now[..i] == now;
  }

  function Moved(index: Index, def: IndexDef, fields: seq<Type>, was: seq<Value>, now: seq<Value>, rid: RecordID): Index
    requires FitsRow(was, fields) && FitsRow(now, fields) && DefOk(def, |fields|)
  {
    if Project(def, was) == Project(def, now) then index
    else AddEntry(DropEntry(index, KeyOfValues(def, was, fields), rid), KeyOfValues(def, now, fields), rid)
  }

  /** The index loop of the update executor: an entry moves only if its key changed. */
  method MoveInIndexes(indexes: seq<Index>, defs: seq<IndexDef>, fields: seq<Type>, was: seq<Value>, now: seq<Value>,
                       rid: RecordID)
    returns (out: seq<Index>)
    requires |indexes| == |defs| && DefsOk(defs, |fields|) && FitsRow(was, fields) && FitsRow(now, fields)
    requires forall d, key :: 0 <= d < |indexes| ==> NoDuplicates(Entries(indexes[d], key))
    ensures |out| == |indexes|
    ensures forall d :: 0 <= d < |out| ==> out[d] == Moved(indexes[d], defs[d], fields, was, now, rid)
  {
    out := indexes;
    var d := 0;
    while d < |indexes|
      invariant 0 <= d <= |indexes| == |out|
      invariant forall k :: 0 <= k < d ==> out[k] == Moved(indexes[k], defs[k], fields, was, now, rid)
      invariant forall k :: d <= k < |out| ==> out[k] == indexes[k]
    {
      var index := MoveEntry(out[d], defs[d], fields, was, now, rid);
      out := out[d := index];
      d := d + 1;
    }
  }

  method MoveEntry(index: Index, def: IndexDef, fields: seq<Type>, was: seq<Value>, now: seq<Value>, rid: RecordID)
    returns (out: Index)
    requires FitsRow(was, fields) && FitsRow(now, fields) && DefOk(def, |fields|)
    requires forall key :: NoDuplicates(Entries(index, key))
    ensures out == Moved(index, def, fields, was, now, rid)
    ensures Project(def, was) == Project(def, now) ==> out == index
  {
    out := index;
    ProjectFits(def, was, fields);
    ProjectFits(def, now, fields);
    var oldKey, newKey := Project(def, was), Project(def, now);
    assert forall i :: 0 <= i < |oldKey| ==> TypeOf(oldKey[i]) == Project(def, fields)[0 + i] == TypeOf(newKey[i]);
    var changed := KeyChanged(oldKey, newKey);
    if changed {
      var oldBytes := BuildKey(def, was, fields);
      out := DeleteEntry(index, oldBytes, rid);
      var newBytes := BuildKey(def, now, fields);
      out := AddEntry(out, newBytes, rid);
    }
  }

  // What each change of a row does to agreement.

  lemma NoDuplicatesInIndexes(indexes: seq<Index>, made: seq<Keys>, defs: seq<IndexDef>)
    requires Keyed(indexes, made, defs)
    ensures forall d, key :: 0 <= d < |indexes| ==> NoDuplicates(Entries(indexes[d], key))
  {
    forall d, key | 0 <= d < |indexes|
      ensures NoDuplicates(Entries(indexes[d], key))
    {
      assert AgreesAt(indexes[d], made[d], key);
    }
  }

  /** The keys of the rows as they are stored. */
  ghost function StoredKeys(rows: Rows, defs: seq<IndexDef>, fields: seq<Type>): (made: seq<Keys>)
    ensures |made| == |defs| && forall d :: 0 <= d < |defs| ==> made[d] == KeysOf(rows, defs[d], fields)
  {
    seq(|defs|, d requires 0 <= d < |defs| => KeysOf(rows, defs[d], fields))
  }

  lemma AgreedIsKeyed(indexes: seq<Index>, rows: Rows, defs: seq<IndexDef>, fields: seq<Type>)
    requires AllAgree(indexes, rows, defs, fields)
    ensures Keyed(indexes, StoredKeys(rows, defs, fields), defs)
  {
    forall d | 0 <= d < |defs|
      ensures Agrees(indexes[d], StoredKeys(rows, defs, fields)[d])
    {
      assert AgreesFor(indexes, rows, defs, fields, d);
    }
  }

  lemma InsertAgreesFor(index: Index, rows: Rows, def: IndexDef, fields: seq<Type>, rid: RecordID, row: Bytes,
                        values: seq<Value>)
    requires DefOk(def, |fields|) && rid !in rows && FitsRow(values, fields)
    requires |row| == TupleSize(fields) && RowValues(row, fields) == AllStored(values)
    ensures Agrees(AddEntry(index, KeyOfValues(def, values, fields), rid), KeysOf(rows[rid := row], def, fields))
      <==> Agrees(index, KeysOf(rows, def, fields)) && KeyClear(def, values)
  {
    KeysOfUpdate(rows, def, fields, rid, row);
    KeySurvivesIff(def, values, fields);
    AddAgreesIff(index, KeysOf(rows, def, fields), rid, KeyOf(def, row, fields), KeyOfValues(def, values, fields));
  }

  /** After an insert every index agrees exactly if every index agreed before and nothing
      hides behind a NUL in the row's key columns. */
  lemma InsertAgreesIff(indexes: seq<Index>, out: seq<Index>, rows: Rows, defs: seq<IndexDef>, fields: seq<Type>,
                        rid: RecordID, row: Bytes, values: seq<Value>)
    requires |indexes| == |out| == |defs| && DefsOk(defs, |fields|) && rid !in rows && FitsRow(values, fields)
    requires |row| == TupleSize(fields) && RowValues(row, fields) == AllStored(values)
    requires forall d :: 0 <= d < |out| ==> out[d] == AddEntry(indexes[d], KeyOfValues(defs[d], values, fields), rid)
    ensures AllAgree(out, rows[rid := row], defs, fields) <==>
      AllAgree(indexes, rows, defs, fields) && KeysClear(defs, values)
  {
    var after := rows[rid := row];
    forall d | 0 <= d < |defs|
      ensures AgreesFor(out, after, defs, fields, d) <==>
        AgreesFor(indexes, rows, defs, fields, d) && KeyClear(defs[d], values)
    {
      InsertAgreesFor(indexes[d], rows, defs[d], fields, rid, row, values);
    }
  }

  lemma DeleteKeepsAgreement(indexes: seq<Index>, out: seq<Index>, rows: Rows, defs: seq<IndexDef>, fields: seq<Type>,
                             rid: RecordID)
    requires AllAgree(indexes, rows, defs, fields) && DefsOk(defs, |fields|)
    requires rid in rows && |rows[rid]| == TupleSize(fields) && FitsRow(RowValues(rows[rid], fields), fields)
    requires |out| == |indexes|
    requires forall d :: 0 <= d < |out| ==>
      out[d] == DropEntry(indexes[d], KeyOfValues(defs[d], RowValues(rows[rid], fields), fields), rid)
    ensures AllAgree(out, rows - {rid}, defs, fields)
  {
    var after := rows - {rid};
    forall d | 0 <= d < |defs|
      ensures AgreesFor(out, after, defs, fields, d)
    {
      assert AgreesFor(indexes, rows, defs, fields, d);
      KeysOfUpdate(rows, defs[d], fields, rid, []);
      DropAgrees(indexes[d], KeysOf(rows, defs[d], fields), rid);
    }
  }

  /** Each index agrees with the keys its entries were made with. */
  ghost predicate Keyed(indexes: seq<Index>, made: seq<Keys>, defs: seq<IndexDef>) {
    |indexes| == |made| == |defs| && forall d :: 0 <= d < |defs| ==> Agrees(indexes[d], made[d])
  }

  /** The keys after the entries of `rid` were made anew. */
  ghost function MadeAnew(made: seq<Keys>, defs: seq<IndexDef>, fields: seq<Type>, now: seq<Value>,
                          rid: RecordID): (r: seq<Keys>)
    requires |made| == |defs| && DefsOk(defs, |fields|) && FitsRow(now, fields)
    ensures |r| == |made| && forall d :: 0 <= d < |r| ==> r[d] == made[d][rid := KeyOfValues(defs[d], now, fields)]
  {
    seq(|made|, d requires 0 <= d < |made| => made[d][rid := KeyOfValues(defs[d], now, fields)])
  }

  lemma MovedIsKeyed(index: Index, keys: Keys, def: IndexDef, fields: seq<Type>, was: seq<Value>, now: seq<Value>,
                     rid: RecordID)
    requires DefOk(def, |fields|) && FitsRow(was, fields) && FitsRow(now, fields) && Agrees(index, keys)
    requires rid in keys && keys[rid] == KeyOfValues(def, was, fields)
    ensures Agrees(Moved(index, def, fields, was, now, rid), keys[rid := KeyOfValues(def, now, fields)])
  {
    var key := KeyOfValues(def, now, fields);
    if Project(def, was) == Project(def, now) {
      assert keys[rid := key] == keys;
    } else {
      ReplaceAgrees(index, keys, rid, key, key);
    }
  }

  /** Moving the entries of a changed row keeps each index at the keys its entries were made
      with, the changed row's being those of its new values. */
  lemma MoveKeepsKeyed(indexes: seq<Index>, out: seq<Index>, made: seq<Keys>, defs: seq<IndexDef>, fields: seq<Type>,
                       was: seq<Value>, now: seq<Value>, rid: RecordID)
    requires Keyed(indexes, made, defs) && DefsOk(defs, |fields|) && |out| == |indexes|
    requires FitsRow(was, fields) && FitsRow(now, fields)
    requires forall d :: 0 <= d < |defs| ==> rid in made[d] && made[d][rid] == KeyOfValues(defs[d], was, fields)
    requires forall d :: 0 <= d < |out| ==> out[d] == Moved(indexes[d], defs[d], fields, was, now, rid)
    ensures Keyed(out, MadeAnew(made, defs, fields, now, rid), defs)
  {
    forall d | 0 <= d < |defs|
      ensures Agrees(out[d], MadeAnew(made, defs, fields, now, rid)[d])
    {
      MovedIsKeyed(indexes[d], made[d], defs[d], fields, was, now, rid);
    }
  }

  lemma AgreedIffKeysMatch(indexes: seq<Index>, made: seq<Keys>, rows: Rows, defs: seq<IndexDef>, fields: seq<Type>)
    requires Keyed(indexes, made, defs)
    ensures AllAgree(indexes, rows, defs, fields) <==>
      forall d :: 0 <= d < |defs| ==> made[d] == KeysOf(rows, defs[d], fields)
  {
    forall d | 0 <= d < |defs|
      ensures AgreesFor(indexes, rows, defs, fields, d) <==> made[d] == KeysOf(rows, defs[d], fields)
    {
      KeysAreDetermined(indexes[d], made[d], KeysOf(rows, defs[d], fields));
    }
  }

  // The executors.

  /** The new row of an update: an expression where the statement gives one, the old value
      elsewhere. */
  function NewValues(exprs: seq<Option<Expr>>, values: seq<Value>, like: LikeMatch): (now: seq<Value>)
    requires |exprs| == |values|
    ensures |now| == |values|
  {
    seq(|values|,
        i requires 0 <= i < |values| => if exprs[i].Some? then Eval(exprs[i].value, [], values, like) else values[i])
  }

  ghost predicate DistinctIds(entries: seq<Entry>) {
    forall i, j :: 0 <= i < j < |entries| ==> entries[i].rid != entries[j].rid
  }

  /** The child's rows are rows of the table, each once. */
  ghost predicate RowsOfTable(entries: seq<Entry>, rows: Rows) {
    && DistinctIds(entries)
    && forall i :: 0 <= i < |entries| ==> entries[i].rid in rows && rows[entries[i].rid] == entries[i].row
  }

  class IndexedTable {
    const table: Table
    const fields: seq<Type>
    const defs: seq<IndexDef>
    var indexes: seq<Index>

    /** Everything but the agreement of the indexes. */
    ghost predicate Sound()
      reads this, table, table.heap
    {
      && table.Valid() && table.heap.rowSize == TupleSize(fields)
      && DefsOk(defs, |fields|) && |indexes| == |defs|
    }

    ghost predicate Agreed()
      reads this, table
    {
      AllAgree(indexes, table.rows, defs, fields)
    }

    ghost predicate Valid()
      reads this, table, table.heap
    {
      Sound() && Agreed()
    }

    constructor (fields: seq<Type>, defs: seq<IndexDef>)
      requires HeapPages.LegalRowSize(TupleSize(fields)) && DefsOk(defs, |fields|)
      ensures Valid() && table.rows == map[]
    {
      this.fields, this.defs := fields, defs;
      table := new Table(TupleSize(fields));
      indexes := seq(|defs|, _ => map[]);
      new;
      EmptyIndexesAgree(indexes, defs, fields);
    }

    /** The bytes of a row of values. */
    method Serialize(t: Tuple) returns (row: Bytes)
      requires Matches(t, fields, 0) && t.NumColumns() == |fields|
      ensures |row| == TupleSize(fields) && FitsRow(t.Values(), fields)
      ensures RowValues(row, fields) == AllStored(t.Values())
    {
      var rawBuf := new Byte[TupleSize(fields)];
      WriteToBuffer(rawBuf, fields, t);
      row := rawBuf[..];
      forall i | 0 <= i < |fields|
        ensures RowValues(row, fields)[i] == AllStored(t.Values())[i]
      {
        assert GetField(row, fields, 0 + i) == AllStored(t.Values())[i];
      }
    }

    method InsertRow(t: Tuple) returns (rid: RecordID)
      requires Sound() && Matches(t, fields, 0) && t.NumColumns() == |fields|
      modifies this`indexes, table, table.heap
      ensures Sound() && Extended(old(table.rows), table.rows, rid) && HasValues(table.rows[rid], fields, t.Values())
      ensures Agreed() <==> old(Agreed()) && RowClear(t, defs)
    {
      var row := Serialize(t);
      ghost var before := table.rows;
      rid := table.Insert(row);
      var out := AddToIndexes(indexes, defs, fields, t.Values(), rid);
      InsertAgreesIff(indexes, out, before, defs, fields, rid, row, t.Values());
      indexes := out;
    }

    /** One new row for each of the first rows of the child, nothing else changed, and the
        indexes agree exactly if they did at the start and those rows' keys are clear. */
    ghost predicate InsertedSoFar(before: Rows, agreed: bool, child: seq<Tuple>, rids: seq<RecordID>)
      reads this, table, table.heap
    {
      && Sound() && |rids| <= |child|
      && ExtendedBy(before, table.rows, rids) && HaveValues(table.rows, rids, child, fields)
      && (Agreed() <==> agreed && RowsClear(child, |rids|, defs))
    }

    method InsertNext(child: seq<Tuple>, rids: seq<RecordID>, ghost before: Rows, ghost agreed: bool)
      returns (more: seq<RecordID>)
      requires InsertedSoFar(before, agreed, child, rids) && |rids| < |child|
      requires Matches(child[|rids|], fields, 0) && child[|rids|].NumColumns() == |fields|
      modifies this`indexes, table, table.heap
      ensures InsertedSoFar(before, agreed, child, more) && |more| == |rids| + 1
    {
      ghost var mid := table.rows;
      var rid := InsertRow(child[|rids|]);
      more := rids + [rid];
      ExtendedOnce(before, mid, table.rows, rids, rid, child, fields);
      OneMoreClear(child, |rids|, defs);
    }

    /** The insert executor: one new row per row of the child, nothing else changes, and the
        indexes agree afterwards exactly if they did before and nothing hides behind a NUL
        in a key column of the child's rows. */
    method Insert(child: seq<Tuple>) returns (count: nat, rids: seq<RecordID>)
      requires Sound()
      requires forall i :: 0 <= i < |child| ==> Matches(child[i], fields, 0) && child[i].NumColumns() == |fields|
      modifies this`indexes, table, table.heap
      ensures Sound() && count == |child| == |rids| && ExtendedBy(old(table.rows), table.rows, rids)
      ensures HaveValues(table.rows, rids, child, fields)
      ensures Agreed() <==> old(Agreed()) && RowsClear(child, |child|, defs)
    {
      count, rids := 0, [];
      ghost var before, agreed := table.rows, Agreed();
      while count < |child|
        invariant 0 <= count <= |child| && count == |rids| && InsertedSoFar(before, agreed, child, rids)
      {
        rids := InsertNext(child, rids, before, agreed);
        count := count + 1;
      }
    }

    /** Writes the new values over the row. */
    method StoreUpdate(rid: RecordID, now: seq<Value>) returns (ok: bool, row: Bytes)
      requires Sound() && rid in table.rows && FitsRow(now, fields)
      modifies table, table.heap
      ensures Sound() && ok && table.rows == old(table.rows)[rid := row]
      ensures |row| == TupleSize(fields) && RowValues(row, fields) == AllStored(now)
    {
      FittingTuple(now, fields);
      row := Serialize(Tuple([], [], now));
      var outcome := table.Update(rid, row);
      ok := outcome == Done;
    }

    /** One row, whatever was made of the others. */
    method UpdateRow(e: Entry, exprs: seq<Option<Expr>>, like: LikeMatch, ghost made: seq<Keys>)
      returns (ok: bool, ghost anew: seq<Keys>)
      requires Sound() && e.rid in table.rows && table.rows[e.rid] == e.row && UpdateFits(e, exprs, like, fields)
      requires Keyed(indexes, made, defs) && MadeFrom(made, e, defs, fields)
      modifies this`indexes, table, table.heap
      ensures Sound() && ok && e.rid in table.rows && table.rows == old(table.rows)[e.rid := table.rows[e.rid]]
      ensures IsUpdated(table.rows[e.rid], e, exprs, like, fields)
      ensures Keyed(indexes, anew, defs) && MadeFor(made, anew, e, exprs, like, defs, fields)
    {
      var was := RowValues(e.row, fields);
      var now := NewValues(exprs, was, like);
      RowValuesFit(e.row, fields);
      NewValuesFit(e, exprs, like, fields);
      var row;
      ok, row := StoreUpdate(e.rid, now);
      NewValuesStored(row, e, exprs, like, fields);
      NoDuplicatesInIndexes(indexes, made, defs);
      var out := MoveInIndexes(indexes, defs, fields, was, now, e.rid);
      MoveKeepsKeyed(indexes, out, made, defs, fields, was, now, e.rid);
      anew := MadeAnew(made, defs, fields, now, e.rid);
      indexes := out;
    }

    /** What holds after the first `n` victims. */
    ghost predicate UpdatedSoFar(before: Rows, victims: seq<Entry>, exprs: seq<Option<Expr>>, like: LikeMatch,
                                 made: seq<Keys>, n: nat)
      requires n <= |victims|
      reads this, table, table.heap
    {
      && Sound() && Keyed(indexes, made, defs) && table.rows.Keys == before.Keys
      && RowsAsBefore(before, table.rows, victims, n)
      && (forall i :: 0 <= i < n ==>
            victims[i].rid in table.rows && IsUpdated(table.rows[victims[i].rid], victims[i], exprs, like, fields))
      && KeysSoFar(before, victims, exprs, like, made, defs, fields, n)
    }

    method UpdateNext(victims: seq<Entry>, exprs: seq<Option<Expr>>, like: LikeMatch, ghost before: Rows,
                      ghost made: seq<Keys>, n: nat)
      returns (ok: bool, ghost anew: seq<Keys>)
      requires n < |victims| && RowsOfTable(victims, before) && AllFit(victims, exprs, like, fields)
      requires UpdatedSoFar(before, victims, exprs, like, made, n)
      modifies this`indexes, table, table.heap
      ensures ok && UpdatedSoFar(before, victims, exprs, like, anew, n + 1)
    {
      NextIsUntouched(before, table.rows, victims, exprs, like, made, defs, fields, n);
      ghost var rows := table.rows;
      ok, anew := UpdateRow(victims[n], exprs, like, made);
      OneMoreUpdated(before, rows, table.rows, victims, exprs, like, made, anew, defs, fields, n);
    }

    /** The update executor: the child's rows get their new values, the others stay, and the
        indexes agree afterwards exactly if nothing hides behind a NUL in a key column that
        was set. */
    method Update(victims: seq<Entry>, exprs: seq<Option<Expr>>, like: LikeMatch) returns (count: nat, ok: bool)
      requires Valid() && RowsOfTable(victims, table.rows) && AllFit(victims, exprs, like, fields)
      modifies this`indexes, table, table.heap
      ensures Sound() && ok && count == |victims| && table.rows.Keys == old(table.rows.Keys)
      ensures RowsAsBefore(old(table.rows), table.rows, victims, |victims|)
      ensures forall i :: 0 <= i < |victims| ==>
        IsUpdated(table.rows[victims[i].rid], victims[i], exprs, like, fields)
      ensures Agreed() <==> forall i :: 0 <= i < |victims| ==> UpdateClear(victims[i], exprs, like, fields, defs)
    {
      count, ok := 0, true;
      ghost var before, made := table.rows, StoredKeys(table.rows, defs, fields);
      AgreedIsKeyed(indexes, table.rows, defs, fields);
      while count < |victims|
        invariant 0 <= count <= |victims| && ok && UpdatedSoFar(before, victims, exprs, like, made, count)
      {
        ok, made := UpdateNext(victims, exprs, like, before, made, count);
        count := count + 1;
      }
      UpdatesAgreeIff(indexes, before, table.rows, victims, exprs, like, made, defs, fields);
    }

    method DeleteRow(e: Entry) returns (ok: bool)
      requires Valid() && e.rid in table.rows && table.rows[e.rid] == e.row && |e.row| == TupleSize(fields)
      modifies this`indexes, table, table.heap
      ensures Valid() && ok && table.rows == old(table.rows) - {e.rid}
    {
      var values := RowValues(e.row, fields);
      RowValuesFit(e.row, fields);
      ghost var before := table.rows;
      AgreedIsKeyed(indexes, before, defs, fields);
      NoDuplicatesInIndexes(indexes, StoredKeys(before, defs, fields), defs);
      var out := DropFromIndexes(indexes, defs, fields, values, e.rid);
      DeleteKeepsAgreement(indexes, out, before, defs, fields, e.rid);
      indexes := out;
      var outcome := table.Delete(e.rid);
      return outcome == Done;
    }

    /** The delete executor: exactly the child's rows go. */
    method Delete(victims: seq<Entry>) returns (count: nat, ok: bool)
      requires Valid() && RowsOfTable(victims, table.rows)
      requires forall i :: 0 <= i < |victims| ==> |victims[i].row| == TupleSize(fields)
      modifies this`indexes, table, table.heap
      ensures Valid() && ok && count == |victims|
      ensures table.rows == old(table.rows) - (set i | 0 <= i < |victims| :: victims[i].rid)
    {
      count, ok := 0, true;
      while count < |victims|
        invariant Valid() && ok && 0 <= count <= |victims|
        invariant table.rows == old(table.rows) - (set i | 0 <= i < count :: victims[i].rid)
      {
        ok := DeleteRow(victims[count]);
        count := count + 1;
      }
    }

    /** The index lookup executor: exactly the live rows whose key bytes match, once each. */
    method Lookup(d: nat, key: Bytes) returns (entries: seq<Entry>, ok: bool)
      requires Valid() && d < |defs|
      ensures ok && DistinctIds(entries)
      ensures forall e :: e in entries <==>
        e.rid in table.rows && table.rows[e.rid] == e.row && KeyOf(defs[d], e.row, fields) == key
    {
      var rids := Entries(indexes[d], key);
      ghost var keys := KeysOf(table.rows, defs[d], fields);
      assert AgreesFor(indexes, table.rows, defs, fields, d);
      assert AgreesAt(indexes[d], keys, key);
      entries, ok := [], true;
      var ridIdx := 0;
      while ridIdx < |rids|
        invariant 0 <= ridIdx <= |rids| && ok && |entries| == ridIdx
        invariant forall i :: 0 <= i < ridIdx ==>
          rids[i] in table.rows && entries[i] == Entry(rids[i], table.rows[rids[i]])
      {
        assert rids[ridIdx] in keys;
        var outcome, row := table.Read(rids[ridIdx]);
        if outcome != Done {
          return entries, false;
        }
        entries := entries + [Entry(rids[ridIdx], row)];
        ridIdx := ridIdx + 1;
      }
      LookedUp(table.rows, defs[d], fields, key, rids, entries);
    }

    /** `rebuildIndexes`: from the heap alone, the same contents as the maintained indexes. */
    method Rebuild() returns (rebuilt: seq<Index>)
      requires Valid()
      ensures AllAgree(rebuilt, table.rows, defs, fields)
      ensures forall d, key :: 0 <= d < |defs| ==>
        multiset(Entries(rebuilt[d], key)) == multiset(Entries(indexes[d], key))
    {
      rebuilt := seq(|defs|, _ => map[]);
      ghost var seen: Rows := map[];
      EmptyIndexesAgree(rebuilt, defs, fields);
      var entries := table.ScanAll();
      var i := 0;
      while i < |entries|
        invariant 0 <= i <= |entries| && AllAgree(rebuilt, seen, defs, fields)
        invariant seen.Keys == set k | 0 <= k < i :: entries[k].rid
        invariant forall k :: 0 <= k < i ==> seen[entries[k].rid] == entries[k].row
      {
        var e := entries[i];
        assert e in entries;
        assert RowAtRid(table.rows, table.heap.pages, table.heap.rowSize, e.rid);
        RowKeysClear(e.row, fields, defs);
        var out := AddToIndexes(rebuilt, defs, fields, RowValues(e.row, fields), e.rid);
        InsertAgreesIff(rebuilt, out, seen, defs, fields, e.rid, e.row, RowValues(e.row, fields));
        rebuilt, seen := out, seen[e.rid := e.row];
        i := i + 1;
      }
      SeenAll(seen, table.rows, entries);
      forall d, key | 0 <= d < |defs|
        ensures multiset(Entries(rebuilt[d], key)) == multiset(Entries(indexes[d], key))
      {
        assert AgreesFor(rebuilt, table.rows, defs, fields, d) && AgreesFor(indexes, table.rows, defs, fields, d);
        AgreementIsUnique(rebuilt[d], indexes[d], KeysOf(table.rows, defs[d], fields), key);
      }
    }
  }

  ghost predicate Extended(before: Rows, after: Rows, rid: RecordID) {
    rid !in before && rid in after && after == before[rid := after[rid]]
  }

  /** Nothing hides behind a NUL in the key columns of the row. */
  ghost predicate RowClear(t: Tuple, defs: seq<IndexDef>) {
    t.Valid() && DefsOk(defs, t.NumColumns()) && KeysClear(defs, t.Values())
  }

  ghost predicate RowsClear(child: seq<Tuple>, n: nat, defs: seq<IndexDef>)
    requires n <= |child|
  {
    forall i :: 0 <= i < n ==> RowClear(child[i], defs)
  }

  lemma OneMoreClear(child: seq<Tuple>, n: nat, defs: seq<IndexDef>)
    requires n < |child|
    ensures RowsClear(child, n + 1, defs) <==> RowsClear(child, n, defs) && RowClear(child[n], defs)
  {
  }

  /** The row holds the values, as storage gives them back. */
  ghost predicate HasValues(row: Bytes, fields: seq<Type>, values: seq<Value>) {
    && |row| == TupleSize(fields) && FitsRow(values, fields)
    && RowValues(row, fields) == AllStored(values)
  }

  /** What the statement sets column `k` to, on the row as it was. */
  function SetValueOf(e: Entry, exprs: seq<Option<Expr>>, like: LikeMatch, fields: seq<Type>, k: nat): Value
    requires |e.row| == TupleSize(fields) && k < |exprs| && exprs[k].Some?
  {
    Eval(exprs[k].value, [], RowValues(e.row, fields), like)
  }

  predicate ColumnFits(e: Entry, exprs: seq<Option<Expr>>, like: LikeMatch, fields: seq<Type>, k: nat)
    requires |e.row| == TupleSize(fields) && |exprs| == |fields| && k < |fields|
  {
    exprs[k].Some? ==>
      Storable(SetValueOf(e, exprs, like, fields, k)) && TypeOf(SetValueOf(e, exprs, like, fields, k)) == fields[k]
  }

  /** The values set can be stored and have their columns' types. */
  predicate UpdateFits(e: Entry, exprs: seq<Option<Expr>>, like: LikeMatch, fields: seq<Type>) {
    && |e.row| == TupleSize(fields) && |exprs| == |fields|
    && forall k :: 0 <= k < |fields| ==> ColumnFits(e, exprs, like, fields, k)
  }

  predicate AllFit(victims: seq<Entry>, exprs: seq<Option<Expr>>, like: LikeMatch, fields: seq<Type>) {
    forall i :: 0 <= i < |victims| ==> UpdateFits(victims[i], exprs, like, fields)
  }

  predicate ColumnClear(e: Entry, exprs: seq<Option<Expr>>, like: LikeMatch, fields: seq<Type>, k: nat)
    requires |e.row| == TupleSize(fields) && |exprs| == |fields| && k < |fields|
  {
    exprs[k].Some? ==> TailClear(SetValueOf(e, exprs, like, fields, k))
  }

  /** Nothing hides behind a NUL in a key column that is set. */
  predicate UpdateClear(e: Entry, exprs: seq<Option<Expr>>, like: LikeMatch, fields: seq<Type>, defs: seq<IndexDef>) {
    && |e.row| == TupleSize(fields) && |exprs| == |fields| && DefsOk(defs, |fields|)
    && forall d, i :: 0 <= d < |defs| && 0 <= i < |defs[d].proj| ==>
      ColumnClear(e, exprs, like, fields, defs[d].proj[i])
  }

  /** Column by column: what the statement sets it to, as storage gives it back, or the old
      field. */
  predicate ColumnUpdated(row: Bytes, e: Entry, exprs: seq<Option<Expr>>, like: LikeMatch, fields: seq<Type>, k: nat)
    requires |row| == |e.row| == TupleSize(fields) && |exprs| == |fields| && k < |fields|
    requires ColumnFits(e, exprs, like, fields, k)
  {
    GetField(row, fields, k) ==
      if exprs[k].Some? then AfterStorage(SetValueOf(e, exprs, like, fields, k)) else GetField(e.row, fields, k)
  }

  ghost predicate IsUpdated(row: Bytes, e: Entry, exprs: seq<Option<Expr>>, like: LikeMatch, fields: seq<Type>) {
    && |row| == TupleSize(fields) && UpdateFits(e, exprs, like, fields)
    && forall k :: 0 <= k < |fields| ==> ColumnUpdated(row, e, exprs, like, fields, k)
  }

  lemma NewValuesFit(e: Entry, exprs: seq<Option<Expr>>, like: LikeMatch, fields: seq<Type>)
    requires UpdateFits(e, exprs, like, fields)
    ensures FitsRow(NewValues(exprs, RowValues(e.row, fields), like), fields)
  {
    RowValuesFit(e.row, fields);
    var was, now := RowValues(e.row, fields), NewValues(exprs, RowValues(e.row, fields), like);
    forall k | 0 <= k < |fields|
      ensures Storable(now[k]) && TypeOf(now[k]) == fields[0 + k]
    {
      assert ColumnFits(e, exprs, like, fields, k);
      assert Storable(was[k]) && TypeOf(was[k]) == fields[0 + k];
    }
  }

  lemma NewValuesStored(row: Bytes, e: Entry, exprs: seq<Option<Expr>>, like: LikeMatch, fields: seq<Type>)
    requires UpdateFits(e, exprs, like, fields) && |row| == TupleSize(fields)
    requires FitsRow(NewValues(exprs, RowValues(e.row, fields), like), fields)
    requires RowValues(row, fields) == AllStored(NewValues(exprs, RowValues(e.row, fields), like))
    ensures IsUpdated(row, e, exprs, like, fields)
  {
    RowKeysClear(e.row, fields, []);
    var was, now := RowValues(e.row, fields), NewValues(exprs, RowValues(e.row, fields), like);
    forall k | 0 <= k < |fields|
      ensures ColumnUpdated(row, e, exprs, like, fields, k)
    {
      assert ColumnFits(e, exprs, like, fields, k);
      assert GetField(row, fields, k) == RowValues(row, fields)[k] == AfterStorage(now[k]);
      assert AllStored(was)[k] == was[k] == GetField(e.row, fields, k);
    }
  }

  lemma ClearIffKeysClear(e: Entry, exprs: seq<Option<Expr>>, like: LikeMatch, fields: seq<Type>, defs: seq<IndexDef>)
    requires UpdateFits(e, exprs, like, fields) && DefsOk(defs, |fields|)
    ensures UpdateClear(e, exprs, like, fields, defs) <==>
      KeysClear(defs, NewValues(exprs, RowValues(e.row, fields), like))
  {
    var now := NewValues(exprs, RowValues(e.row, fields), like);
    forall k | 0 <= k < |fields|
      ensures ColumnClear(e, exprs, like, fields, k) <==> TailClear(now[k])
    {
      ReadIsCanonical(fields[k], FieldBytes(e.row, fields, k));
      CanonicalIsClear(RowValues(e.row, fields)[k]);
    }
    if UpdateClear(e, exprs, like, fields, defs) {
      forall d | 0 <= d < |defs|
        ensures KeyClear(defs[d], now)
      {
        assert forall i :: 0 <= i < |defs[d].proj| ==> ColumnClear(e, exprs, like, fields, defs[d].proj[i]);
      }
    } else {
      var d, i :| 0 <= d < |defs| && 0 <= i < |defs[d].proj| && !ColumnClear(e, exprs, like, fields, defs[d].proj[i]);
      assert !KeyClear(defs[d], now);
    }
  }

  // Updates one after the other.

  ghost predicate Untouched(victims: seq<Entry>, n: nat, r: RecordID)
    requires n <= |victims|
  {
    forall i :: 0 <= i < n ==> victims[i].rid != r
  }

  ghost predicate RowsAsBefore(before: Rows, rows: Rows, victims: seq<Entry>, n: nat)
    requires n <= |victims|
  {
    forall r :: r in before && Untouched(victims, n, r) ==> r in rows && rows[r] == before[r]
  }

  /** The row's entries were made with the keys of its stored values. */
  ghost predicate MadeFrom(made: seq<Keys>, e: Entry, defs: seq<IndexDef>, fields: seq<Type>) {
    |made| == |defs| && forall d :: 0 <= d < |defs| ==>
      e.rid in made[d] && made[d][e.rid] == KeyOf(defs[d], e.row, fields)
  }

  /** The key of the new values. */
  ghost function NewKey(def: IndexDef, e: Entry, exprs: seq<Option<Expr>>, like: LikeMatch, fields: seq<Type>): Bytes
    requires UpdateFits(e, exprs, like, fields) && DefOk(def, |fields|)
  {
    NewValuesFit(e, exprs, like, fields);
    KeyOfValues(def, NewValues(exprs, RowValues(e.row, fields), like), fields)
  }

  ghost predicate MadeFor(made: seq<Keys>, anew: seq<Keys>, e: Entry, exprs: seq<Option<Expr>>, like: LikeMatch,
                          defs: seq<IndexDef>, fields: seq<Type>)
  {
    && |made| == |anew| == |defs| && UpdateFits(e, exprs, like, fields) && DefsOk(defs, |fields|)
    && forall d :: 0 <= d < |defs| ==> anew[d] == made[d][e.rid := NewKey(defs[d], e, exprs, like, fields)]
  }

  ghost predicate KeyIsNew(keys: Keys, def: IndexDef, e: Entry, exprs: seq<Option<Expr>>, like: LikeMatch,
                           fields: seq<Type>) {
    && e.rid in keys && UpdateFits(e, exprs, like, fields) && DefOk(def, |fields|)
    && keys[e.rid] == NewKey(def, e, exprs, like, fields)
  }

  ghost predicate KeysAreNew(keys: Keys, def: IndexDef, victims: seq<Entry>, exprs: seq<Option<Expr>>, like: LikeMatch,
                             fields: seq<Type>, n: nat)
    requires n <= |victims|
  {
    forall i :: 0 <= i < n ==> KeyIsNew(keys, def, victims[i], exprs, like, fields)
  }

  ghost predicate KeysAsBefore(before: Rows, keys: Keys, victims: seq<Entry>, def: IndexDef, fields: seq<Type>, n: nat)
    requires n <= |victims|
  {
    forall r :: r in before && Untouched(victims, n, r) ==> r in keys && keys[r] == KeyOf(def, before[r], fields)
  }

  /** The keys of the first `n` victims are those of their new values, the others as stored. */
  ghost predicate KeysOfSoFar(before: Rows, victims: seq<Entry>, exprs: seq<Option<Expr>>, like: LikeMatch, keys: Keys,
                              def: IndexDef, fields: seq<Type>, n: nat)
    requires n <= |victims|
  {
    && keys.Keys == before.Keys && DefOk(def, |fields|)
    && KeysAsBefore(before, keys, victims, def, fields, n) && KeysAreNew(keys, def, victims, exprs, like, fields, n)
  }

  ghost predicate KeysSoFar(before: Rows, victims: seq<Entry>, exprs: seq<Option<Expr>>, like: LikeMatch,
                            made: seq<Keys>, defs: seq<IndexDef>, fields: seq<Type>, n: nat)
    requires n <= |victims|
  {
    |made| == |defs| && forall d :: 0 <= d < |defs| ==>
      KeysOfSoFar(before, victims, exprs, like, made[d], defs[d], fields, n)
  }

  lemma NextIsUntouched(before: Rows, rows: Rows, victims: seq<Entry>, exprs: seq<Option<Expr>>, like: LikeMatch,
                        made: seq<Keys>, defs: seq<IndexDef>, fields: seq<Type>, n: nat)
    requires n < |victims| && RowsOfTable(victims, before) && RowsAsBefore(before, rows, victims, n)
    requires KeysSoFar(before, victims, exprs, like, made, defs, fields, n)
    ensures victims[n].rid in rows && rows[victims[n].rid] == victims[n].row && MadeFrom(made, victims[n], defs, fields)
  {
    assert Untouched(victims, n, victims[n].rid);
    forall d | 0 <= d < |defs|
      ensures victims[n].rid in made[d] && made[d][victims[n].rid] == KeyOf(defs[d], victims[n].row, fields)
    {
      assert KeysOfSoFar(before, victims, exprs, like, made[d], defs[d], fields, n);
    }
  }

  lemma FewerUntouched(victims: seq<Entry>, n: nat, r: RecordID)
    requires n < |victims|
    ensures Untouched(victims, n + 1, r) <==> Untouched(victims, n, r) && r != victims[n].rid
  {
  }

  lemma OneMoreAsBefore(before: Rows, keys: Keys, victims: seq<Entry>, def: IndexDef, fields: seq<Type>, n: nat,
                        key: Bytes)
    requires n < |victims| && KeysAsBefore(before, keys, victims, def, fields, n)
    ensures KeysAsBefore(before, keys[victims[n].rid := key], victims, def, fields, n + 1)
  {
    forall r | r in before && Untouched(victims, n + 1, r)
      ensures r in keys && r != victims[n].rid && keys[r] == KeyOf(def, before[r], fields)
    {
      FewerUntouched(victims, n, r);
    }
  }

  lemma OthersStayNew(keys: Keys, rid: RecordID, key: Bytes, def: IndexDef, e: Entry, exprs: seq<Option<Expr>>,
                      like: LikeMatch, fields: seq<Type>)
    requires KeyIsNew(keys, def, e, exprs, like, fields) && e.rid != rid
    ensures KeyIsNew(keys[rid := key], def, e, exprs, like, fields)
  {
  }

  lemma OneMoreNew(victims: seq<Entry>, exprs: seq<Option<Expr>>, like: LikeMatch, keys: Keys, def: IndexDef,
                   fields: seq<Type>, n: nat, key: Bytes)
    requires n < |victims| && DistinctIds(victims) && KeysAreNew(keys, def, victims, exprs, like, fields, n)
    requires KeyIsNew(keys[victims[n].rid := key], def, victims[n], exprs, like, fields)
    ensures KeysAreNew(keys[victims[n].rid := key], def, victims, exprs, like, fields, n + 1)
  {
    forall i | 0 <= i < n + 1
      ensures KeyIsNew(keys[victims[n].rid := key], def, victims[i], exprs, like, fields)
    {
      if i < n {
        OthersStayNew(keys, victims[n].rid, key, def, victims[i], exprs, like, fields);
      }
    }
  }

  lemma OneMoreKeys(before: Rows, victims: seq<Entry>, exprs: seq<Option<Expr>>, like: LikeMatch, keys: Keys,
                    def: IndexDef, fields: seq<Type>, n: nat, key: Bytes)
    requires n < |victims| && DistinctIds(victims) && victims[n].rid in before
    requires KeysOfSoFar(before, victims, exprs, like, keys, def, fields, n)
    requires UpdateFits(victims[n], exprs, like, fields) && key == NewKey(def, victims[n], exprs, like, fields)
    ensures KeysOfSoFar(before, victims, exprs, like, keys[victims[n].rid := key], def, fields, n + 1)
  {
    OneMoreAsBefore(before, keys, victims, def, fields, n, key);
    OneMoreNew(victims, exprs, like, keys, def, fields, n, key);
  }

  lemma OneMoreUpdated(before: Rows, rows: Rows, after: Rows, victims: seq<Entry>, exprs: seq<Option<Expr>>,
                       like: LikeMatch, made: seq<Keys>, anew: seq<Keys>, defs: seq<IndexDef>, fields: seq<Type>,
                       n: nat)
    requires n < |victims| && RowsOfTable(victims, before) && RowsAsBefore(before, rows, victims, n)
    requires KeysSoFar(before, victims, exprs, like, made, defs, fields, n)
    requires victims[n].rid in after && after == rows[victims[n].rid := after[victims[n].rid]]
    requires MadeFor(made, anew, victims[n], exprs, like, defs, fields)
    ensures RowsAsBefore(before, after, victims, n + 1)
    ensures KeysSoFar(before, victims, exprs, like, anew, defs, fields, n + 1)
    ensures forall i :: 0 <= i < n && victims[i].rid in rows ==>
      victims[i].rid in after && after[victims[i].rid] == rows[victims[i].rid]
  {
    forall r | r in before && Untouched(victims, n + 1, r)
      ensures r in after && after[r] == before[r]
    {
      FewerUntouched(victims, n, r);
    }
    forall d | 0 <= d < |defs|
      ensures KeysOfSoFar(before, victims, exprs, like, anew[d], defs[d], fields, n + 1)
    {
      OneMoreKeys(before, victims, exprs, like, made[d], defs[d], fields, n,
                  NewKey(defs[d], victims[n], exprs, like, fields));
    }
  }

  lemma NewKeyIsStoredIff(def: IndexDef, row: Bytes, e: Entry, exprs: seq<Option<Expr>>, like: LikeMatch,
                          fields: seq<Type>)
    requires IsUpdated(row, e, exprs, like, fields) && DefOk(def, |fields|)
    ensures NewKey(def, e, exprs, like, fields) == KeyOf(def, row, fields) <==>
      KeyClear(def, NewValues(exprs, RowValues(e.row, fields), like))
  {
    var was, now := RowValues(e.row, fields), NewValues(exprs, RowValues(e.row, fields), like);
    NewValuesFit(e, exprs, like, fields);
    RowKeysClear(e.row, fields, []);
    forall k | 0 <= k < |fields|
      ensures RowValues(row, fields)[k] == AllStored(now)[k]
    {
      assert ColumnUpdated(row, e, exprs, like, fields, k);
      assert AllStored(was)[k] == was[k];
    }
    assert RowValues(row, fields) == AllStored(now);
    KeySurvivesIff(def, now, fields);
  }

  /** The new values of the row have a clear key. */
  ghost predicate NewKeyClear(def: IndexDef, e: Entry, exprs: seq<Option<Expr>>, like: LikeMatch, fields: seq<Type>) {
    && |e.row| == TupleSize(fields) && |exprs| == |fields| && DefOk(def, |fields|)
    && KeyClear(def, NewValues(exprs, RowValues(e.row, fields), like))
  }

  lemma KeyMatchesIff(rows: Rows, e: Entry, exprs: seq<Option<Expr>>, like: LikeMatch, keys: Keys, def: IndexDef,
                      fields: seq<Type>)
    requires e.rid in rows && IsUpdated(rows[e.rid], e, exprs, like, fields)
    requires KeyIsNew(keys, def, e, exprs, like, fields)
    ensures keys[e.rid] == KeysOf(rows, def, fields)[e.rid] <==> NewKeyClear(def, e, exprs, like, fields)
  {
    NewKeyIsStoredIff(def, rows[e.rid], e, exprs, like, fields);
  }

  /** Keys that differ nowhere else match everywhere exactly if they match at the victims. */
  lemma MatchAtVictims(before: Rows, rows: Rows, victims: seq<Entry>, keys: Keys, def: IndexDef, fields: seq<Type>)
    requires rows.Keys == before.Keys == keys.Keys && RowsAsBefore(before, rows, victims, |victims|)
    requires KeysAsBefore(before, keys, victims, def, fields, |victims|)
    requires forall i :: 0 <= i < |victims| ==> victims[i].rid in rows
    ensures keys == KeysOf(rows, def, fields) <==>
      forall i :: 0 <= i < |victims| ==> keys[victims[i].rid] == KeysOf(rows, def, fields)[victims[i].rid]
  {
    var stored := KeysOf(rows, def, fields);
    if forall i :: 0 <= i < |victims| ==> keys[victims[i].rid] == stored[victims[i].rid] {
      forall r | r in rows
        ensures keys[r] == stored[r]
      {
        if !Untouched(victims, |victims|, r) {
          var i :| 0 <= i < |victims| && victims[i].rid == r;
        }
      }
      assert keys == stored;
    }
  }

  lemma KeysMatchIff(before: Rows, rows: Rows, victims: seq<Entry>, exprs: seq<Option<Expr>>, like: LikeMatch,
                     keys: Keys, def: IndexDef, fields: seq<Type>)
    requires rows.Keys == before.Keys && RowsAsBefore(before, rows, victims, |victims|)
    requires KeysOfSoFar(before, victims, exprs, like, keys, def, fields, |victims|)
    requires forall i :: 0 <= i < |victims| ==>
      victims[i].rid in rows && IsUpdated(rows[victims[i].rid], victims[i], exprs, like, fields)
    ensures keys == KeysOf(rows, def, fields) <==>
      forall i :: 0 <= i < |victims| ==> NewKeyClear(def, victims[i], exprs, like, fields)
  {
    MatchAtVictims(before, rows, victims, keys, def, fields);
    forall i | 0 <= i < |victims|
      ensures keys[victims[i].rid] == KeysOf(rows, def, fields)[victims[i].rid] <==>
        NewKeyClear(def, victims[i], exprs, like, fields)
    {
      KeyMatchesIff(rows, victims[i], exprs, like, keys, def, fields);
    }
  }

  /** After all updates every index agrees exactly if nothing hides behind a NUL in a key
      column that was set, of any of the rows. */
  lemma UpdatesAgreeIff(indexes: seq<Index>, before: Rows, rows: Rows, victims: seq<Entry>, exprs: seq<Option<Expr>>,
                        like: LikeMatch, made: seq<Keys>, defs: seq<IndexDef>, fields: seq<Type>)
    requires rows.Keys == before.Keys && RowsAsBefore(before, rows, victims, |victims|) && DefsOk(defs, |fields|)
    requires Keyed(indexes, made, defs) && KeysSoFar(before, victims, exprs, like, made, defs, fields, |victims|)
    requires forall i :: 0 <= i < |victims| ==>
      victims[i].rid in rows && IsUpdated(rows[victims[i].rid], victims[i], exprs, like, fields)
    ensures AllAgree(indexes, rows, defs, fields) <==>
      forall i :: 0 <= i < |victims| ==> UpdateClear(victims[i], exprs, like, fields, defs)
  {
    AgreedIffKeysMatch(indexes, made, rows, defs, fields);
    forall d | 0 <= d < |defs|
      ensures made[d] == KeysOf(rows, defs[d], fields) <==>
        forall i :: 0 <= i < |victims| ==> NewKeyClear(defs[d], victims[i], exprs, like, fields)
    {
      KeysMatchIff(before, rows, victims, exprs, like, made[d], defs[d], fields);
    }
    forall i | 0 <= i < |victims|
      ensures UpdateClear(victims[i], exprs, like, fields, defs) <==>
        forall d :: 0 <= d < |defs| ==> NewKeyClear(defs[d], victims[i], exprs, like, fields)
    {
      ClearIffKeysClear(victims[i], exprs, like, fields, defs);
    }
  }

  /** Exactly the given ids are new. */
  ghost predicate ExtendedBy(before: Rows, after: Rows, rids: seq<RecordID>) {
    && NoDuplicates(rids) && after.Keys == before.Keys + (set r | r in rids)
    && (forall r :: r in rids ==> r !in before)
    && (forall r :: r in before ==> after[r] == before[r])
  }

  ghost predicate HaveValues(rows: Rows, rids: seq<RecordID>, child: seq<Tuple>, fields: seq<Type>) {
    && |rids| <= |child|
    && forall i :: 0 <= i < |rids| ==>
      rids[i] in rows && child[i].Valid() && HasValues(rows[rids[i]], fields, child[i].Values())
  }

  lemma ExtendedOnce(before: Rows, mid: Rows, after: Rows, rids: seq<RecordID>, rid: RecordID, child: seq<Tuple>,
                     fields: seq<Type>)
    requires ExtendedBy(before, mid, rids) && Extended(mid, after, rid) && HaveValues(mid, rids, child, fields)
    requires |rids| < |child| && child[|rids|].Valid() && HasValues(after[rid], fields, child[|rids|].Values())
    ensures ExtendedBy(before, after, rids + [rid]) && HaveValues(after, rids + [rid], child, fields)
  {
    assert rid !in rids;
    assert forall r :: r in mid ==> after[r] == mid[r];
  }

  lemma VirtualTuple(values: seq<Value>)
    requires forall k :: 0 <= k < |values| ==> Storable(values[k])
    ensures Tuple([], [], values).Valid() && Tuple([], [], values).Values() == values
  {
  }

  lemma VirtualTypes(values: seq<Value>, fields: seq<Type>)
    requires |values| == |fields| && forall k :: 0 <= k < |values| ==> TypeOf(values[k]) == fields[k]
    ensures Tuple([], [], values).Types() == fields == fields[0..|fields|]
  {
  }

  lemma FittingTuple(values: seq<Value>, fields: seq<Type>)
    requires FitsRow(values, fields)
    ensures var t := Tuple([], [], values); Matches(t, fields, 0) && t.NumColumns() == |fields| && t.Values() == values
  {
    forall k | 0 <= k < |values|
      ensures Storable(values[k]) && TypeOf(values[k]) == fields[k]
    {
      assert TypeOf(values[k]) == fields[0 + k];
    }
    VirtualTuple(values);
    VirtualTypes(values, fields);
  }

  lemma LookedUp(rows: Rows, def: IndexDef, fields: seq<Type>, key: Bytes, rids: seq<RecordID>, entries: seq<Entry>)
    requires NoDuplicates(rids) && |entries| == |rids|
    requires forall rid :: rid in rids <==> rid in rows && KeyOf(def, rows[rid], fields) == key
    requires forall i :: 0 <= i < |rids| ==> rids[i] in rows && entries[i] == Entry(rids[i], rows[rids[i]])
    ensures DistinctIds(entries)
    ensures forall e :: e in entries <==> e.rid in rows && rows[e.rid] == e.row && KeyOf(def, e.row, fields) == key
  {
    forall e: Entry
      ensures e in entries <==> e.rid in rows && rows[e.rid] == e.row && KeyOf(def, e.row, fields) == key
    {
      if e.rid in rids && rows[e.rid] == e.row {
        var i :| 0 <= i < |rids| && rids[i] == e.rid;
        assert entries[i] == e;
      }
      if e in entries {
        var i :| 0 <= i < |entries| && entries[i] == e;
        assert rids[i] in rids;
      }
    }
  }

  lemma EmptyIndexesAgree(indexes: seq<Index>, defs: seq<IndexDef>, fields: seq<Type>)
    requires |indexes| == |defs| && forall d :: 0 <= d < |defs| ==> indexes[d] == map[]
    ensures AllAgree(indexes, map[], defs, fields)
  {
    EmptyAgrees();
    forall d | 0 <= d < |defs|
      ensures AgreesFor(indexes, map[], defs, fields, d)
    {
      assert KeysOf(map[], defs[d], fields) == map[];
    }
  }

  lemma SeenAll(seen: Rows, rows: Rows, entries: seq<Entry>)
    requires forall e :: e in entries <==> e.rid in rows && rows[e.rid] == e.row
    requires seen.Keys == set k | 0 <= k < |entries| :: entries[k].rid
    requires forall k :: 0 <= k < |entries| ==> seen[entries[k].rid] == entries[k].row
    ensures seen == rows
  {
    forall rid
      ensures rid in seen <==> rid in rows
      ensures rid in rows ==> seen[rid] == rows[rid]
    {
      if rid in rows {
        assert Entry(rid, rows[rid]) in entries;
      }
      if rid in seen {
        var k :| 0 <= k < |entries| && entries[k].rid == rid;
        assert entries[k] in entries;
      }
    }
  }

  lemma EmptyAgrees()
    ensures Agrees(map[], map[])
  {
    forall key
      ensures AgreesAt(map[], map[], key)
    {
    }
  }
}
