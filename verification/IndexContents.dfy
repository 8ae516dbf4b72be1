/** Index contents and their agreement with the rows of a table: exactly one entry
    (key of the row, record id) per live row and nothing else. */
module IndexContents {
  import opened PageBytes
  import opened Records

  type Index = map<Bytes, seq<RecordID>>

  function Entries(index: Index, key: Bytes): seq<RecordID> {
    if key in index then index[key] else []
  }

  /** `InsertEntry` when nothing interferes. */
  function AddEntry(index: Index, key: Bytes, rid: RecordID): Index {
    index[key := Entries(index, key) + [rid]]
  }

  /** `DeleteEntry` without a transaction when nothing interferes; an emptied bucket leaves
      the map. */
  function DropEntry(index: Index, key: Bytes, rid: RecordID): Index {
    if key !in index || rid !in index[key] then index
    else
      var rids := Without(index[key], rid);
      if rids == [] then index - {key} else index[key := rids]
  }

  /** The key of each live row. */
  type Keys = map<RecordID, Bytes>

  ghost predicate AgreesAt(index: Index, keys: Keys, key: Bytes) {
    && NoDuplicates(Entries(index, key))
    && forall rid :: rid in Entries(index, key) <==> rid in keys && keys[rid] == key
  }

  ghost predicate Agrees(index: Index, keys: Keys) {
    forall key :: AgreesAt(index, keys, key)
  }

  lemma AddAgrees(index: Index, keys: Keys, rid: RecordID, key: Bytes)
    requires Agrees(index, keys) && rid !in keys
    ensures Agrees(AddEntry(index, key, rid), keys[rid := key])
  {
    var after, updated := AddEntry(index, key, rid), keys[rid := key];
    forall k
      ensures AgreesAt(after, updated, k)
    {
      assert AgreesAt(index, keys, k);
    }
  }

  lemma AddAgreesBack(index: Index, keys: Keys, rid: RecordID, key: Bytes, k: Bytes)
    requires rid !in keys && Agrees(AddEntry(index, k, rid), keys[rid := key])
    ensures k == key && Agrees(index, keys)
  {
    var after, updated := AddEntry(index, k, rid), keys[rid := key];
    var before := Entries(index, k);
    assert Entries(after, k) == before + [rid];
    assert AgreesAt(after, updated, k) && rid in Entries(after, k);
    forall j
      ensures AgreesAt(index, keys, j)
    {
      assert AgreesAt(after, updated, j);
      if j == k {
        BeforeLast(before, rid);
      } else {
        assert Entries(after, j) == Entries(index, j);
      }
    }
  }

  lemma BeforeLast(rids: seq<RecordID>, rid: RecordID)
    requires NoDuplicates(rids + [rid])
    ensures NoDuplicates(rids) && forall r :: r in rids <==> r in rids + [rid] && r != rid
  {
    var all := rids + [rid];
    assert forall i :: 0 <= i < |rids| ==> all[i] == rids[i] && all[i] != all[|rids|];
  }

  /** An entry added under key `k` for a row whose key is `key`: agreement holds afterwards
      exactly if it held before and the keys are the same. */
  lemma AddAgreesIff(index: Index, keys: Keys, rid: RecordID, key: Bytes, k: Bytes)
    requires rid !in keys
    ensures Agrees(AddEntry(index, k, rid), keys[rid := key]) <==> Agrees(index, keys) && k == key
  {
    if Agrees(AddEntry(index, k, rid), keys[rid := key]) {
      AddAgreesBack(index, keys, rid, key, k);
    } else if Agrees(index, keys) && k == key {
      AddAgrees(index, keys, rid, key);
    }
  }

  lemma DropAgrees(index: Index, keys: Keys, rid: RecordID)
    requires Agrees(index, keys) && rid in keys
    ensures Agrees(DropEntry(index, keys[rid], rid), keys - {rid})
  {
    var after, updated := DropEntry(index, keys[rid], rid), keys - {rid};
    forall k
      ensures AgreesAt(after, updated, k)
    {
      assert AgreesAt(index, keys, k);
      if k == keys[rid] {
        DroppedList(index[k], rid);
        assert Entries(after, k) == Without(index[k], rid);
      } else {
        assert Entries(after, k) == Entries(index, k);
      }
    }
  }

  lemma DroppedList(rids: seq<RecordID>, rid: RecordID)
    requires NoDuplicates(rids)
    ensures NoDuplicates(Without(rids, rid))
    ensures forall r :: r in Without(rids, rid) <==> r in rids && r != rid
  {
    WithoutIsRemoval(rids, rid);
    forall r
      ensures r in Without(rids, rid) <==> r in rids && r != rid
    {
      assert r in Without(rids, rid) <==> r in multiset(Without(rids, rid));
      assert r in rids <==> r in multiset(rids);
      if r == rid {
        assert r !in Without(rids, rid);
      }
    }
  }

  /** Delete the old entry, insert the new one. */
  lemma ReplaceAgrees(index: Index, keys: Keys, rid: RecordID, key: Bytes, k: Bytes)
    requires Agrees(index, keys) && rid in keys
    ensures Agrees(AddEntry(DropEntry(index, keys[rid], rid), k, rid), keys[rid := key]) <==> k == key
  {
    DropAgrees(index, keys, rid);
    AddAgreesIff(DropEntry(index, keys[rid], rid), keys - {rid}, rid, key, k);
    assert (keys - {rid})[rid := key] == keys[rid := key];
  }

  /** An index agrees with at most one assignment of keys. */
  lemma KeysAreDetermined(index: Index, a: Keys, b: Keys)
    requires Agrees(index, a)
    ensures Agrees(index, b) <==> a == b
  {
    if Agrees(index, b) {
      forall rid
        ensures rid in a <==> rid in b
        ensures rid in a && rid in b ==> a[rid] == b[rid]
      {
        if rid in a {
          assert AgreesAt(index, a, a[rid]) && AgreesAt(index, b, a[rid]);
        }
        if rid in b {
          assert AgreesAt(index, a, b[rid]) && AgreesAt(index, b, b[rid]);
        }
      }
    }
  }

  lemma {:induction false} SameMembers(a: seq<RecordID>, b: seq<RecordID>)
    requires NoDuplicates(a) && NoDuplicates(b) && forall r :: r in a <==> r in b
    ensures multiset(a) == multiset(b)
  {
    forall r
      ensures multiset(a)[r] == multiset(b)[r]
    {
      Once(a, r);
      Once(b, r);
    }
  }

  lemma {:induction false} Once(a: seq<RecordID>, r: RecordID)
    requires NoDuplicates(a)
    ensures multiset(a)[r] == if r in a then 1 else 0
  {
    if a != [] {
      var n := |a| - 1;
      Once(a[..n], r);
      assert a == a[..n] + [a[n]];
    }
  }

  /** Two indexes that agree with the same rows hold the same entries. */
  lemma AgreementIsUnique(a: Index, b: Index, keys: Keys, key: Bytes)
    requires Agrees(a, keys) && Agrees(b, keys)
    ensures multiset(Entries(a, key)) == multiset(Entries(b, key))
  {
    assert AgreesAt(a, keys, key) && AgreesAt(b, keys, key);
    SameMembers(Entries(a, key), Entries(b, key));
  }
}
