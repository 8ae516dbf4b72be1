/** Record ids and the list removal used by the index buckets. */
module Records {
  /** The page number and slot of a record in the one table at hand. */
  datatype RecordID = RecordID(page: int, slot: int)

  ghost predicate NoDuplicates(rids: seq<RecordID>) {
    forall i, j :: 0 <= i < j < |rids| ==> rids[i] != rids[j]
  }

  /** Swap-with-last removal at index `i`. */
  function RemovedAt(rids: seq<RecordID>, i: nat): seq<RecordID>
    requires i < |rids|
  {
    rids[i := rids[|rids| - 1]][..|rids| - 1]
  }

  function IndexOf(rids: seq<RecordID>, rid: RecordID): (i: nat)
    ensures i <= |rids| && (i < |rids| ==> rids[i] == rid) && (i < |rids| <==> rid in rids)
    ensures forall j :: 0 <= j < i ==> rids[j] != rid
  {
    if rids == [] || rids[0] == rid then 0
    else
      assert rids == [rids[0]] + rids[1..];
      1 + IndexOf(rids[1..], rid)
  }

  /** The list without `rid`. */
  function Without(rids: seq<RecordID>, rid: RecordID): seq<RecordID> {
    if rid in rids then RemovedAt(rids, IndexOf(rids, rid)) else rids
  }

  lemma Cancelled(a: multiset<RecordID>, b: multiset<RecordID>, x: RecordID)
    requires a + multiset{x} == b + multiset{x}
    ensures a == b
  {
    forall r
      ensures a[r] == b[r]
    {
      assert (a + multiset{x})[r] == (b + multiset{x})[r];
    }
  }

  lemma RemovedAtBag(rids: seq<RecordID>, i: nat)
    requires i < |rids|
    ensures multiset(RemovedAt(rids, i)) == multiset(rids) - multiset{rids[i]}
  {
    var last := rids[|rids| - 1];
    var swapped := rids[i := last];
    assert multiset(swapped) == multiset(rids) - multiset{rids[i]} + multiset{last};
    assert swapped == RemovedAt(rids, i) + [last];
    assert multiset(swapped) == multiset(RemovedAt(rids, i)) + multiset{last};
    Cancelled(multiset(RemovedAt(rids, i)), multiset(rids) - multiset{rids[i]}, last);
  }

  lemma RemovedAtDistinct(rids: seq<RecordID>, i: nat)
    requires i < |rids| && NoDuplicates(rids)
    ensures NoDuplicates(RemovedAt(rids, i)) && rids[i] !in RemovedAt(rids, i)
  {
  }

  lemma WithoutIsRemoval(rids: seq<RecordID>, rid: RecordID)
    ensures multiset(Without(rids, rid)) == multiset(rids) - multiset{rid}
    ensures NoDuplicates(rids) ==> NoDuplicates(Without(rids, rid)) && rid !in Without(rids, rid)
  {
    if rid in rids {
      RemovedAtBag(rids, IndexOf(rids, rid));
      if NoDuplicates(rids) {
        RemovedAtDistinct(rids, IndexOf(rids, rid));
      }
    }
  }

  // The removal loop of `DeleteEntry`.

  /** What the loop ends in. */
  datatype Sweep = Panic | Swept(rids: seq<RecordID>)

  /** How many of the first `i` ids are `rid`. */
  function Copies(rids: seq<RecordID>, rid: RecordID, i: nat): nat
    requires i <= |rids|
  {
    if i == 0 then 0 else Copies(rids, rid, i - 1) + if rids[i - 1] == rid then 1 else 0
  }

  /** The copy at `i` lies past the end of what the earlier copies leave of the list. */
  predicate TooLate(rids: seq<RecordID>, rid: RecordID, i: nat) {
    i < |rids| && rids[i] == rid && i + Copies(rids, rid, i) >= |rids|
  }

  predicate Sweepable(rids: seq<RecordID>, rid: RecordID) {
    forall i :: 0 <= i < |rids| ==> !TooLate(rids, rid, i)
  }

  /** The loop from index `i` on: it ranges over the old slice `rids` while the live one
      shrinks, and indexing the live one past its end panics. */
  function SweepFrom(rids: seq<RecordID>, live: seq<RecordID>, rid: RecordID, i: nat): Sweep
    requires i <= |rids|
    decreases |rids| - i
  {
    if i == |rids| then Swept(live)
    else if rids[i] != rid then SweepFrom(rids, live, rid, i + 1)
    else if i >= |live| then Panic
    else SweepFrom(rids, RemovedAt(live, i), rid, i + 1)
  }

  function SweepOf(rids: seq<RecordID>, rid: RecordID): Sweep {
    SweepFrom(rids, rids, rid, 0)
  }

  lemma {:induction false} CopiesCounted(rids: seq<RecordID>, rid: RecordID, i: nat)
    requires i <= |rids|
    ensures Copies(rids, rid, i) == multiset(rids[..i])[rid]
  {
    if i > 0 {
      CopiesCounted(rids, rid, i - 1);
      assert rids[..i] == rids[..i - 1] + [rids[i - 1]];
    }
  }

  lemma {:induction false} SweepFromMeaning(rids: seq<RecordID>, live: seq<RecordID>, rid: RecordID, i: nat)
    requires i <= |rids| && |live| + Copies(rids, rid, i) == |rids|
    requires forall j :: i <= j < |live| ==> live[j] == rids[j]
    requires forall r :: r != rid ==> multiset(live)[r] == multiset(rids)[r]
    requires multiset(live)[rid] + Copies(rids, rid, i) == multiset(rids)[rid]
    ensures SweepFrom(rids, live, rid, i).Panic? <==> exists j :: i <= j < |rids| && TooLate(rids, rid, j)
    ensures SweepFrom(rids, live, rid, i).Swept? ==>
      multiset(SweepFrom(rids, live, rid, i).rids) == multiset(rids)[rid := 0]
    decreases |rids| - i
  {
    if i == |rids| {
      CopiesCounted(rids, rid, i);
      assert rids[..i] == rids;
    } else if rids[i] != rid {
      SweepFromMeaning(rids, live, rid, i + 1);
    } else if i >= |live| {
      assert TooLate(rids, rid, i);
    } else {
      RemovedAtBag(live, i);
      SweepFromMeaning(rids, RemovedAt(live, i), rid, i + 1);
    }
  }

  /** The loop panics exactly when some copy comes too late, and otherwise leaves every
      other id as often as it was and no copy at all. */
  lemma SweepMeaning(rids: seq<RecordID>, rid: RecordID)
    ensures SweepOf(rids, rid).Panic? <==> !Sweepable(rids, rid)
    ensures Sweepable(rids, rid) ==> multiset(SweepOf(rids, rid).rids) == multiset(rids)[rid := 0]
  {
    SweepFromMeaning(rids, rids, rid, 0);
  }

  /** The list a loop that does not panic leaves. */
  function AfterSweep(rids: seq<RecordID>, rid: RecordID): seq<RecordID>
    requires Sweepable(rids, rid)
  {
    SweepMeaning(rids, rid);
    SweepOf(rids, rid).rids
  }

  lemma CopiesGrow(rids: seq<RecordID>, rid: RecordID, i: nat, j: nat)
    requires i <= j <= |rids|
    ensures Copies(rids, rid, i) <= Copies(rids, rid, j)
  {
    if i < j {
      CopiesGrow(rids, rid, i, j - 1);
    }
  }

  lemma CopiesStop(rids: seq<RecordID>, rid: RecordID, i: nat, j: nat)
    requires i <= j <= |rids| && forall k :: i <= k < j ==> rids[k] != rid
    ensures Copies(rids, rid, j) == Copies(rids, rid, i)
  {
    if i < j {
      CopiesStop(rids, rid, i, j - 1);
    }
  }

  /** Only the last copy matters: with `k` copies the last one must be among the first
      `n - k + 1` of the `n` ids. */
  lemma SweepableByLastCopy(rids: seq<RecordID>, rid: RecordID, last: nat)
    requires last < |rids| && rids[last] == rid && forall i :: last < i < |rids| ==> rids[i] != rid
    ensures Sweepable(rids, rid) <==> last + multiset(rids)[rid] <= |rids|
  {
    CopiesStop(rids, rid, last + 1, |rids|);
    CopiesCounted(rids, rid, |rids|);
    assert rids[..|rids|] == rids;
    forall i | 0 <= i < |rids| && TooLate(rids, rid, i)
      ensures TooLate(rids, rid, last)
    {
      CopiesGrow(rids, rid, i, last);
    }
    assert TooLate(rids, rid, last) || last + multiset(rids)[rid] <= |rids|;
  }

  lemma {:induction false} SweepSkips(rids: seq<RecordID>, live: seq<RecordID>, rid: RecordID, i: nat, j: nat)
    requires i <= j <= |rids| && forall k :: i <= k < j ==> rids[k] != rid
    ensures SweepFrom(rids, live, rid, i) == SweepFrom(rids, live, rid, j)
    decreases j - i
  {
    if i < j {
      SweepSkips(rids, live, rid, i + 1, j);
    }
  }

  /** In a bucket of distinct ids the loop is a plain removal. */
  lemma SweepOfDistinct(rids: seq<RecordID>, rid: RecordID)
    requires NoDuplicates(rids)
    ensures SweepOf(rids, rid) == Swept(Without(rids, rid)) && Sweepable(rids, rid)
  {
    SweepMeaning(rids, rid);
    var i := IndexOf(rids, rid);
    SweepSkips(rids, rids, rid, 0, i);
    if i < |rids| {
      SweepSkips(rids, RemovedAt(rids, i), rid, i + 1, |rids|);
    }
  }

  /** Two copies alone panic; with another id behind them both are removed. */
  lemma TwoCopies(a: RecordID, x: RecordID)
    requires a != x
    ensures SweepOf([a, a], a) == Panic
    ensures SweepOf([a, a, x], a) == Swept([x])
  {
    var two, three := [a, a], [a, a, x];
    assert SweepFrom(two, [a], a, 1) == Panic;
    assert RemovedAt(two, 0) == [a];
    assert SweepFrom(three, [x], a, 2) == SweepFrom(three, [x], a, 3) == Swept([x]);
    assert RemovedAt([x, a], 1) == [x];
    assert SweepFrom(three, [x, a], a, 1) == Swept([x]);
    assert RemovedAt(three, 0) == [x, a];
  }

  /** The loop as it is written: `cells` is the array, `length` that of the live slice. */
  method SwapRemove(bucket: seq<RecordID>, rid: RecordID) returns (outcome: Sweep)
    ensures outcome == SweepOf(bucket, rid)
    ensures outcome.Panic? <==> !Sweepable(bucket, rid)
  {
    SweepMeaning(bucket, rid);
    var cells, length := bucket, |bucket|;
    assert cells[..length] == bucket;
    var i := 0;
    while i < |bucket|
      invariant 0 <= i <= |bucket| == |cells| && 0 <= length <= |bucket|
      invariant forall j :: i <= j < |bucket| ==> cells[j] == bucket[j]
      invariant SweepFrom(bucket, cells[..length], rid, i) == SweepOf(bucket, rid)
    {
      if cells[i] == rid {
        if i >= length {
          return Panic;
        }
        var lastIdx := length - 1;
        ghost var live := cells[..length];
        cells := cells[i := cells[lastIdx]];
        length := lastIdx;
        assert cells[..length] == RemovedAt(live, i);
      }
      i := i + 1;
    }
    return Swept(cells[..length]);
  }
}
