/** `indexing/mem_hash_index.go` as a state machine. An operation is cut at every access
    to the concurrent outer map and at every bucket lock: `Load`, `LoadOrStore`, the locked
    append or removal with its check of the `removed` flag, the `Delete` of an emptied
    bucket from the outer map while its lock is held, the unlocking after it, and the
    locked read of a scan. Deletions are immediate (no transaction). A removal loop that
    would panic is not a step: a run ends before it. */
module HashIndexSteps {
  import PageBytes
  import opened Records
  import IndexContents

  type Key = PageBytes.Bytes
  newtype BucketID = x: int | 0 <= x
  newtype OpID = x: int | 0 <= x

  datatype Holder = Nobody | Held(op: OpID)

  datatype Bucket = Bucket(key: Key, rids: seq<RecordID>, removed: bool, stored: bool, holder: Holder, creator: OpID)

  datatype Pc =
    | Idle
    | InsertLoad(key: Key, rid: RecordID)
    | InsertStore(key: Key, rid: RecordID, b: BucketID)
    | InsertLock(key: Key, rid: RecordID, b: BucketID)
    | DeleteLoad(key: Key, rid: RecordID)
    | DeleteLock(key: Key, rid: RecordID, b: BucketID)
    | DeleteUnmap(key: Key, b: BucketID)
    | DeleteUnlock(b: BucketID)
    | ScanLoad(key: Key)
    | ScanLock(key: Key, b: BucketID)

  datatype State = State(buckets: map<BucketID, Bucket>, m: map<Key, BucketID>, ops: map<OpID, Pc>)

  datatype Action =
    | Insert(op: OpID, key: Key, rid: RecordID)
    | Delete(op: OpID, key: Key, rid: RecordID)
    | Scan(op: OpID, key: Key)
    | Load(op: OpID, newBucket: BucketID)
    | LoadOrStore(op: OpID)
    | Append(op: OpID)
    | Remove(op: OpID)
    | Unmap(op: OpID)
    | Unlock(op: OpID)
    | Read(op: OpID)

  const Initial: State := State(map[], map[], map[])

  function PcOf(s: State, op: OpID): Pc {
    if op in s.ops then s.ops[op] else Idle
  }

  predicate Unlocked(s: State, b: BucketID) {
    b in s.buckets && s.buckets[b].holder == Nobody
  }

  /** What a scan of the key would find now. */
  function Visible(s: State, key: Key): seq<RecordID> {
    if key in s.m && s.m[key] in s.buckets && !s.buckets[s.m[key]].removed then s.buckets[s.m[key]].rids else []
  }

  predicate Enabled(s: State, a: Action) {
    var pc := PcOf(s, a.op);
    match a
    case Insert(_, _, _) => pc.Idle?
    case Delete(_, _, _) => pc.Idle?
    case Scan(_, _) => pc.Idle?
    case Load(_, n) => (pc.InsertLoad? && n !in s.buckets) || pc.DeleteLoad? || pc.ScanLoad?
    case LoadOrStore(_) => pc.InsertStore? && pc.b in s.buckets
    case Append(_) => pc.InsertLock? && Unlocked(s, pc.b)
    case Remove(_) => pc.DeleteLock? && Unlocked(s, pc.b) && Sweepable(s.buckets[pc.b].rids, pc.rid)
    case Unmap(_) => pc.DeleteUnmap?
    case Unlock(_) => pc.DeleteUnlock? && pc.b in s.buckets
    case Read(_) => pc.ScanLock? && Unlocked(s, pc.b)
  }

  function At(s: State, op: OpID, pc: Pc): State {
    s.(ops := s.ops[op := pc])
  }

  function LoadNext(s: State, op: OpID, n: BucketID): State {
    var pc := PcOf(s, op);
    match pc
    case InsertLoad(k, r) =>
      if k in s.m then At(s, op, InsertLock(k, r, s.m[k]))
      else At(s.(buckets := s.buckets[n := Bucket(k, [], false, false, Nobody, op)]), op, InsertStore(k, r, n))
    case DeleteLoad(k, r) => if k in s.m then At(s, op, DeleteLock(k, r, s.m[k])) else At(s, op, Idle)
    case ScanLoad(k) => if k in s.m then At(s, op, ScanLock(k, s.m[k])) else At(s, op, Idle)
    case _ => s
  }

  function StoreNext(s: State, op: OpID, k: Key, r: RecordID, n: BucketID): State
    requires n in s.buckets
  {
    if k in s.m then At(s, op, InsertLock(k, r, s.m[k]))
    else At(s.(m := s.m[k := n], buckets := s.buckets[n := s.buckets[n].(stored := true)]), op, InsertLock(k, r, n))
  }

  function AppendNext(s: State, op: OpID, k: Key, r: RecordID, b: BucketID): State
    requires b in s.buckets
  {
    var bucket := s.buckets[b];
    if bucket.removed then At(s, op, InsertLoad(k, r))
    else At(s.(buckets := s.buckets[b := bucket.(rids := bucket.rids + [r])]), op, Idle)
  }

  /** A bucket that is emptied, marked and kept locked. */
  function Emptied(s: State, op: OpID, k: Key, b: BucketID): State
    requires b in s.buckets
  {
    var bucket := s.buckets[b].(rids := [], removed := true, holder := Held(op));
    At(s.(buckets := s.buckets[b := bucket]), op, DeleteUnmap(k, b))
  }

  function RemoveNext(s: State, op: OpID, k: Key, r: RecordID, b: BucketID): State
    requires b in s.buckets && Sweepable(s.buckets[b].rids, r)
  {
    var bucket := s.buckets[b];
    var rids := AfterSweep(bucket.rids, r);
    if r !in bucket.rids then At(s, op, Idle)
    else if rids == [] then Emptied(s, op, k, b)
    else At(s.(buckets := s.buckets[b := bucket.(rids := rids)]), op, Idle)
  }

  function Next(s: State, a: Action): State
    requires Enabled(s, a)
  {
    var op, pc := a.op, PcOf(s, a.op);
    match a
    case Insert(_, k, r) => At(s, op, InsertLoad(k, r))
    case Delete(_, k, r) => At(s, op, DeleteLoad(k, r))
    case Scan(_, k) => At(s, op, ScanLoad(k))
    case Load(_, n) => LoadNext(s, op, n)
    case LoadOrStore(_) => StoreNext(s, op, pc.key, pc.rid, pc.b)
    case Append(_) => AppendNext(s, op, pc.key, pc.rid, pc.b)
    case Remove(_) => RemoveNext(s, op, pc.key, pc.rid, pc.b)
    case Unmap(_) => At(s.(m := s.m - {pc.key}), op, DeleteUnlock(pc.b))
    case Unlock(_) => At(s.(buckets := s.buckets[pc.b := s.buckets[pc.b].(holder := Nobody)]), op, Idle)
    case Read(_) => if s.buckets[pc.b].removed then At(s, op, ScanLoad(pc.key)) else At(s, op, Idle)
  }

  // The invariant.

  ghost predicate BucketOk(s: State, b: BucketID) {
    b in s.buckets ==>
      var bucket := s.buckets[b];
      && (bucket.stored && !bucket.removed ==> bucket.key in s.m && s.m[bucket.key] == b)
      && (bucket.removed ==> bucket.stored && bucket.rids == [])
      && (!bucket.stored ==> bucket.rids == [])
      && (bucket.holder.Held? ==>
            && bucket.removed
            && var pc := PcOf(s, bucket.holder.op);
               pc == DeleteUnmap(bucket.key, b) || pc == DeleteUnlock(b))
  }

  ghost predicate MapOk(s: State, k: Key) {
    k in s.m ==>
      && s.m[k] in s.buckets
      && var bucket := s.buckets[s.m[k]];
      && bucket.stored && bucket.key == k
      && (bucket.removed ==> bucket.holder.Held? && PcOf(s, bucket.holder.op) == DeleteUnmap(k, s.m[k]))
  }

  predicate Refers(s: State, b: BucketID, k: Key) {
    b in s.buckets && s.buckets[b].stored && s.buckets[b].key == k
  }

  ghost predicate OpOk(s: State, op: OpID) {
    match PcOf(s, op)
    case InsertStore(k, _, n) =>
      && n in s.buckets && !s.buckets[n].stored && s.buckets[n].key == k
      && s.buckets[n].creator == op && s.buckets[n].holder == Nobody
    case InsertLock(k, _, b) => Refers(s, b, k)
    case DeleteLock(k, _, b) => Refers(s, b, k)
    case ScanLock(k, b) => Refers(s, b, k)
    case DeleteUnmap(k, b) =>
      Refers(s, b, k) && s.buckets[b].removed && s.buckets[b].holder == Held(op) && k in s.m && s.m[k] == b
    case DeleteUnlock(b) => b in s.buckets && s.buckets[b].removed && s.buckets[b].holder == Held(op)
    case _ => true
  }

  ghost predicate Inv(s: State) {
    && (forall b :: BucketOk(s, b))
    && (forall k :: MapOk(s, k))
    && (forall op :: OpOk(s, op))
  }

  /** Moving one operation between points that hold no lock and own no new bucket. */
  lemma MoveKeepsInv(s: State, op: OpID, pc: Pc)
    requires Inv(s) && !PcOf(s, op).DeleteUnmap? && !PcOf(s, op).DeleteUnlock?
    requires pc.Idle? || pc.InsertLoad? || pc.DeleteLoad? || pc.ScanLoad?
      || ((pc.InsertLock? || pc.DeleteLock? || pc.ScanLock?) && Refers(s, pc.b, pc.key))
    ensures Inv(At(s, op, pc))
  {
    var t := At(s, op, pc);
    forall b
      ensures BucketOk(t, b)
    {
      assert BucketOk(s, b);
    }
    forall k
      ensures MapOk(t, k)
    {
      assert MapOk(s, k);
    }
    forall o
      ensures OpOk(t, o)
    {
      assert OpOk(s, o);
    }
  }

  lemma NewBucketKeepsInv(s: State, op: OpID, k: Key, r: RecordID, n: BucketID)
    requires Inv(s) && PcOf(s, op) == InsertLoad(k, r) && n !in s.buckets
    ensures Inv(At(s.(buckets := s.buckets[n := Bucket(k, [], false, false, Nobody, op)]), op, InsertStore(k, r, n)))
  {
    var t := At(s.(buckets := s.buckets[n := Bucket(k, [], false, false, Nobody, op)]), op, InsertStore(k, r, n));
    forall b
      ensures BucketOk(t, b)
    {
      assert BucketOk(s, b);
    }
    forall j
      ensures MapOk(t, j)
    {
      assert MapOk(s, j);
    }
    forall o
      ensures OpOk(t, o)
    {
      assert OpOk(s, o);
    }
  }

  lemma LoadKeepsInv(s: State, op: OpID, n: BucketID)
    requires Inv(s) && Enabled(s, Load(op, n))
    ensures Inv(LoadNext(s, op, n))
  {
    var pc := PcOf(s, op);
    if pc.key in s.m {
      assert MapOk(s, pc.key);
      var b := s.m[pc.key];
      var next :=
        if pc.InsertLoad? then InsertLock(pc.key, pc.rid, b)
        else if pc.DeleteLoad? then DeleteLock(pc.key, pc.rid, b)
        else ScanLock(pc.key, b);
      MoveKeepsInv(s, op, next);
    } else if pc.InsertLoad? {
      NewBucketKeepsInv(s, op, pc.key, pc.rid, n);
    } else {
      MoveKeepsInv(s, op, Idle);
    }
  }

  lemma StoreKeepsInv(s: State, op: OpID)
    requires Inv(s) && Enabled(s, LoadOrStore(op))
    ensures Inv(Next(s, LoadOrStore(op)))
  {
    var pc, t := PcOf(s, op), Next(s, LoadOrStore(op));
    if pc.key in s.m {
      assert MapOk(s, pc.key);
      MoveKeepsInv(s, op, InsertLock(pc.key, pc.rid, s.m[pc.key]));
    } else {
      assert OpOk(s, op) && BucketOk(s, pc.b);
      forall b
        ensures BucketOk(t, b)
      {
        assert BucketOk(s, b);
      }
      forall k
        ensures MapOk(t, k)
      {
        assert MapOk(s, k);
      }
      forall o
        ensures OpOk(t, o)
      {
        assert OpOk(s, o);
      }
    }
  }

  /** Appending to a bucket that is not removed. */
  lemma AppendKeepsInv(s: State, op: OpID)
    requires Inv(s) && Enabled(s, Append(op))
    ensures Inv(Next(s, Append(op)))
  {
    var pc, t := PcOf(s, op), Next(s, Append(op));
    if s.buckets[pc.b].removed {
      MoveKeepsInv(s, op, InsertLoad(pc.key, pc.rid));
    } else {
      assert OpOk(s, op) && BucketOk(s, pc.b);
      forall b
        ensures BucketOk(t, b)
      {
        assert BucketOk(s, b);
      }
      forall k
        ensures MapOk(t, k)
      {
        assert MapOk(s, k);
      }
      forall o
        ensures OpOk(t, o)
      {
        assert OpOk(s, o);
      }
    }
  }

  /** A bucket whose list shrinks. */
  lemma ShrinkKeepsInv(s: State, op: OpID, b: BucketID, rids: seq<RecordID>)
    requires Inv(s) && PcOf(s, op).DeleteLock? && PcOf(s, op).b == b && Unlocked(s, b) && !s.buckets[b].removed
    ensures Inv(At(s.(buckets := s.buckets[b := s.buckets[b].(rids := rids)]), op, Idle))
  {
    var t := At(s.(buckets := s.buckets[b := s.buckets[b].(rids := rids)]), op, Idle);
    assert OpOk(s, op) && BucketOk(s, b);
    forall c
      ensures BucketOk(t, c)
    {
      assert BucketOk(s, c);
    }
    forall j
      ensures MapOk(t, j)
    {
      assert MapOk(s, j);
    }
    forall o
      ensures OpOk(t, o)
    {
      assert OpOk(s, o);
    }
  }

  lemma EmptyKeepsInv(s: State, op: OpID, k: Key, r: RecordID, b: BucketID)
    requires Inv(s) && PcOf(s, op) == DeleteLock(k, r, b) && Unlocked(s, b) && !s.buckets[b].removed
    ensures Inv(Emptied(s, op, k, b))
  {
    var t := Emptied(s, op, k, b);
    assert OpOk(s, op) && BucketOk(s, b);
    forall c
      ensures BucketOk(t, c)
    {
      assert BucketOk(s, c);
    }
    forall j
      ensures MapOk(t, j)
    {
      assert MapOk(s, j);
    }
    forall o
      ensures OpOk(t, o)
    {
      assert OpOk(s, o);
    }
  }

  lemma RemoveKeepsInv(s: State, op: OpID)
    requires Inv(s) && Enabled(s, Remove(op))
    ensures Inv(Next(s, Remove(op)))
  {
    var pc := PcOf(s, op);
    if pc.rid in s.buckets[pc.b].rids {
      assert BucketOk(s, pc.b);
      if AfterSweep(s.buckets[pc.b].rids, pc.rid) == [] {
        EmptyKeepsInv(s, op, pc.key, pc.rid, pc.b);
      } else {
        ShrinkKeepsInv(s, op, pc.b, AfterSweep(s.buckets[pc.b].rids, pc.rid));
      }
    } else {
      MoveKeepsInv(s, op, Idle);
    }
  }

  lemma UnmapKeepsInv(s: State, op: OpID)
    requires Inv(s) && Enabled(s, Unmap(op))
    ensures Inv(Next(s, Unmap(op)))
  {
    var t := Next(s, Unmap(op));
    assert OpOk(s, op);
    forall b
      ensures BucketOk(t, b)
    {
      assert BucketOk(s, b);
    }
    forall k
      ensures MapOk(t, k)
    {
      assert MapOk(s, k);
    }
    forall o
      ensures OpOk(t, o)
    {
      assert OpOk(s, o);
    }
  }

  lemma UnlockKeepsInv(s: State, op: OpID)
    requires Inv(s) && Enabled(s, Unlock(op))
    ensures Inv(Next(s, Unlock(op)))
  {
    var t := Next(s, Unlock(op));
    assert OpOk(s, op);
    forall b
      ensures BucketOk(t, b)
    {
      assert BucketOk(s, b);
    }
    forall k
      ensures MapOk(t, k)
    {
      assert MapOk(s, k);
    }
    forall o
      ensures OpOk(t, o)
    {
      assert OpOk(s, o);
    }
  }

  lemma StepKeepsInv(s: State, a: Action)
    requires Inv(s) && Enabled(s, a)
    ensures Inv(Next(s, a))
  {
    var pc := PcOf(s, a.op);
    match a
    case Insert(op, k, r) => MoveKeepsInv(s, op, InsertLoad(k, r));
    case Delete(op, k, r) => MoveKeepsInv(s, op, DeleteLoad(k, r));
    case Scan(op, k) => MoveKeepsInv(s, op, ScanLoad(k));
    case Load(op, n) => LoadKeepsInv(s, op, n);
    case LoadOrStore(op) => StoreKeepsInv(s, op);
    case Append(op) => AppendKeepsInv(s, op);
    case Remove(op) => RemoveKeepsInv(s, op);
    case Unmap(op) => UnmapKeepsInv(s, op);
    case Unlock(op) => UnlockKeepsInv(s, op);
    case Read(op) => MoveKeepsInv(s, op, if s.buckets[pc.b].removed then ScanLoad(pc.key) else Idle);
  }

  // Runs.

  predicate IsRun(s: State, run: seq<Action>)
    decreases |run|
  {
    run == [] || (Enabled(s, run[0]) && IsRun(Next(s, run[0]), run[1..]))
  }

  function After(s: State, run: seq<Action>): State
    requires IsRun(s, run)
    decreases |run|
  {
    if run == [] then s else After(Next(s, run[0]), run[1..])
  }

  lemma {:induction false} RunKeepsInv(s: State, run: seq<Action>)
    requires Inv(s) && IsRun(s, run)
    ensures Inv(After(s, run))
    decreases |run|
  {
    if run != [] {
      StepKeepsInv(s, run[0]);
      RunKeepsInv(Next(s, run[0]), run[1..]);
    }
  }

  /** In every reachable state a bucket that was stored and not removed is the one its key
      is mapped to, and a deleter about to unmap a key unmaps its own emptied bucket. */
  lemma StoredBucketIsMapped(run: seq<Action>, b: BucketID, op: OpID)
    requires IsRun(Initial, run)
    ensures var s := After(Initial, run);
      && (b in s.buckets && s.buckets[b].stored && !s.buckets[b].removed ==>
            s.buckets[b].key in s.m && s.m[s.buckets[b].key] == b)
      && (PcOf(s, op).DeleteUnmap? ==>
            var pc := PcOf(s, op); pc.key in s.m && s.m[pc.key] == pc.b && pc.b in s.buckets && s.buckets[pc.b].removed)
  {
    assert Inv(Initial);
    RunKeepsInv(Initial, run);
    var s := After(Initial, run);
    assert BucketOk(s, b) && OpOk(s, op);
  }

  // The index as a set of pairs.

  datatype Effect = NoEffect | Added(key: Key, rid: RecordID) | Dropped(key: Key, rid: RecordID)

  function EffectOf(s: State, a: Action): Effect
    requires Enabled(s, a)
  {
    var pc := PcOf(s, a.op);
    match a
    case Append(_) => if s.buckets[pc.b].removed then NoEffect else Added(pc.key, pc.rid)
    case Remove(_) => if pc.rid in s.buckets[pc.b].rids then Dropped(pc.key, pc.rid) else NoEffect
    case _ => NoEffect
  }

  function Applied(bag: multiset<RecordID>, key: Key, e: Effect): multiset<RecordID> {
    match e
    case NoEffect => bag
    case Added(k, r) => if k == key then bag + multiset{r} else bag
    case Dropped(k, r) => if k == key then bag[r := 0] else bag
  }

  lemma AppendEffect(s: State, op: OpID, key: Key)
    requires Inv(s) && Enabled(s, Append(op))
    ensures multiset(Visible(Next(s, Append(op)), key)) ==
      Applied(multiset(Visible(s, key)), key, EffectOf(s, Append(op)))
  {
    var pc := PcOf(s, op);
    assert OpOk(s, op) && MapOk(s, key) && BucketOk(s, pc.b);
    if pc.key == key && !s.buckets[pc.b].removed {
      assert multiset(s.buckets[pc.b].rids + [pc.rid]) == multiset(s.buckets[pc.b].rids) + multiset{pc.rid};
    }
  }

  lemma RemoveVisible(s: State, op: OpID, key: Key)
    requires Inv(s) && Enabled(s, Remove(op)) && PcOf(s, op).rid in s.buckets[PcOf(s, op).b].rids
    ensures key == PcOf(s, op).key ==>
      Sweepable(Visible(s, key), PcOf(s, op).rid)
      && Visible(Next(s, Remove(op)), key) == AfterSweep(Visible(s, key), PcOf(s, op).rid)
    ensures key != PcOf(s, op).key ==> Visible(Next(s, Remove(op)), key) == Visible(s, key)
  {
    assert OpOk(s, op) && MapOk(s, key) && BucketOk(s, PcOf(s, op).b);
  }

  lemma RemoveEffect(s: State, op: OpID, key: Key)
    requires Inv(s) && Enabled(s, Remove(op))
    ensures multiset(Visible(Next(s, Remove(op)), key)) ==
      Applied(multiset(Visible(s, key)), key, EffectOf(s, Remove(op)))
  {
    var pc := PcOf(s, op);
    if pc.rid in s.buckets[pc.b].rids {
      RemoveVisible(s, op, key);
      SweepMeaning(Visible(s, pc.key), pc.rid);
    } else {
      assert Visible(Next(s, Remove(op)), key) == Visible(s, key);
    }
  }

  /** What is visible changes only by an append, which adds its pair once, and by a
      removal, which takes every copy of its pair. */
  lemma StepAppliesEffect(s: State, a: Action, key: Key)
    requires Inv(s) && Enabled(s, a)
    ensures multiset(Visible(Next(s, a), key)) == Applied(multiset(Visible(s, key)), key, EffectOf(s, a))
  {
    if a.Append? {
      AppendEffect(s, a.op, key);
    } else if a.Remove? {
      RemoveEffect(s, a.op, key);
    } else {
      assert OpOk(s, a.op) && MapOk(s, key);
      if a.LoadOrStore? {
        assert BucketOk(s, PcOf(s, a.op).b);
      }
      assert Visible(Next(s, a), key) == Visible(s, key);
    }
  }

  function AllApplied(bag: multiset<RecordID>, key: Key, s: State, run: seq<Action>): multiset<RecordID>
    requires IsRun(s, run)
    decreases |run|
  {
    if run == [] then bag else AllApplied(Applied(bag, key, EffectOf(s, run[0])), key, Next(s, run[0]), run[1..])
  }

  /** Whatever the interleaving, the index holds the pairs appended and not yet removed. */
  lemma {:induction false} RunAppliesEffects(s: State, run: seq<Action>, key: Key)
    requires Inv(s) && IsRun(s, run)
    ensures multiset(Visible(After(s, run), key)) == AllApplied(multiset(Visible(s, key)), key, s, run)
    decreases |run|
  {
    if run != [] {
      StepAppliesEffect(s, run[0], key);
      StepKeepsInv(s, run[0]);
      RunAppliesEffects(Next(s, run[0]), run[1..], key);
    }
  }

  /** What a scan returns on its last step: a missed load returns nothing, a locked read
      the ids of the bucket it holds. */
  function ScanResult(s: State, a: Action): (result: seq<seq<RecordID>>)
    requires Enabled(s, a)
  {
    var pc := PcOf(s, a.op);
    if a.Load? && pc.ScanLoad? && pc.key !in s.m then [[]]
    else if a.Read? && !s.buckets[pc.b].removed then [s.buckets[pc.b].rids]
    else []
  }

  /** A scan returns exactly what is visible at the moment it returns. */
  lemma ScanReturnsVisible(s: State, a: Action)
    requires Inv(s) && Enabled(s, a) && ScanResult(s, a) != []
    ensures ScanResult(s, a)[0] == Visible(s, PcOf(s, a.op).key)
  {
    var pc := PcOf(s, a.op);
    assert OpOk(s, a.op);
    if a.Read? {
      assert BucketOk(s, pc.b);
    }
  }

  /** A scan comes to its end only with a result. */
  lemma ScanEndsWithResult(s: State, a: Action)
    requires Inv(s) && Enabled(s, a) && (PcOf(s, a.op).ScanLoad? || PcOf(s, a.op).ScanLock?)
    ensures PcOf(Next(s, a), a.op).Idle? <==> ScanResult(s, a) != []
  {
    assert OpOk(s, a.op);
  }

  /** A delete comes to its end without a removal only when its key is not mapped or its id is
      not in the bucket. */
  lemma DeleteEndsOnlyIfAbsent(s: State, a: Action)
    requires Inv(s) && Enabled(s, a) && (PcOf(s, a.op).DeleteLoad? || PcOf(s, a.op).DeleteLock?)
    requires PcOf(Next(s, a), a.op).Idle? && EffectOf(s, a) == NoEffect
    ensures PcOf(s, a.op).DeleteLoad? ==> PcOf(s, a.op).key !in s.m
    ensures PcOf(s, a.op).DeleteLock? ==> PcOf(s, a.op).rid !in s.buckets[PcOf(s, a.op).b].rids
  {
    assert OpOk(s, a.op);
  }

  predicate NeverDropped(s: State, run: seq<Action>, key: Key, rid: RecordID)
    requires IsRun(s, run)
    decreases |run|
  {
    run == [] || (EffectOf(s, run[0]) != Dropped(key, rid) && NeverDropped(Next(s, run[0]), run[1..], key, rid))
  }

  lemma VisibleStays(s: State, a: Action, key: Key, rid: RecordID)
    requires Inv(s) && Enabled(s, a) && rid in Visible(s, key) && EffectOf(s, a) != Dropped(key, rid)
    ensures rid in Visible(Next(s, a), key) && Next(s, a).m[key] == s.m[key]
  {
    StepAppliesEffect(s, a, key);
    assert rid in multiset(Visible(s, key));
    assert rid in multiset(Visible(Next(s, a), key));
    assert OpOk(s, a.op) && MapOk(s, key);
  }

  /** A completed insert stays visible to every later scan until the pair is removed. */
  lemma {:induction false} InsertStaysVisible(s: State, run: seq<Action>, key: Key, rid: RecordID)
    requires Inv(s) && IsRun(s, run) && rid in Visible(s, key) && NeverDropped(s, run, key, rid)
    ensures rid in Visible(After(s, run), key) && key in After(s, run).m && After(s, run).m[key] == s.m[key]
    decreases |run|
  {
    if run != [] {
      VisibleStays(s, run[0], key, rid);
      StepKeepsInv(s, run[0]);
      InsertStaysVisible(Next(s, run[0]), run[1..], key, rid);
    }
  }

  /** An insert that returns has appended its pair, exactly then and there. */
  lemma InsertReturnsWithPair(s: State, a: Action)
    requires Inv(s) && Enabled(s, a)
    requires var pc := PcOf(s, a.op); pc.InsertLoad? || pc.InsertStore? || pc.InsertLock?
    requires PcOf(Next(s, a), a.op).Idle?
    ensures var pc := PcOf(s, a.op); EffectOf(s, a) == Added(pc.key, pc.rid) && pc.rid in Visible(Next(s, a), pc.key)
  {
    var pc := PcOf(s, a.op);
    assert OpOk(s, a.op);
    StepAppliesEffect(s, a, pc.key);
    assert pc.rid in multiset(Visible(Next(s, a), pc.key));
  }

  /** A delete whose pair is visible when it loads the bucket, and that nobody else removes
      meanwhile, removes it. */
  lemma DeleteOfVisiblePairWorks(s: State, op: OpID, n: BucketID, run: seq<Action>)
    requires Inv(s) && Enabled(s, Load(op, n)) && PcOf(s, op).DeleteLoad?
    requires PcOf(s, op).rid in Visible(s, PcOf(s, op).key)
    requires var t := Next(s, Load(op, n));
      && IsRun(t, run) && NeverDropped(t, run, PcOf(s, op).key, PcOf(s, op).rid)
      && PcOf(After(t, run), op) == PcOf(t, op) && Enabled(After(t, run), Remove(op))
    ensures EffectOf(After(Next(s, Load(op, n)), run), Remove(op)) == Dropped(PcOf(s, op).key, PcOf(s, op).rid)
  {
    var k, r, t := PcOf(s, op).key, PcOf(s, op).rid, Next(s, Load(op, n));
    StepAppliesEffect(s, Load(op, n), k);
    VisibleStays(s, Load(op, n), k, r);
    StepKeepsInv(s, Load(op, n));
    InsertStaysVisible(t, run, k, r);
  }

  predicate CompletesInsert(s: State, a: Action, key: Key, rid: RecordID)
    requires Enabled(s, a)
  {
    var pc := PcOf(s, a.op);
    && (pc.InsertLoad? || pc.InsertStore? || pc.InsertLock?) && pc.key == key && pc.rid == rid
    && PcOf(Next(s, a), a.op).Idle?
  }

  predicate ReturnsFromScan(s: State, a: Action, key: Key)
    requires Enabled(s, a)
  {
    ScanResult(s, a) != [] && PcOf(s, a.op).key == key
  }

  /** In every run: once an insert has completed, every scan of its key that returns later
      finds the id, unless the pair was removed in between. */
  lemma CompletedInsertIsFound(before: seq<Action>, a: Action, between: seq<Action>, b: Action, key: Key, rid: RecordID)
    requires IsRun(Initial, before) && Enabled(After(Initial, before), a)
    requires CompletesInsert(After(Initial, before), a, key, rid)
    requires var t := Next(After(Initial, before), a); IsRun(t, between) && NeverDropped(t, between, key, rid)
    requires var u := After(Next(After(Initial, before), a), between); Enabled(u, b) && ReturnsFromScan(u, b, key)
    ensures rid in ScanResult(After(Next(After(Initial, before), a), between), b)[0]
  {
    assert Inv(Initial);
    RunKeepsInv(Initial, before);
    var s := After(Initial, before);
    InsertReturnsWithPair(s, a);
    StepKeepsInv(s, a);
    InsertStaysVisible(Next(s, a), between, key, rid);
    RunKeepsInv(Next(s, a), between);
    ScanReturnsVisible(After(Next(s, a), between), b);
  }

  // Rows indexed once.

  ghost predicate Distinct(s: State) {
    forall b :: b in s.buckets ==> NoDuplicates(s.buckets[b].rids)
  }

  predicate AppendsFresh(s: State, a: Action)
    requires Enabled(s, a)
  {
    a.Append? ==> PcOf(s, a.op).rid !in s.buckets[PcOf(s, a.op).b].rids
  }

  /** No id is appended to a bucket that has it. */
  predicate IndexesOnce(s: State, run: seq<Action>)
    requires IsRun(s, run)
    decreases |run|
  {
    run == [] || (AppendsFresh(s, run[0]) && IndexesOnce(Next(s, run[0]), run[1..]))
  }

  lemma StepKeepsDistinct(s: State, a: Action)
    requires Distinct(s) && Enabled(s, a) && AppendsFresh(s, a)
    ensures Distinct(Next(s, a))
  {
    if a.Remove? {
      var pc := PcOf(s, a.op);
      SweepOfDistinct(s.buckets[pc.b].rids, pc.rid);
      WithoutIsRemoval(s.buckets[pc.b].rids, pc.rid);
    }
  }

  lemma {:induction false} RunKeepsDistinct(s: State, run: seq<Action>)
    requires Distinct(s) && IsRun(s, run) && IndexesOnce(s, run)
    ensures Distinct(After(s, run))
    decreases |run|
  {
    if run != [] {
      StepKeepsDistinct(s, run[0]);
      RunKeepsDistinct(Next(s, run[0]), run[1..]);
    }
  }

  /** If every row is indexed once, no removal ever panics: a deleter that has its bucket
      can always go on once the bucket is unlocked. */
  lemma OnceIndexedNeverPanics(run: seq<Action>, op: OpID)
    requires IsRun(Initial, run) && IndexesOnce(Initial, run)
    requires PcOf(After(Initial, run), op).DeleteLock? && Unlocked(After(Initial, run), PcOf(After(Initial, run), op).b)
    ensures Enabled(After(Initial, run), Remove(op))
  {
    RunKeepsDistinct(Initial, run);
    var s := After(Initial, run);
    SweepOfDistinct(s.buckets[PcOf(s, op).b].rids, PcOf(s, op).rid);
  }

  // Operations that nothing disturbs.

  ghost predicate Quiet(s: State) {
    forall op :: PcOf(s, op).Idle?
  }

  /** The index as a plain map. */
  function View(s: State): IndexContents.Index {
    map k | k in s.m && s.m[k] in s.buckets :: s.buckets[s.m[k]].rids
  }

  lemma QuietKey(s: State, key: Key)
    requires Inv(s) && Quiet(s)
    ensures key in s.m ==> Unlocked(s, s.m[key]) && !s.buckets[s.m[key]].removed
    ensures key in View(s) <==> key in s.m
    ensures Visible(s, key) == IndexContents.Entries(View(s), key)
  {
    assert MapOk(s, key);
    if key in s.m {
      assert BucketOk(s, s.m[key]);
    }
  }

  lemma {:induction false} CarryOn(s: State, run: seq<Action>, a: Action) returns (longer: seq<Action>)
    requires IsRun(s, run) && Enabled(After(s, run), a)
    ensures IsRun(s, longer) && After(s, longer) == Next(After(s, run), a)
    decreases |run|
  {
    if run == [] {
      longer := [a];
      assert longer[1..] == [];
    } else {
      var rest := CarryOn(Next(s, run[0]), run[1..], a);
      longer := [run[0]] + rest;
      assert longer[1..] == rest;
    }
  }

  /** One bucket and the mapping of its key to it are new, and one operation is idle again. */
  function WithBucket(s: State, op: OpID, b: BucketID, bucket: Bucket): State {
    State(s.buckets[b := bucket], s.m[bucket.key := b], s.ops[op := Idle])
  }

  lemma KeyWithBucket(s: State, op: OpID, b: BucketID, bucket: Bucket, k: Key)
    requires MapOk(s, k) && (b in s.buckets ==> s.buckets[b].key == bucket.key)
    ensures var after, expected := View(WithBucket(s, op, b, bucket)), View(s)[bucket.key := bucket.rids];
      (k in after <==> k in expected) && (k in after ==> after[k] == expected[k])
  {
  }

  lemma ViewWithBucket(s: State, op: OpID, b: BucketID, bucket: Bucket)
    requires Inv(s) && (b in s.buckets ==> s.buckets[b].key == bucket.key)
    ensures View(WithBucket(s, op, b, bucket)) == View(s)[bucket.key := bucket.rids]
  {
    var after, expected := View(WithBucket(s, op, b, bucket)), View(s)[bucket.key := bucket.rids];
    forall k
      ensures (k in after <==> k in expected) && (k in after ==> after[k] == expected[k])
    {
      assert MapOk(s, k);
      KeyWithBucket(s, op, b, bucket, k);
    }
  }

  lemma QuietAgain(s: State, t: State, op: OpID)
    requires Quiet(s) && t.ops == s.ops[op := Idle]
    ensures Quiet(t)
  {
    forall o
      ensures PcOf(t, o).Idle?
    {
      assert PcOf(s, o).Idle?;
    }
  }

  lemma InsertToMapped(s: State, op: OpID, n: BucketID, key: Key, rid: RecordID) returns (run: seq<Action>)
    requires PcOf(s, op).Idle? && n !in s.buckets && key in s.m && Unlocked(s, s.m[key]) && !s.buckets[s.m[key]].removed
    requires s.buckets[s.m[key]].key == key
    ensures IsRun(s, run)
    ensures var bucket := s.buckets[s.m[key]];
      After(s, run) == WithBucket(s, op, s.m[key], bucket.(rids := bucket.rids + [rid]))
  {
    run := CarryOn(s, [], Insert(op, key, rid));
    run := CarryOn(s, run, Load(op, n));
    run := CarryOn(s, run, Append(op));
    assert s.m[key := s.m[key]] == s.m;
  }

  lemma InsertMissed(s: State, op: OpID, n: BucketID, key: Key, rid: RecordID) returns (run: seq<Action>)
    requires PcOf(s, op).Idle? && n !in s.buckets && key !in s.m
    ensures IsRun(s, run)
    ensures After(s, run) ==
      State(s.buckets[n := Bucket(key, [], false, false, Nobody, op)], s.m, s.ops[op := InsertStore(key, rid, n)])
  {
    run := CarryOn(s, [], Insert(op, key, rid));
    run := CarryOn(s, run, Load(op, n));
  }

  lemma InsertStored(s: State, op: OpID, n: BucketID, key: Key, rid: RecordID) returns (run: seq<Action>)
    requires PcOf(s, op).Idle? && n !in s.buckets && key !in s.m
    ensures IsRun(s, run)
    ensures After(s, run) ==
      State(s.buckets[n := Bucket(key, [], false, true, Nobody, op)], s.m[key := n],
            s.ops[op := InsertLock(key, rid, n)])
  {
    run := InsertMissed(s, op, n, key, rid);
    run := CarryOn(s, run, LoadOrStore(op));
  }

  lemma InsertToNew(s: State, op: OpID, n: BucketID, key: Key, rid: RecordID) returns (run: seq<Action>)
    requires PcOf(s, op).Idle? && n !in s.buckets && key !in s.m
    ensures IsRun(s, run)
    ensures After(s, run) == WithBucket(s, op, n, Bucket(key, [rid], false, true, Nobody, op))
  {
    run := InsertStored(s, op, n, key, rid);
    run := CarryOn(s, run, Append(op));
    assert [] + [rid] == [rid];
  }

  /** `InsertEntry` alone adds one entry. */
  lemma InsertAlone(s: State, op: OpID, n: BucketID, key: Key, rid: RecordID) returns (run: seq<Action>)
    requires Inv(s) && Quiet(s) && n !in s.buckets
    ensures IsRun(s, run) && Inv(After(s, run)) && Quiet(After(s, run))
    ensures View(After(s, run)) == IndexContents.AddEntry(View(s), key, rid)
    ensures After(s, run).buckets.Keys <= s.buckets.Keys + {n}
  {
    QuietKey(s, key);
    assert MapOk(s, key) && PcOf(s, op).Idle?;
    var b, bucket := n, Bucket(key, [rid], false, true, Nobody, op);
    if key in s.m {
      run := InsertToMapped(s, op, n, key, rid);
      b, bucket := s.m[key], s.buckets[s.m[key]].(rids := s.buckets[s.m[key]].rids + [rid]);
    } else {
      run := InsertToNew(s, op, n, key, rid);
    }
    ViewWithBucket(s, op, b, bucket);
    assert bucket.rids == IndexContents.Entries(View(s), key) + [rid];
    QuietAgain(s, After(s, run), op);
    RunKeepsInv(s, run);
  }

  lemma DeleteKeepingBucket(s: State, op: OpID, n: BucketID, key: Key, rid: RecordID) returns (run: seq<Action>)
    requires PcOf(s, op).Idle? && key in s.m && Unlocked(s, s.m[key]) && !s.buckets[s.m[key]].removed
    requires s.buckets[s.m[key]].key == key && Sweepable(s.buckets[s.m[key]].rids, rid)
    requires rid in s.buckets[s.m[key]].rids && AfterSweep(s.buckets[s.m[key]].rids, rid) != []
    ensures IsRun(s, run)
    ensures var bucket := s.buckets[s.m[key]];
      After(s, run) == WithBucket(s, op, s.m[key], bucket.(rids := AfterSweep(bucket.rids, rid)))
  {
    run := CarryOn(s, [], Delete(op, key, rid));
    run := CarryOn(s, run, Load(op, n));
    run := CarryOn(s, run, Remove(op));
    assert s.m[key := s.m[key]] == s.m;
  }

  lemma DeleteMarked(s: State, op: OpID, n: BucketID, key: Key, rid: RecordID) returns (run: seq<Action>)
    requires PcOf(s, op).Idle? && key in s.m && Unlocked(s, s.m[key]) && Sweepable(s.buckets[s.m[key]].rids, rid)
    requires rid in s.buckets[s.m[key]].rids && AfterSweep(s.buckets[s.m[key]].rids, rid) == []
    ensures IsRun(s, run)
    ensures After(s, run) ==
      State(s.buckets[s.m[key] := s.buckets[s.m[key]].(rids := [], removed := true, holder := Held(op))], s.m,
            s.ops[op := DeleteUnmap(key, s.m[key])])
  {
    run := CarryOn(s, [], Delete(op, key, rid));
    run := CarryOn(s, run, Load(op, n));
    run := CarryOn(s, run, Remove(op));
  }

  lemma DeleteEmptying(s: State, op: OpID, n: BucketID, key: Key, rid: RecordID) returns (run: seq<Action>)
    requires PcOf(s, op).Idle? && key in s.m && Unlocked(s, s.m[key]) && Sweepable(s.buckets[s.m[key]].rids, rid)
    requires rid in s.buckets[s.m[key]].rids && AfterSweep(s.buckets[s.m[key]].rids, rid) == []
    ensures IsRun(s, run)
    ensures After(s, run) ==
      State(s.buckets[s.m[key] := s.buckets[s.m[key]].(rids := [], removed := true)], s.m - {key}, s.ops[op := Idle])
  {
    run := DeleteMarked(s, op, n, key, rid);
    run := CarryOn(s, run, Unmap(op));
    run := CarryOn(s, run, Unlock(op));
  }

  lemma ViewWithoutKey(s: State, t: State, key: Key, bucket: Bucket)
    requires Inv(s) && key in s.m && t.m == s.m - {key} && t.buckets == s.buckets[s.m[key] := bucket]
    ensures View(t) == View(s) - {key}
  {
    forall k
      ensures k in View(t) <==> k in View(s) - {key}
      ensures k in View(t) ==> View(t)[k] == (View(s) - {key})[k]
    {
      assert MapOk(s, k) && MapOk(s, key);
    }
  }

  lemma DeleteNothing(s: State, op: OpID, n: BucketID, key: Key, rid: RecordID) returns (run: seq<Action>)
    requires PcOf(s, op).Idle? && (key in s.m ==> Unlocked(s, s.m[key]) && rid !in s.buckets[s.m[key]].rids)
    ensures IsRun(s, run) && After(s, run) == s.(ops := s.ops[op := Idle])
  {
    run := CarryOn(s, [], Delete(op, key, rid));
    run := CarryOn(s, run, Load(op, n));
    if key in s.m {
      run := CarryOn(s, run, Remove(op));
    }
  }

  /** `DeleteEntry` alone, with distinct ids in the bucket, drops the entry. */
  lemma DeleteAlone(s: State, op: OpID, n: BucketID, key: Key, rid: RecordID) returns (run: seq<Action>)
    requires Inv(s) && Quiet(s) && NoDuplicates(IndexContents.Entries(View(s), key))
    ensures IsRun(s, run) && Inv(After(s, run)) && Quiet(After(s, run))
    ensures View(After(s, run)) == IndexContents.DropEntry(View(s), key, rid)
  {
    QuietKey(s, key);
    assert MapOk(s, key) && PcOf(s, op).Idle?;
    if key !in s.m || rid !in s.buckets[s.m[key]].rids {
      run := DeleteNothing(s, op, n, key, rid);
    } else {
      var bucket := s.buckets[s.m[key]];
      SweepOfDistinct(bucket.rids, rid);
      if AfterSweep(bucket.rids, rid) == [] {
        run := DeleteEmptying(s, op, n, key, rid);
        ViewWithoutKey(s, After(s, run), key, bucket.(rids := [], removed := true));
      } else {
        run := DeleteKeepingBucket(s, op, n, key, rid);
        ViewWithBucket(s, op, s.m[key], bucket.(rids := AfterSweep(bucket.rids, rid)));
      }
    }
    QuietAgain(s, After(s, run), op);
    RunKeepsInv(s, run);
  }

  lemma {:induction false} RunsJoin(s: State, a: seq<Action>, b: seq<Action>)
    requires IsRun(s, a) && IsRun(After(s, a), b)
    ensures IsRun(s, a + b) && After(s, a + b) == After(After(s, a), b)
    decreases |a|
  {
    if a == [] {
      assert a + b == b;
    } else {
      RunsJoin(Next(s, a[0]), a[1..], b);
      assert (a + b)[0] == a[0] && (a + b)[1..] == a[1..] + b;
    }
  }

  lemma TwiceIndexed(op: OpID, key: Key, rid: RecordID) returns (run: seq<Action>)
    ensures IsRun(Initial, run) && Inv(After(Initial, run)) && Quiet(After(Initial, run))
    ensures After(Initial, run).buckets.Keys <= {0, 1}
    ensures IndexContents.Entries(View(After(Initial, run)), key) == [rid, rid]
  {
    assert Inv(Initial);
    var first := InsertAlone(Initial, op, 0, key, rid);
    var second := InsertAlone(After(Initial, first), op, 1, key, rid);
    RunsJoin(Initial, first, second);
    run := first + second;
    assert [] + [rid] + [rid] == [rid, rid];
  }

  lemma TwoCopiesStuck(rid: RecordID)
    ensures !Sweepable([rid, rid], rid)
  {
    assert Copies([rid, rid], rid, 1) == 1;
    assert TooLate([rid, rid], rid, 1);
  }

  /** A row indexed twice under one key, and nothing else there: its deletion panics. */
  lemma TwiceIndexedPanics(op: OpID, key: Key, rid: RecordID) returns (run: seq<Action>)
    ensures IsRun(Initial, run) && PcOf(After(Initial, run), op).DeleteLock?
    ensures var s, pc := After(Initial, run), PcOf(After(Initial, run), op);
      pc.rid == rid && Unlocked(s, pc.b) && s.buckets[pc.b].rids == [rid, rid] && !Enabled(s, Remove(op))
  {
    run := TwiceIndexed(op, key, rid);
    var s := After(Initial, run);
    QuietKey(s, key);
    assert PcOf(s, op).Idle?;
    TwoCopiesStuck(rid);
    run := CarryOn(Initial, run, Delete(op, key, rid));
    run := CarryOn(Initial, run, Load(op, 2));
  }
}
