/** Whole runs of the lock manager. A run interleaves the monitor's atomic segments in
    any order, with at most one outstanding `Lock` per transaction; `cond.Wait` may
    return at any time. Every reachable state has an acyclic waits-for graph and
    pairwise compatible holders, so some transaction can always make progress. */
module LockRuns {
  import opened LockTable
  import opened LockModes

  datatype Request = Request(tag: Tag, mode: Mode)

  /** `pending` is what each blocked call is waiting for. */
  datatype Machine = Machine(lm: LockState, pending: map<TransactionID, Request>)

  datatype Event =
    | Call(tid: TransactionID, tag: Tag, mode: Mode)
    | Wake(tid: TransactionID)
    | Release(tid: TransactionID, tag: Tag)

  ghost predicate Enabled(m: Machine, e: Event) {
    match e
    case Call(tid, _, _) => tid !in m.pending
    case Wake(tid) => tid in m.pending
    case Release(tid, _) => tid !in m.pending
  }

  ghost function Next(m: Machine, e: Event): Machine
    requires Enabled(m, e)
  {
    match e
    case Call(tid, tag, mode) =>
      var (lm, outcome) := LockStart(m.lm, tid, tag, mode);
      Machine(lm, if outcome.Blocked? then m.pending[tid := Request(tag, mode)] else m.pending)
    case Wake(tid) =>
      var (lm, outcome) := LockRecheck(m.lm, tid, m.pending[tid].tag, m.pending[tid].mode);
      Machine(lm, if outcome.Blocked? then m.pending else m.pending - {tid})
    case Release(tid, tag) =>
      Machine(UnlockEffect(m.lm, tid, tag).0, m.pending)
  }

  const Initial: Machine := Machine(LockState(map[], map[]), map[])

  ghost predicate IsRun(run: seq<Machine>, events: seq<Event>) {
    && |run| == |events| + 1
    && run[0] == Initial
    && forall i :: 0 <= i < |events| ==> Enabled(run[i], events[i]) && run[i + 1] == Next(run[i], events[i])
  }

  // The invariant.

  /** Any two distinct holders of a tag are compatible, whichever of them asked last. */
  ghost predicate HoldersCompatible(s: LockState) {
    forall tag, a, b :: a in Holders(s, tag) && b in Holders(s, tag) && a != b ==>
      IsCompatible(Holders(s, tag)[a], Holders(s, tag)[b])
  }

  ghost predicate NoDuplicates(q: seq<TransactionID>) {
    forall i, j :: 0 <= i < j < |q| ==> q[i] != q[j]
  }

  ghost predicate ListsBlocked(q: seq<TransactionID>, pending: map<TransactionID, Request>, tag: Tag) {
    NoDuplicates(q) && forall tid :: tid in q <==> tid in pending && pending[tid].tag == tag
  }

  /** The wait queues list exactly the blocked calls, each once, and a blocked call
      holds nothing on the tag it waits for. */
  ghost predicate QueuesMatch(m: Machine) {
    && (forall tag :: ListsBlocked(Waiters(m.lm, tag), m.pending, tag))
    && (forall tid :: tid in m.pending ==> tid !in Holders(m.lm, m.pending[tid].tag))
  }

  ghost predicate NoEmptyEntries(s: LockState) {
    && (forall tag :: tag in s.locks ==> s.locks[tag] != map[])
    && (forall tag :: tag in s.waitqueue ==> s.waitqueue[tag] != [])
  }

  ghost predicate Inv(m: Machine) {
    Acyclic(m.lm) && HoldersCompatible(m.lm) && QueuesMatch(m) && NoEmptyEntries(m.lm)
  }

  // How the segments change holders and waiters.

  lemma HoldersAfter(s: LockState, tid: TransactionID, tag: Tag, mode: Mode, t: Tag)
    ensures Holders(WithoutHolder(s, tid, tag), t) == if t == tag then Holders(s, t) - {tid} else Holders(s, t)
    ensures Waiters(WithoutHolder(s, tid, tag), t) == Waiters(s, t)
    ensures Holders(WithHolder(s, tid, tag, mode), t) == if t == tag then Holders(s, t)[tid := mode] else Holders(s, t)
    ensures Waiters(WithHolder(s, tid, tag, mode), t) == Waiters(s, t)
  {
    if tid !in Holders(s, tag) {
      assert Holders(s, tag) - {tid} == Holders(s, tag);
    }
  }

  lemma WaitersAfter(s: LockState, tid: TransactionID, tag: Tag, t: Tag)
    ensures Waiters(Enqueued(s, tid, tag), t) == if t == tag then Waiters(s, t) + [tid] else Waiters(s, t)
    ensures Holders(Enqueued(s, tid, tag), t) == Holders(s, t)
    ensures Waiters(Dequeued(s, tid, tag), t) == if t == tag then RemoveFirst(Waiters(s, t), tid) else Waiters(s, t)
    ensures Holders(Dequeued(s, tid, tag), t) == Holders(s, t)
  {
  }

  lemma {:induction false} RemoveFirstMembers(q: seq<TransactionID>, tid: TransactionID)
    ensures forall x :: x in RemoveFirst(q, tid) ==> x in q
    ensures forall x :: x in q && x != tid ==> x in RemoveFirst(q, tid)
    ensures NoDuplicates(q) ==> NoDuplicates(RemoveFirst(q, tid)) && tid !in RemoveFirst(q, tid)
  {
    if q != [] {
      RemoveFirstMembers(q[1..], tid);
      assert forall i :: 0 <= i < |q[1..]| ==> q[1..][i] == q[i + 1];
      assert q == [q[0]] + q[1..];
      if NoDuplicates(q) {
        assert NoDuplicates(q[1..]);
        assert q[0] !in q[1..];
      }
    }
  }

  lemma {:induction false} DequeueUndoesEnqueue(q: seq<TransactionID>, tid: TransactionID)
    requires tid !in q
    ensures RemoveFirst(q + [tid], tid) == q
  {
    if q != [] {
      DequeueUndoesEnqueue(q[1..], tid);
      assert (q + [tid])[1..] == q[1..] + [tid];
    }
  }

  // Acyclicity under edge changes.

  lemma NoCyclicPath(s: LockState, p: seq<TransactionID>, a: TransactionID)
    requires PathBetween(s, p, a, a)
    ensures !Acyclic(s)
  {
    assert Reaches(s, a, a);
  }

  lemma FewerEdgesStayAcyclic(s: LockState, s': LockState)
    requires Acyclic(s) && forall a, b :: Edge(s', a, b) ==> Edge(s, a, b)
    ensures Acyclic(s')
  {
    forall a | Reaches(s', a, a)
      ensures false
    {
      var p :| PathBetween(s', p, a, a);
      NoCyclicPath(s, p, a);
    }
  }

  /** New edges may point at a transaction that itself waits for nothing. */
  lemma EdgesIntoSinkStayAcyclic(s: LockState, s': LockState, sink: TransactionID)
    requires Acyclic(s)
    requires forall a, b :: Edge(s', a, b) ==> b == sink || Edge(s, a, b)
    requires forall b :: !Edge(s', sink, b)
    ensures Acyclic(s')
  {
    forall a | Reaches(s', a, a)
      ensures false
    {
      var p :| PathBetween(s', p, a, a);
      forall i | 0 <= i < |p| - 1
        ensures Edge(s, p[i], p[i + 1])
      {
        assert Edge(s', p[i], p[i + 1]);
        if i + 1 < |p| - 1 {
          assert Edge(s', p[i + 1], p[i + 1 + 1]);
        } else {
          assert Edge(s', p[0], p[0 + 1]);
        }
      }
      NoCyclicPath(s, p, a);
    }
  }

  lemma FirstEdge(s: LockState, p: seq<TransactionID>, a: TransactionID, b: TransactionID)
    requires PathBetween(s, p, a, b)
    ensures exists c :: Edge(s, a, c)
  {
    assert Edge(s, p[0], p[0 + 1]);
  }

  lemma SplitPath(s: LockState, p: seq<TransactionID>, i: nat)
    requires IsPath(s, p) && 0 < i < |p| - 1
    ensures Reaches(s, p[0], p[i]) && Reaches(s, p[i], p[|p| - 1])
  {
    assert PathBetween(s, p[..i + 1], p[0], p[i]);
    var q := p[i..];
    forall j | 0 <= j < |q| - 1
      ensures Edge(s, q[j], q[j + 1])
    {
      assert q[j] == p[i + j] && q[j + 1] == p[i + j + 1];
    }
    assert PathBetween(s, q, p[i], p[|p| - 1]);
  }

  /** New edges may leave a transaction that the search found on no cycle. */
  lemma EdgesFromCheckedStayAcyclic(s: LockState, s': LockState, source: TransactionID)
    requires Acyclic(s)
    requires forall a, b :: Edge(s', a, b) ==> a == source || Edge(s, a, b)
    requires !Reaches(s', source, source)
    ensures Acyclic(s')
  {
    forall a
      ensures !Reaches(s', a, a)
    {
      if a != source && Reaches(s', a, a) {
        var p :| PathBetween(s', p, a, a);
        if i :| 0 < i < |p| - 1 && p[i] == source {
          SplitPath(s', p, i);
          ReachesTransitive(s', source, a, source);
        } else {
          NoCyclicPath(s, p, a);
        }
      }
    }
  }

  // Each event keeps the invariant.

  lemma DropHolderKeepsInv(m: Machine, tid: TransactionID, tag: Tag)
    requires Inv(m)
    ensures Inv(m.(lm := WithoutHolder(m.lm, tid, tag)))
    ensures tid !in Holders(WithoutHolder(m.lm, tid, tag), tag)
  {
    var s, s' := m.lm, WithoutHolder(m.lm, tid, tag);
    forall t
      ensures Waiters(s', t) == Waiters(s, t)
      ensures Holders(s', t) == if t == tag then Holders(s, t) - {tid} else Holders(s, t)
    {
      HoldersAfter(s, tid, tag, S, t);
    }
    assert Acyclic(s') by {
      forall a, b | Edge(s', a, b)
        ensures Edge(s, a, b)
      {
        var t :| EdgeVia(s', a, b, t);
        assert EdgeVia(s, a, b, t);
      }
      FewerEdgesStayAcyclic(s, s');
    }
    assert HoldersCompatible(s') by {
      forall t, a, b | a in Holders(s', t) && b in Holders(s', t) && a != b
        ensures IsCompatible(Holders(s', t)[a], Holders(s', t)[b])
      {
        assert a in Holders(s, t) && b in Holders(s, t);
      }
    }
  }

  lemma GrantStaysAcyclic(m: Machine, tid: TransactionID, tag: Tag, mode: Mode)
    requires Acyclic(m.lm) && QueuesMatch(m) && tid !in m.pending
    ensures Acyclic(WithHolder(m.lm, tid, tag, mode))
  {
    var s, s' := m.lm, WithHolder(m.lm, tid, tag, mode);
    forall a, b | Edge(s', a, b)
      ensures b == tid || Edge(s, a, b)
    {
      var t :| EdgeVia(s', a, b, t);
      HoldersAfter(s, tid, tag, mode, t);
      assert b == tid || EdgeVia(s, a, b, t);
    }
    forall t
      ensures tid !in Waiters(s', t)
    {
      HoldersAfter(s, tid, tag, mode, t);
      assert ListsBlocked(Waiters(s, t), m.pending, t);
    }
    EdgesIntoSinkStayAcyclic(s, s', tid);
  }

  lemma GrantStaysCompatible(s: LockState, tid: TransactionID, tag: Tag, mode: Mode)
    requires HoldersCompatible(s) && tid !in Holders(s, tag) && !Conflicts(s, tid, tag, mode)
    ensures HoldersCompatible(WithHolder(s, tid, tag, mode))
  {
    forall t
      ensures Holders(WithHolder(s, tid, tag, mode), t) ==
        if t == tag then Holders(s, t)[tid := mode] else Holders(s, t)
    {
      HoldersAfter(s, tid, tag, mode, t);
    }
    forall o | o in Holders(s, tag)
      ensures IsCompatible(mode, Holders(s, tag)[o])
    {
      assert !ConflictsWith(s, tid, tag, mode, o);
    }
  }

  lemma GrantKeepsInv(m: Machine, tid: TransactionID, tag: Tag, mode: Mode)
    requires Inv(m) && tid !in m.pending && tid !in Holders(m.lm, tag) && !Conflicts(m.lm, tid, tag, mode)
    ensures Inv(m.(lm := WithHolder(m.lm, tid, tag, mode)))
  {
    forall t
      ensures Waiters(WithHolder(m.lm, tid, tag, mode), t) == Waiters(m.lm, t)
    {
      HoldersAfter(m.lm, tid, tag, mode, t);
    }
    GrantStaysAcyclic(m, tid, tag, mode);
    GrantStaysCompatible(m.lm, tid, tag, mode);
  }

  lemma EnqueueKeepsInv(m: Machine, tid: TransactionID, tag: Tag, mode: Mode)
    requires Inv(m) && tid !in m.pending && tid !in Holders(m.lm, tag)
    requires !Reaches(Enqueued(m.lm, tid, tag), tid, tid)
    ensures Inv(Machine(Enqueued(m.lm, tid, tag), m.pending[tid := Request(tag, mode)]))
  {
    var s, s' := m.lm, Enqueued(m.lm, tid, tag);
    forall t
      ensures Waiters(s', t) == if t == tag then Waiters(s, t) + [tid] else Waiters(s, t)
      ensures Holders(s', t) == Holders(s, t)
    {
      WaitersAfter(s, tid, tag, t);
    }
    assert Acyclic(s') by {
      forall a, b | Edge(s', a, b)
        ensures a == tid || Edge(s, a, b)
      {
        var t :| EdgeVia(s', a, b, t);
        assert a == tid || EdgeVia(s, a, b, t);
      }
      EdgesFromCheckedStayAcyclic(s, s', tid);
    }
  }

  lemma DequeueKeepsInv(m: Machine, tid: TransactionID)
    requires Inv(m) && tid in m.pending
    ensures Inv(Machine(Dequeued(m.lm, tid, m.pending[tid].tag), m.pending - {tid}))
  {
    var tag := m.pending[tid].tag;
    var s, s' := m.lm, Dequeued(m.lm, tid, tag);
    forall t
      ensures Waiters(s', t) == if t == tag then RemoveFirst(Waiters(s, t), tid) else Waiters(s, t)
      ensures Holders(s', t) == Holders(s, t)
    {
      WaitersAfter(s, tid, tag, t);
    }
    RemoveFirstMembers(Waiters(s, tag), tid);
    assert Acyclic(s') by {
      forall a, b | Edge(s', a, b)
        ensures Edge(s, a, b)
      {
        var t :| EdgeVia(s', a, b, t);
        assert EdgeVia(s, a, b, t);
      }
      FewerEdgesStayAcyclic(s, s');
    }
  }

  lemma DequeueRestores(m: Machine, tid: TransactionID, tag: Tag)
    requires Inv(m) && tid !in m.pending
    ensures var s1 := WithoutHolder(m.lm, tid, tag); Dequeued(Enqueued(s1, tid, tag), tid, tag) == s1
  {
    var s1 := WithoutHolder(m.lm, tid, tag);
    HoldersAfter(m.lm, tid, tag, S, tag);
    var q := Waiters(s1, tag);
    DequeueUndoesEnqueue(q, tid);
    assert s1.waitqueue == m.lm.waitqueue;
    if q == [] {
      assert tag !in s1.waitqueue;
      assert s1.waitqueue[tag := [tid]] - {tag} == s1.waitqueue;
    } else {
      assert s1.waitqueue[tag := q + [tid]][tag := q] == s1.waitqueue;
    }
  }

  /** A `Lock` that ends in a deadlock error leaves every queue and every other entry as it
      was; the caller's old mode on the tag is gone. */
  lemma FailedCallDropsOldMode(m: Machine, tid: TransactionID, tag: Tag, mode: Mode, t: Tag)
    requires Inv(m) && tid !in m.pending && LockStart(m.lm, tid, tag, mode).1.DeadlockError?
    ensures var s := LockStart(m.lm, tid, tag, mode).0;
      && s.waitqueue == m.lm.waitqueue
      && Holders(s, t) == if t == tag then Holders(m.lm, t) - {tid} else Holders(m.lm, t)
  {
    DequeueRestores(m, tid, tag);
    HoldersAfter(m.lm, tid, tag, mode, t);
  }

  lemma StepKeepsInv(m: Machine, e: Event)
    requires Inv(m) && Enabled(m, e)
    ensures Inv(Next(m, e))
  {
    match e
    case Call(tid, tag, mode) =>
      if !(tid in Holders(m.lm, tag) && Holders(m.lm, tag)[tid] == mode) {
        var m1 := m.(lm := WithoutHolder(m.lm, tid, tag));
        DropHolderKeepsInv(m, tid, tag);
        if !Conflicts(m1.lm, tid, tag, mode) {
          GrantKeepsInv(m1, tid, tag, mode);
        } else if Reaches(Enqueued(m1.lm, tid, tag), tid, tid) {
          DequeueRestores(m, tid, tag);
        } else {
          EnqueueKeepsInv(m1, tid, tag, mode);
        }
      }
    case Wake(tid) =>
      var tag, mode := m.pending[tid].tag, m.pending[tid].mode;
      if !Conflicts(m.lm, tid, tag, mode) {
        DequeueKeepsInv(m, tid);
        var m1 := Machine(Dequeued(m.lm, tid, tag), m.pending - {tid});
        WaitersAfter(m.lm, tid, tag, tag);
        assert forall o :: ConflictsWith(m1.lm, tid, tag, mode, o) ==> ConflictsWith(m.lm, tid, tag, mode, o);
        GrantKeepsInv(m1, tid, tag, mode);
      }
    case Release(tid, tag) =>
      if tid in Holders(m.lm, tag) {
        DropHolderKeepsInv(m, tid, tag);
      }
  }

  lemma {:induction false} RunKeepsInv(run: seq<Machine>, events: seq<Event>, i: nat)
    requires IsRun(run, events) && i < |run|
    ensures Inv(run[i])
  {
    if i == 0 {
      forall a
        ensures !Reaches(Initial.lm, a, a)
      {
        if p :| PathBetween(Initial.lm, p, a, a) {
          FirstEdge(Initial.lm, p, a, a);
        }
      }
    } else {
      RunKeepsInv(run, events, i - 1);
      StepKeepsInv(run[i - 1], events[i - 1]);
      assert run[i - 1 + 1] == Next(run[i - 1], events[i - 1]);
    }
  }

  // The main results.

  /** No reachable state has a waits-for cycle. */
  lemma NeverDeadlocked(run: seq<Machine>, events: seq<Event>, i: nat)
    requires IsRun(run, events) && i < |run|
    ensures Acyclic(run[i].lm)
  {
    RunKeepsInv(run, events, i);
  }

  /** In every reachable state two distinct holders of a tag are compatible both ways,
      and a holder in mode X is the only holder. */
  lemma HoldersAlwaysCompatible(run: seq<Machine>, events: seq<Event>, i: nat, tag: Tag, a: TransactionID,
                                b: TransactionID)
    requires IsRun(run, events) && i < |run|
    requires a in Holders(run[i].lm, tag) && b in Holders(run[i].lm, tag) && a != b
    ensures IsCompatible(Holders(run[i].lm, tag)[a], Holders(run[i].lm, tag)[b])
    ensures IsCompatible(Holders(run[i].lm, tag)[b], Holders(run[i].lm, tag)[a])
    ensures Holders(run[i].lm, tag)[a] != X && Holders(run[i].lm, tag)[b] != X
  {
    RunKeepsInv(run, events, i);
  }

  /** Two transactions hold clashing rights on a tag only as holders of S and of SIX. */
  lemma ClashOnlyAsSharedAndSix(run: seq<Machine>, events: seq<Event>, i: nat, tag: Tag, a: TransactionID,
                                b: TransactionID)
    requires IsRun(run, events) && i < |run|
    requires a in Holders(run[i].lm, tag) && b in Holders(run[i].lm, tag) && a != b
    ensures var ma, mb := Holders(run[i].lm, tag)[a], Holders(run[i].lm, tag)[b];
      ModesClash(ma, mb) ==> SharedAndSix(ma, mb)
  {
    RunKeepsInv(run, events, i);
    CompatibleIffNoClash(Holders(run[i].lm, tag)[a], Holders(run[i].lm, tag)[b]);
  }

  // What each event does, said without the segments it is made of.

  /** Every other holder of the tag is compatible with the mode. */
  ghost predicate OthersCompatible(m: Machine, tid: TransactionID, tag: Tag, mode: Mode) {
    forall o :: o in Holders(m.lm, tag) && o != tid ==> IsCompatible(mode, Holders(m.lm, tag)[o])
  }

  /** The holders of each tag, with the caller's entry on `tag` as given. */
  ghost predicate HoldersWith(m: Machine, n: Machine, tid: TransactionID, tag: Tag, entry: map<TransactionID, Mode>) {
    forall t :: Holders(n.lm, t) == if t == tag then Holders(m.lm, t) - {tid} + entry else Holders(m.lm, t)
  }

  /** A woken call is granted exactly when every other holder of its tag is compatible with
      the mode it waits for; it then has that mode and has left the queue. Otherwise nothing
      changes. */
  lemma WakeGrantsIffCompatible(m: Machine, tid: TransactionID)
    requires Inv(m) && tid in m.pending
    ensures var n, tag, mode := Next(m, Wake(tid)), m.pending[tid].tag, m.pending[tid].mode;
      && (tid !in n.pending <==> OthersCompatible(m, tid, tag, mode))
      && (tid in n.pending ==> n == m)
      && (tid !in n.pending ==>
            && n.pending == m.pending - {tid} && HoldersWith(m, n, tid, tag, map[tid := mode])
            && forall t, w :: w in Waiters(n.lm, t) <==> w in Waiters(m.lm, t) && w != tid)
  {
    var tag, mode := m.pending[tid].tag, m.pending[tid].mode;
    ConflictFree(m.lm, tid, tag, mode);
    if OthersCompatible(m, tid, tag, mode) {
      WakeGrant(m, tid);
    }
  }

  lemma WakeGrant(m: Machine, tid: TransactionID)
    requires Inv(m) && tid in m.pending && !Conflicts(m.lm, tid, m.pending[tid].tag, m.pending[tid].mode)
    ensures var n, tag, mode := Next(m, Wake(tid)), m.pending[tid].tag, m.pending[tid].mode;
      && HoldersWith(m, n, tid, tag, map[tid := mode])
      && forall t, w :: w in Waiters(n.lm, t) <==> w in Waiters(m.lm, t) && w != tid
  {
    var n, tag, mode := Next(m, Wake(tid)), m.pending[tid].tag, m.pending[tid].mode;
    var left := Dequeued(m.lm, tid, tag);
    forall t
      ensures Holders(n.lm, t) == if t == tag then Holders(m.lm, t) - {tid} + map[tid := mode] else Holders(m.lm, t)
      ensures forall w :: w in Waiters(n.lm, t) <==> w in Waiters(m.lm, t) && w != tid
    {
      WaitersAfter(m.lm, tid, tag, t);
      HoldersAfter(left, tid, tag, mode, t);
      assert ListsBlocked(Waiters(m.lm, t), m.pending, t);
      RemoveFirstMembers(Waiters(m.lm, t), tid);
    }
  }

  /** `a` waits for a tag that `b` holds, leaving out the entry of `tid` on `tag`, which a
      new call gives up first. */
  ghost predicate WaitsFor(m: Machine, tid: TransactionID, tag: Tag, a: TransactionID, b: TransactionID) {
    && a in m.pending && b in Holders(m.lm, m.pending[a].tag) && a != b
    && !(b == tid && m.pending[a].tag == tag)
  }

  /** A chain of waiting transactions that ends at `tid`. */
  ghost predicate Chain(m: Machine, tid: TransactionID, tag: Tag, q: seq<TransactionID>) {
    && |q| >= 1 && q[|q| - 1] == tid
    && forall i :: 0 <= i < |q| - 1 ==> WaitsFor(m, tid, tag, q[i], q[i + 1])
  }

  /** Some other holder of the tag waits, directly or not, for the caller. */
  ghost predicate WouldCloseCycle(m: Machine, tid: TransactionID, tag: Tag) {
    exists q :: ClosingChain(m, tid, tag, q)
  }

  ghost predicate ClosingChain(m: Machine, tid: TransactionID, tag: Tag, q: seq<TransactionID>) {
    Chain(m, tid, tag, q) && q[0] in Holders(m.lm, tag) && q[0] != tid
  }

  ghost function Waiting(m: Machine, tid: TransactionID, tag: Tag): LockState {
    Enqueued(WithoutHolder(m.lm, tid, tag), tid, tag)
  }

  lemma WaitingEdges(m: Machine, tid: TransactionID, tag: Tag, a: TransactionID, b: TransactionID)
    requires QueuesMatch(m) && tid !in m.pending
    ensures Edge(Waiting(m, tid, tag), a, b) <==>
      if a == tid then b in Holders(m.lm, tag) && b != tid else WaitsFor(m, tid, tag, a, b)
  {
    var s1, s2 := WithoutHolder(m.lm, tid, tag), Waiting(m, tid, tag);
    forall t
      ensures Holders(s2, t) == if t == tag then Holders(m.lm, t) - {tid} else Holders(m.lm, t)
      ensures forall w :: w in Waiters(s2, t) <==> (w == tid && t == tag) || (w in m.pending && m.pending[w].tag == t)
    {
      HoldersAfter(m.lm, tid, tag, S, t);
      WaitersAfter(s1, tid, tag, t);
      assert ListsBlocked(Waiters(m.lm, t), m.pending, t);
    }
    if a == tid && b in Holders(m.lm, tag) && b != tid {
      assert EdgeVia(s2, a, b, tag);
    } else if a != tid && WaitsFor(m, tid, tag, a, b) {
      assert EdgeVia(s2, a, b, m.pending[a].tag);
    }
  }

  lemma {:induction false} PathGivesChain(m: Machine, tid: TransactionID, tag: Tag, p: seq<TransactionID>)
    returns (q: seq<TransactionID>)
    requires QueuesMatch(m) && tid !in m.pending && IsPath(Waiting(m, tid, tag), p) && p[|p| - 1] == tid
    ensures Chain(m, tid, tag, q)
    ensures ClosingChain(m, tid, tag, q) || (q[0] == p[0] && (p[0] == tid ==> |p| == 1))
    decreases |p|
  {
    if |p| == 1 {
      q := p;
    } else {
      var rest := p[1..];
      forall i | 0 <= i < |rest| - 1
        ensures Edge(Waiting(m, tid, tag), rest[i], rest[i + 1])
      {
        assert Edge(Waiting(m, tid, tag), p[i + 1], p[i + 1 + 1]);
      }
      q := PathGivesChain(m, tid, tag, rest);
      assert Edge(Waiting(m, tid, tag), p[0], p[0 + 1]);
      WaitingEdges(m, tid, tag, p[0], p[1]);
      if !ClosingChain(m, tid, tag, q) && p[0] != tid {
        q := [p[0]] + q;
      }
    }
  }

  lemma ChainGivesPath(m: Machine, tid: TransactionID, tag: Tag, q: seq<TransactionID>)
    requires QueuesMatch(m) && tid !in m.pending && ClosingChain(m, tid, tag, q)
    ensures Reaches(Waiting(m, tid, tag), tid, tid)
  {
    var p := [tid] + q;
    forall i | 0 <= i < |p| - 1
      ensures Edge(Waiting(m, tid, tag), p[i], p[i + 1])
    {
      WaitingEdges(m, tid, tag, p[i], p[i + 1]);
      if i > 0 {
        assert WaitsFor(m, tid, tag, q[i - 1], q[i - 1 + 1]);
      }
    }
    assert PathBetween(Waiting(m, tid, tag), p, tid, tid);
  }

  lemma ReachesIffClosesCycle(m: Machine, tid: TransactionID, tag: Tag)
    requires QueuesMatch(m) && tid !in m.pending
    ensures Reaches(Waiting(m, tid, tag), tid, tid) <==> WouldCloseCycle(m, tid, tag)
  {
    if Reaches(Waiting(m, tid, tag), tid, tid) {
      var p :| PathBetween(Waiting(m, tid, tag), p, tid, tid);
      var q := PathGivesChain(m, tid, tag, p);
    }
    if q :| ClosingChain(m, tid, tag, q) {
      ChainGivesPath(m, tid, tag, q);
    }
  }

  /** The outcome of a call, each with its exact condition: granted at once if the mode is
      held already or every other holder is compatible; otherwise a deadlock error exactly if
      some other holder waits, directly or not, for the caller; otherwise blocked. */
  lemma CallOutcome(m: Machine, tid: TransactionID, tag: Tag, mode: Mode)
    requires Inv(m) && tid !in m.pending
    ensures var outcome := LockStart(m.lm, tid, tag, mode).1;
      var has := tid in Holders(m.lm, tag) && Holders(m.lm, tag)[tid] == mode;
      && (outcome.Granted? <==> has || OthersCompatible(m, tid, tag, mode))
      && (outcome.DeadlockError? <==>
            !has && !OthersCompatible(m, tid, tag, mode) && WouldCloseCycle(m, tid, tag))
      && (tid in Next(m, Call(tid, tag, mode)).pending <==> outcome.Blocked?)
  {
    var m1 := m.(lm := WithoutHolder(m.lm, tid, tag));
    HoldersAfter(m.lm, tid, tag, mode, tag);
    forall o
      ensures o in Holders(m.lm, tag) && o != tid <==> o in Holders(m1.lm, tag) && o != tid
      ensures o in Holders(m1.lm, tag) ==> Holders(m1.lm, tag)[o] == Holders(m.lm, tag)[o]
    {
    }
    assert OthersCompatible(m1, tid, tag, mode) <==> OthersCompatible(m, tid, tag, mode);
    ConflictFree(m1.lm, tid, tag, mode);
    ReachesIffClosesCycle(m, tid, tag);
  }

  lemma GrantedHolders(s: LockState, tid: TransactionID, tag: Tag, mode: Mode, t: Tag)
    ensures var r := WithHolder(WithoutHolder(s, tid, tag), tid, tag, mode);
      && Holders(r, t) == (if t == tag then Holders(s, t)[tid := mode] else Holders(s, t))
      && Waiters(r, t) == Waiters(s, t)
  {
    HoldersAfter(s, tid, tag, mode, t);
    HoldersAfter(WithoutHolder(s, tid, tag), tid, tag, mode, t);
  }

  lemma BlockedHolders(s: LockState, tid: TransactionID, tag: Tag, t: Tag)
    ensures var r := Enqueued(WithoutHolder(s, tid, tag), tid, tag);
      && Holders(r, t) == (if t == tag then Holders(s, t) - {tid} else Holders(s, t))
      && Waiters(r, t) == Waiters(s, t) + (if t == tag then [tid] else [])
  {
    HoldersAfter(s, tid, tag, S, t);
    WaitersAfter(WithoutHolder(s, tid, tag), tid, tag, t);
    assert Waiters(s, t) + [] == Waiters(s, t);
  }

  /** The table and queues after a call. */
  lemma CallEffect(m: Machine, tid: TransactionID, tag: Tag, mode: Mode, t: Tag)
    requires Inv(m) && tid !in m.pending
    ensures var (lm, outcome) := LockStart(m.lm, tid, tag, mode);
      && Holders(lm, t) == (if t != tag then Holders(m.lm, t)
                            else if outcome.Granted? then Holders(m.lm, t)[tid := mode] else Holders(m.lm, t) - {tid})
      && Waiters(lm, t) == Waiters(m.lm, t) + (if t == tag && outcome.Blocked? then [tid] else [])
  {
    if tid in Holders(m.lm, tag) && Holders(m.lm, tag)[tid] == mode {
      assert Holders(m.lm, tag)[tid := mode] == Holders(m.lm, tag);
    } else {
      GrantedHolders(m.lm, tid, tag, mode, t);
      BlockedHolders(m.lm, tid, tag, t);
      if LockStart(m.lm, tid, tag, mode).1.DeadlockError? {
        FailedCallDropsOldMode(m, tid, tag, mode, t);
      }
    }
    assert Waiters(m.lm, t) + [] == Waiters(m.lm, t);
  }

  /** A release takes away the caller's entry, reports whether there was one, and touches
      nothing else. */
  lemma ReleaseEffect(m: Machine, tid: TransactionID, tag: Tag, t: Tag)
    ensures var (lm, outcome) := UnlockEffect(m.lm, tid, tag);
      && (outcome.Released? <==> tid in Holders(m.lm, tag))
      && Holders(lm, t) == (if t == tag then Holders(m.lm, t) - {tid} else Holders(m.lm, t))
      && lm.waitqueue == m.lm.waitqueue
  {
    HoldersAfter(m.lm, tid, tag, S, t);
    if tid !in Holders(m.lm, tag) {
      assert Holders(m.lm, tag) - {tid} == Holders(m.lm, tag);
    }
  }

  /** `a` is blocked by `b`: it waits for a tag that `b` holds in a conflicting mode. */
  ghost predicate BlockedBy(m: Machine, a: TransactionID, b: TransactionID) {
    a in m.pending && ConflictsWith(m.lm, a, m.pending[a].tag, m.pending[a].mode, b)
  }

  ghost predicate BlockingPath(m: Machine, p: seq<TransactionID>) {
    |p| >= 1 && forall i :: 0 <= i < |p| - 1 ==> BlockedBy(m, p[i], p[i + 1])
  }

  /** Not waiting, or waiting but able to take its lock on the next wake-up. */
  ghost predicate CanProceed(m: Machine, tid: TransactionID) {
    tid in m.pending ==> !Conflicts(m.lm, tid, m.pending[tid].tag, m.pending[tid].mode)
  }

  lemma BlockingPathReaches(m: Machine, p: seq<TransactionID>, i: nat)
    requires QueuesMatch(m) && BlockingPath(m, p) && i < |p| - 1
    ensures Reaches(m.lm, p[i], p[|p| - 1])
    decreases |p| - i
  {
    assert BlockedBy(m, p[i], p[i + 1]);
    assert EdgeVia(m.lm, p[i], p[i + 1], m.pending[p[i]].tag);
    EdgeReaches(m.lm, p[i], p[i + 1]);
    if i + 1 < |p| - 1 {
      BlockingPathReaches(m, p, i + 1);
      ReachesTransitive(m.lm, p[i], p[i + 1], p[|p| - 1]);
    }
  }

  lemma ExtendBlockingPath(m: Machine, p: seq<TransactionID>, unvisited: set<TransactionID>)
    returns (q: seq<TransactionID>)
    requires Acyclic(m.lm) && QueuesMatch(m) && BlockingPath(m, p)
    requires forall t :: t in m.pending && t !in p[..|p| - 1] ==> t in unvisited
    ensures BlockingPath(m, q) && q[0] == p[0] && CanProceed(m, q[|q| - 1])
    decreases |unvisited|
  {
    var last := p[|p| - 1];
    if CanProceed(m, last) {
      q := p;
    } else {
      var b :| ConflictsWith(m.lm, last, m.pending[last].tag, m.pending[last].mode, b);
      assert last in unvisited by {
        if i :| 0 <= i < |p| - 1 && p[i] == last {
          BlockingPathReaches(m, p, i);
        }
      }
      assert (p + [b])[..|p + [b]| - 1] == p;
      q := ExtendBlockingPath(m, p + [b], unvisited - {last});
    }
  }

  /** From any transaction, following conflicting holders ends at one that can proceed. */
  lemma SomeoneCanProceed(run: seq<Machine>, events: seq<Event>, i: nat, tid: TransactionID)
    requires IsRun(run, events) && i < |run|
    ensures exists q :: BlockingPath(run[i], q) && q[0] == tid && CanProceed(run[i], q[|q| - 1])
  {
    RunKeepsInv(run, events, i);
    var q := ExtendBlockingPath(run[i], [tid], run[i].pending.Keys);
  }

  /** If every lock holder is itself waiting, then some waiter can be granted now. */
  lemma BlockedHoldersCannotStall(run: seq<Machine>, events: seq<Event>, i: nat)
    requires IsRun(run, events) && i < |run| && run[i].pending != map[]
    requires forall tag, h :: h in Holders(run[i].lm, tag) ==> h in run[i].pending
    ensures exists w :: w in run[i].pending && CanProceed(run[i], w)
  {
    var tid :| tid in run[i].pending;
    SomeoneCanProceed(run, events, i, tid);
    var q :| BlockingPath(run[i], q) && q[0] == tid && CanProceed(run[i], q[|q| - 1]);
    if |q| >= 2 {
      assert BlockedBy(run[i], q[|q| - 2], q[|q| - 2 + 1]);
    }
  }

  /** What `CanProceed` promises of a waiter: its next wake-up is a grant. */
  lemma ProceedingWaiterIsGranted(m: Machine, tid: TransactionID)
    requires Inv(m) && tid in m.pending
    ensures CanProceed(m, tid) <==> tid !in Next(m, Wake(tid)).pending
  {
    ConflictFree(m.lm, tid, m.pending[tid].tag, m.pending[tid].mode);
    WakeGrantsIffCompatible(m, tid);
  }
}
