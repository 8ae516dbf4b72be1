/** Transactions as users of the lock manager (`transaction/transaction_context.go`):
    what `heldLocks` knows about the shared lock table, over whole runs. */
module TransactionLocks {
  import opened LockTable
  import opened LockModes
  import opened LockManagement
  import Runs = LockRuns

  /** A lock already held in `current` makes a request for `mode` return at once. */
  predicate Covers(current: Mode, mode: Mode) {
    || current == X
    || (current == SIX && (mode == S || mode == IS || mode == IX))
    || (current == S && mode == IS)
    || (current == IX && mode == IS)
  }

  /** A mode covers those whose rights are among its own and fewer, and X also itself. */
  lemma CoversIffStronger(current: Mode, mode: Mode)
    ensures Covers(current, mode) <==> Rights(mode) < Rights(current) || (current == X && mode == X)
  {
    assert ReadAll !in Rights(IX) && WriteParts !in Rights(S) && WriteAll !in Rights(SIX);
    assert ReadAll in Rights(S) && WriteParts in Rights(IX) && WriteAll in Rights(X);
  }

  class TransactionContext {
    const id: TransactionID
    const lm: LockManager
    var heldLocks: map<Tag, Mode>

    constructor (lm: LockManager, id: TransactionID)
      ensures this.lm == lm && this.id == id && heldLocks == map[]
    {
      this.lm := lm;
      this.id := id;
      heldLocks := map[];
    }

    /** Each table entry of this transaction is recorded with the same mode. */
    ghost predicate Recorded()
      reads this, lm
    {
      forall tag :: id in Holders(lm.State(), tag) ==>
        tag in heldLocks && heldLocks[tag] == Holders(lm.State(), tag)[id]
    }

    /** `AcquireLock` up to its return or to the point where `Lock` blocks. */
    method AcquireLock(tag: Tag, mode: Mode) returns (outcome: LockOutcome)
      requires Recorded()
      modifies this`heldLocks, lm
      ensures Recorded()
      ensures tag in old(heldLocks) && Covers(old(heldLocks)[tag], mode) ==>
        outcome == Granted && heldLocks == old(heldLocks) && lm.State() == old(lm.State())
      ensures !(tag in old(heldLocks) && Covers(old(heldLocks)[tag], mode)) ==>
        && (lm.State(), outcome) == LockStart(old(lm.State()), id, tag, mode)
        && heldLocks == if outcome == Granted then old(heldLocks)[tag := mode] else old(heldLocks)
    {
      if tag in heldLocks {
        var currentMode := heldLocks[tag];
        if currentMode == X {
          return Granted;
        }
        if currentMode == SIX && (mode == S || mode == IS || mode == IX) {
          return Granted;
        }
        if currentMode == S && mode == IS {
          return Granted;
        }
        if currentMode == IX && mode == IS {
          return Granted;
        }
      }
      ghost var before := lm.State();
      outcome := lm.Lock(id, tag, mode);
      assert forall t :: id in Holders(lm.State(), t) && (t != tag || outcome != Granted) ==>
          id in Holders(before, t) && Holders(before, t)[id] == Holders(lm.State(), t)[id] by {
        forall t { EntriesAfterStart(before, id, tag, mode, id, t); }
      }
      assert outcome == Granted ==> id in Holders(lm.State(), tag) && Holders(lm.State(), tag)[id] == mode by {
        EntriesAfterStart(before, id, tag, mode, id, tag);
      }
      if outcome != Granted {
        return;
      }
      heldLocks := heldLocks[tag := mode];
    }

    /** A blocked `AcquireLock` after a wake-up: wait on, or take and record the lock. */
    method ResumeAcquire(tag: Tag, mode: Mode) returns (outcome: LockOutcome)
      requires Recorded()
      modifies this`heldLocks, lm
      ensures Recorded()
      ensures (lm.State(), outcome) == LockRecheck(old(lm.State()), id, tag, mode)
      ensures heldLocks == if outcome == Granted then old(heldLocks)[tag := mode] else old(heldLocks)
    {
      ghost var before := lm.State();
      outcome := lm.Recheck(id, tag, mode);
      forall t
        ensures id in Holders(lm.State(), t) && (t != tag || outcome != Granted) ==>
          id in Holders(before, t) && Holders(before, t)[id] == Holders(lm.State(), t)[id]
      {
        EntriesAfterRecheck(before, id, tag, mode, id, t);
      }
      assert outcome == Granted ==> Holders(lm.State(), tag)[id] == mode by {
        EntriesAfterRecheck(before, id, tag, mode, id, tag);
      }
      if outcome == Granted {
        heldLocks := heldLocks[tag := mode];
      }
    }

    /** Unlocks every recorded tag, in any order, then forgets them all. */
    method ReleaseAllLocks()
      requires Recorded()
      modifies this`heldLocks, lm`locks
      ensures heldLocks == map[]
      ensures forall tag :: id !in Holders(lm.State(), tag)
      ensures forall tag, other :: other != id && other in Holders(old(lm.State()), tag) ==>
        other in Holders(lm.State(), tag) && Holders(lm.State(), tag)[other] == Holders(old(lm.State()), tag)[other]
      ensures forall tag, other :: other in Holders(lm.State(), tag) ==> other in Holders(old(lm.State()), tag)
    {
      var tags := heldLocks.Keys;
      ghost var before := lm.State();
      while tags != {}
        invariant forall tag :: id in Holders(lm.State(), tag) ==> tag in tags
        invariant forall tag, other :: other != id && other in Holders(before, tag) ==>
          other in Holders(lm.State(), tag) && Holders(lm.State(), tag)[other] == Holders(before, tag)[other]
        invariant forall tag, other :: other in Holders(lm.State(), tag) ==> other in Holders(before, tag)
        decreases tags
      {
        var tag :| tag in tags;
        ghost var here := lm.State();
        var outcome, broadcast := lm.Unlock(id, tag);
        forall t
          ensures Holders(lm.State(), t) == if t == tag then Holders(here, t) - {id} else Holders(here, t)
        {
          Runs.HoldersAfter(here, id, tag, S, t);
          if id !in Holders(here, tag) {
            assert Holders(here, tag) - {id} == Holders(here, tag);
          }
        }
        tags := tags - {tag};
      }
      heldLocks := map[];
    }
  }

  /** A `Lock` call adds no table entry but the one it grants, whatever its outcome,
      and removes none but the caller's old entry on the same tag. */
  lemma EntriesAfterStart(s: LockState, tid: TransactionID, tag: Tag, mode: Mode, other: TransactionID, t: Tag)
    ensures var (s', outcome) := LockStart(s, tid, tag, mode);
      && (outcome == Granted ==> tid in Holders(s', tag) && Holders(s', tag)[tid] == mode)
      && (outcome != Granted ==> tid !in Holders(s', tag))
      && (other != tid || t != tag ==>
        && (other in Holders(s', t) <==> other in Holders(s, t))
        && (other in Holders(s, t) ==> Holders(s', t)[other] == Holders(s, t)[other]))
  {
    if !(tid in Holders(s, tag) && Holders(s, tag)[tid] == mode) {
      var s1 := WithoutHolder(s, tid, tag);
      Runs.HoldersAfter(s, tid, tag, mode, tag);
      Runs.HoldersAfter(s, tid, tag, mode, t);
      Runs.HoldersAfter(s1, tid, tag, mode, tag);
      Runs.HoldersAfter(s1, tid, tag, mode, t);
      Runs.WaitersAfter(s1, tid, tag, tag);
      Runs.WaitersAfter(s1, tid, tag, t);
      Runs.WaitersAfter(Enqueued(s1, tid, tag), tid, tag, tag);
      Runs.WaitersAfter(Enqueued(s1, tid, tag), tid, tag, t);
    }
  }

  lemma EntriesAfterRecheck(s: LockState, tid: TransactionID, tag: Tag, mode: Mode, other: TransactionID, t: Tag)
    ensures var (s', outcome) := LockRecheck(s, tid, tag, mode);
      && (outcome == Granted ==> tid in Holders(s', tag) && Holders(s', tag)[tid] == mode)
      && (outcome != Granted || other != tid || t != tag ==>
        && (other in Holders(s', t) <==> other in Holders(s, t))
        && (other in Holders(s, t) ==> Holders(s', t)[other] == Holders(s, t)[other]))
  {
    Runs.WaitersAfter(s, tid, tag, tag);
    Runs.WaitersAfter(s, tid, tag, t);
    Runs.HoldersAfter(Dequeued(s, tid, tag), tid, tag, mode, tag);
    Runs.HoldersAfter(Dequeued(s, tid, tag), tid, tag, mode, t);
  }

  // Whole runs: any number of transactions, each doing one thing at a time.

  /** `Acquiring` is blocked inside `Lock`; `Returning` has been granted the lock but has
      not yet written it into `heldLocks`; `Releasing` is inside `ReleaseAllLocks`. */
  datatype Status =
    | Idle
    | Acquiring(tag: Tag, mode: Mode)
    | Returning(tag: Tag, mode: Mode)
    | Releasing(todo: set<Tag>)

  datatype Txn = Txn(held: map<Tag, Mode>, status: Status)

  datatype System = System(lm: LockState, txns: map<TransactionID, Txn>)

  datatype Action =
    | Begin(tid: TransactionID)
    | Acquire(tid: TransactionID, tag: Tag, mode: Mode)
    | Wake(tid: TransactionID)
    | Record(tid: TransactionID)
    | StartRelease(tid: TransactionID)
    | ReleaseOne(tid: TransactionID, tag: Tag)
    | FinishRelease(tid: TransactionID)

  ghost predicate Enabled(s: System, a: Action) {
    if a.Begin? then a.tid !in s.txns
    else
      && a.tid in s.txns
      && var status := s.txns[a.tid].status;
      match a
      case Acquire(_, _, _) => status.Idle?
      case Wake(_) => status.Acquiring?
      case Record(_) => status.Returning?
      case StartRelease(_) => status.Idle?
      case ReleaseOne(_, tag) => status.Releasing? && tag in status.todo
      case FinishRelease(_) => status.Releasing? && status.todo == {}
  }

  function AfterLock(t: Txn, outcome: LockOutcome, tag: Tag, mode: Mode): Txn {
    match outcome
    case Granted => t.(status := Returning(tag, mode))
    case DeadlockError => t.(status := Idle)
    case Blocked => t.(status := Acquiring(tag, mode))
  }

  ghost function Next(s: System, a: Action): System
    requires Enabled(s, a)
  {
    if a.Begin? then s.(txns := s.txns[a.tid := Txn(map[], Idle)])
    else
      var t := s.txns[a.tid];
      match a
      case Acquire(tid, tag, mode) =>
        if tag in t.held && Covers(t.held[tag], mode) then s
        else
          var (lm, outcome) := LockStart(s.lm, tid, tag, mode);
          System(lm, s.txns[tid := AfterLock(t, outcome, tag, mode)])
      case Wake(tid) =>
        var (lm, outcome) := LockRecheck(s.lm, tid, t.status.tag, t.status.mode);
        System(lm, s.txns[tid := AfterLock(t, outcome, t.status.tag, t.status.mode)])
      case Record(tid) =>
        s.(txns := s.txns[tid := Txn(t.held[t.status.tag := t.status.mode], Idle)])
      case StartRelease(tid) =>
        s.(txns := s.txns[tid := t.(status := Releasing(t.held.Keys))])
      case ReleaseOne(tid, tag) =>
        System(UnlockEffect(s.lm, tid, tag).0, s.txns[tid := t.(status := Releasing(t.status.todo - {tag}))])
      case FinishRelease(tid) =>
        s.(txns := s.txns[tid := Txn(map[], Idle)])
  }

  const Initial: System := System(LockState(map[], map[]), map[])

  ghost predicate IsRun(run: seq<System>, actions: seq<Action>) {
    && |run| == |actions| + 1
    && run[0] == Initial
    && forall i :: 0 <= i < |actions| ==> Enabled(run[i], actions[i]) && run[i + 1] == Next(run[i], actions[i])
  }

  /** What transaction `tid` may find in the lock table under its own name. */
  ghost predicate EntryKnown(t: Txn, tag: Tag, mode: Mode) {
    match t.status
    case Idle => tag in t.held && t.held[tag] == mode
    case Acquiring(waiting, _) => tag != waiting && tag in t.held && t.held[tag] == mode
    case Returning(granted, m) => if tag == granted then mode == m else tag in t.held && t.held[tag] == mode
    case Releasing(todo) => tag in todo && tag in t.held && t.held[tag] == mode
  }

  ghost predicate EntriesKnown(s: System) {
    forall tag, tid :: tid in Holders(s.lm, tag) ==>
      tid in s.txns && EntryKnown(s.txns[tid], tag, Holders(s.lm, tag)[tid])
  }

  lemma StepKeepsEntriesKnown(s: System, a: Action)
    requires EntriesKnown(s) && Enabled(s, a)
    ensures EntriesKnown(Next(s, a))
  {
    var s' := Next(s, a);
    forall tag, tid | tid in Holders(s'.lm, tag)
      ensures tid in s'.txns && EntryKnown(s'.txns[tid], tag, Holders(s'.lm, tag)[tid])
    {
      match a
      case Begin(_) =>
      case Acquire(me, mine, mode) =>
        EntriesAfterStart(s.lm, me, mine, mode, tid, tag);
      case Wake(me) =>
        EntriesAfterRecheck(s.lm, me, s.txns[me].status.tag, s.txns[me].status.mode, tid, tag);
      case Record(_) =>
      case StartRelease(_) =>
      case ReleaseOne(me, mine) =>
        Runs.HoldersAfter(s.lm, me, mine, S, tag);
      case FinishRelease(_) =>
    }
  }

  lemma {:induction false} RunKeepsEntriesKnown(run: seq<System>, actions: seq<Action>, i: nat)
    requires IsRun(run, actions) && i < |run|
    ensures EntriesKnown(run[i])
  {
    if i > 0 {
      RunKeepsEntriesKnown(run, actions, i - 1);
      StepKeepsEntriesKnown(run[i - 1], actions[i - 1]);
      assert run[i - 1 + 1] == Next(run[i - 1], actions[i - 1]);
    }
  }

  // The main results.

  /** In every run, outside the instant between a grant and its recording, each table
      entry of a transaction is in its `heldLocks` with the same mode, also after a mode
      change has failed with a deadlock error. */
  lemma TableEntriesAreRecorded(run: seq<System>, actions: seq<Action>, i: nat, tid: TransactionID, tag: Tag)
    requires IsRun(run, actions) && i < |run| && tid in Holders(run[i].lm, tag)
    ensures tid in run[i].txns
    ensures var t := run[i].txns[tid];
      if t.status == Returning(tag, Holders(run[i].lm, tag)[tid]) then true
      else tag in t.held && t.held[tag] == Holders(run[i].lm, tag)[tid]
  {
    RunKeepsEntriesKnown(run, actions, i);
  }

  /** When `ReleaseAllLocks` returns, the transaction holds nothing anywhere. */
  lemma NothingHeldAfterRelease(run: seq<System>, actions: seq<Action>, i: nat, tid: TransactionID, tag: Tag)
    requires IsRun(run, actions) && i < |actions| && actions[i] == FinishRelease(tid)
    ensures tid !in Holders(run[i + 1].lm, tag)
    ensures run[i + 1].txns[tid].held == map[]
  {
    RunKeepsEntriesKnown(run, actions, i);
    assert run[i + 1] == Next(run[i], actions[i]);
  }

  // Every transaction run is a lock-manager run, so the lock manager's guarantees carry over.

  ghost function Blocked(s: System): map<TransactionID, Runs.Request> {
    map tid | tid in s.txns && s.txns[tid].status.Acquiring? ::
      Runs.Request(s.txns[tid].status.tag, s.txns[tid].status.mode)
  }

  ghost function Project(s: System): Runs.Machine {
    Runs.Machine(s.lm, Blocked(s))
  }

  ghost predicate ProjectedStep(m: Runs.Machine, m': Runs.Machine) {
    m' == m || exists e :: Runs.Enabled(m, e) && m' == Runs.Next(m, e)
  }

  lemma BlockedAfter(lm: LockState, txns: map<TransactionID, Txn>, tid: TransactionID, t: Txn)
    ensures Blocked(System(lm, txns[tid := t])) ==
      if t.status.Acquiring? then Blocked(System(lm, txns))[tid := Runs.Request(t.status.tag, t.status.mode)]
      else Blocked(System(lm, txns)) - {tid}
  {
  }

  lemma StepProjects(s: System, a: Action)
    requires Enabled(s, a)
    ensures ProjectedStep(Project(s), Project(Next(s, a)))
  {
    var m, s' := Project(s), Next(s, a);
    BlockedAfter(s.lm, s.txns, a.tid, s'.txns[a.tid]);
    assert a.tid !in m.pending ==> m.pending - {a.tid} == m.pending;
    if a.Acquire? && s' != s {
      assert Project(s') == Runs.Next(m, Runs.Call(a.tid, a.tag, a.mode));
    } else if a.Wake? {
      assert Blocked(s) == Blocked(s)[a.tid := Blocked(s)[a.tid]];
      assert Project(s') == Runs.Next(m, Runs.Wake(a.tid));
    } else if a.ReleaseOne? {
      assert Project(s') == Runs.Next(m, Runs.Release(a.tid, a.tag));
    } else {
      assert Project(s') == m;
    }
  }

  lemma {:induction false} TransactionRunsSafe(run: seq<System>, actions: seq<Action>, i: nat)
    requires IsRun(run, actions) && i < |run|
    ensures Runs.Inv(Project(run[i]))
  {
    if i == 0 {
      assert Project(Initial) == Runs.Initial;
      Runs.RunKeepsInv([Runs.Initial], [], 0);
    } else {
      TransactionRunsSafe(run, actions, i - 1);
      StepProjects(run[i - 1], actions[i - 1]);
      assert run[i - 1 + 1] == Next(run[i - 1], actions[i - 1]);
      if Project(run[i]) != Project(run[i - 1]) {
        var e :| Runs.Enabled(Project(run[i - 1]), e) && Project(run[i]) == Runs.Next(Project(run[i - 1]), e);
        Runs.StepKeepsInv(Project(run[i - 1]), e);
      }
    }
  }

  lemma ConflictIgnoresOwnEntry(s: LockState, tid: TransactionID, tag: Tag, mode: Mode)
    ensures Conflicts(WithoutHolder(s, tid, tag), tid, tag, mode) <==> Conflicts(s, tid, tag, mode)
  {
    Runs.HoldersAfter(s, tid, tag, mode, tag);
    forall other
      ensures ConflictsWith(WithoutHolder(s, tid, tag), tid, tag, mode, other) <==>
        ConflictsWith(s, tid, tag, mode, other)
    {
    }
  }

  /** The converse of `TableEntriesAreRecorded` fails. When a transaction asks for a mode
      that its recorded one does not cover, the record stays, but the table keeps an entry
      exactly when nobody else's mode conflicts: otherwise the old lock is gone at once,
      whether the call then waits or ends in a deadlock error. */
  lemma ModeChangeKeepsLockIffNoConflict(run: seq<System>, actions: seq<Action>, i: nat, tid: TransactionID, tag: Tag,
                                         mode: Mode)
    requires IsRun(run, actions) && i < |actions| && actions[i] == Acquire(tid, tag, mode)
    requires tag in run[i].txns[tid].held && !Covers(run[i].txns[tid].held[tag], mode)
    ensures tag in run[i + 1].txns[tid].held
    ensures tid in Holders(run[i + 1].lm, tag) <==> !Conflicts(run[i].lm, tid, tag, mode)
  {
    EntriesAfterStart(run[i].lm, tid, tag, mode, tid, tag);
    ConflictIgnoresOwnEntry(run[i].lm, tid, tag, mode);
    assert run[i + 1] == Next(run[i], actions[i]);
    TransactionRunsSafe(run, actions, i);
    assert Runs.HoldersCompatible(run[i].lm);
  }

  // Runs that lose a lock.

  lemma CarryOn(run: seq<System>, actions: seq<Action>, a: Action) returns (longer: seq<System>, more: seq<Action>)
    requires IsRun(run, actions) && Enabled(run[|actions|], a)
    ensures IsRun(longer, more) && |more| == |actions| + 1 && more[|actions|] == a
    ensures longer[|actions|] == run[|actions|] && longer[|more|] == Next(run[|actions|], a)
  {
    longer, more := run + [Next(run[|actions|], a)], actions + [a];
    forall i | 0 <= i < |more|
      ensures Enabled(longer[i], more[i]) && longer[i + 1] == Next(longer[i], more[i])
    {
      if i < |actions| {
        assert longer[i] == run[i] && longer[i + 1] == run[i + 1] && more[i] == actions[i];
      }
    }
  }

  /** A first request that meets no conflict is granted and recorded. */
  lemma TakesLock(run: seq<System>, actions: seq<Action>, tid: TransactionID, tag: Tag, mode: Mode)
    returns (longer: seq<System>, more: seq<Action>)
    requires IsRun(run, actions)
    requires var s := run[|actions|];
      && tid in s.txns && s.txns[tid].status.Idle? && tag !in s.txns[tid].held
      && tid !in Holders(s.lm, tag) && !Conflicts(s.lm, tid, tag, mode)
    ensures IsRun(longer, more)
    ensures var s := run[|actions|];
      longer[|more|] == System(WithHolder(s.lm, tid, tag, mode),
                               s.txns[tid := Txn(s.txns[tid].held[tag := mode], Idle)])
  {
    longer, more := CarryOn(run, actions, Acquire(tid, tag, mode));
    longer, more := CarryOn(longer, more, Record(tid));
  }

  function Holding(a: TransactionID, am: Mode, b: TransactionID, bm: Mode, tag: Tag): LockState {
    LockState(map[tag := map[a := am, b := bm]], map[])
  }

  /** Two transactions come to share a tag. */
  lemma BothShare(a: TransactionID, b: TransactionID, tag: Tag) returns (run: seq<System>, actions: seq<Action>)
    requires a != b
    ensures IsRun(run, actions)
    ensures run[|actions|] ==
      System(Holding(a, S, b, S, tag), map[a := Txn(map[tag := S], Idle), b := Txn(map[tag := S], Idle)])
  {
    run, actions := [Initial], [];
    run, actions := CarryOn(run, actions, Begin(a));
    run, actions := CarryOn(run, actions, Begin(b));
    run, actions := TakesLock(run, actions, a, tag, S);
    run, actions := TakesLock(run, actions, b, tag, S);
  }

  /** The failing case of `ModeChangeKeepsLockIffNoConflict` is reached: two holders of S,
      and one of them asks for X. */
  lemma UpgradeLosesLock(a: TransactionID, b: TransactionID, tag: Tag) returns (run: seq<System>, actions: seq<Action>)
    requires a != b
    ensures IsRun(run, actions)
    ensures var s := run[|actions|];
      a in s.txns && tag in s.txns[a].held && s.txns[a].held[tag] == S && a !in Holders(s.lm, tag)
  {
    run, actions := BothShare(a, b, tag);
    var i, s := |actions|, run[|actions|];
    assert ConflictsWith(s.lm, a, tag, X, b);
    run, actions := CarryOn(run, actions, Acquire(a, tag, X));
    ModeChangeKeepsLockIffNoConflict(run, actions, i, a, tag, X);
  }

  lemma FirstEdges(s: LockState, p: seq<TransactionID>, a: TransactionID, b: TransactionID)
    requires PathBetween(s, p, a, b)
    ensures Edge(s, p[0], p[1]) && (|p| == 2 || Edge(s, p[1], p[2]))
  {
  }

  lemma WaitsAlone(s: LockState, a: TransactionID, b: TransactionID)
    requires a != b && (forall t :: a !in Waiters(s, t)) && forall c :: Edge(s, b, c) ==> c == a
    ensures !Reaches(s, b, b)
  {
    forall p | PathBetween(s, p, b, b)
      ensures false
    {
      FirstEdges(s, p, b, b);
    }
  }

  function Crossed(a: TransactionID, b: TransactionID, tag: Tag, other: Tag): System {
    System(LockState(map[tag := map[a := S, b := S], other := map[a := X]], map[other := [b]]),
           map[a := Txn(map[tag := S, other := X], Idle), b := Txn(map[tag := S], Acquiring(other, S))])
  }

  /** Both share `tag`, and one waits for the other on another tag. */
  lemma BothShareOneWaits(a: TransactionID, b: TransactionID, tag: Tag, other: Tag)
    returns (run: seq<System>, actions: seq<Action>)
    requires a != b && tag != other
    ensures IsRun(run, actions) && run[|actions|] == Crossed(a, b, tag, other)
  {
    run, actions := BothShare(a, b, tag);
    run, actions := TakesLock(run, actions, a, other, X);
    var s := run[|actions|];
    assert s.lm.locks == map[tag := map[a := S, b := S], other := map[a := X]];
    assert ConflictsWith(s.lm, b, other, S, a);
    var waiting := Enqueued(s.lm, b, other);
    assert [] + [b] == [b];
    assert waiting.waitqueue == map[other := [b]];
    WaitsAlone(waiting, a, b);
    run, actions := CarryOn(run, actions, Acquire(b, other, S));
  }

  /** A mode change can fail and leave the transaction running without its lock, which it
      still has on record: a request the old mode covers is then answered without any lock. */
  lemma FailedUpgradeLosesLock(a: TransactionID, b: TransactionID, tag: Tag, other: Tag)
    returns (run: seq<System>, actions: seq<Action>)
    requires a != b && tag != other
    ensures IsRun(run, actions)
    ensures var s := run[|actions|];
      && a in s.txns && s.txns[a].status.Idle? && tag in s.txns[a].held && a !in Holders(s.lm, tag)
      && Next(s, Acquire(a, tag, IS)) == s
  {
    run, actions := BothShareOneWaits(a, b, tag, other);
    var i, s := |actions|, run[|actions|];
    assert ConflictsWith(s.lm, a, tag, X, b);
    var waiting := Enqueued(WithoutHolder(s.lm, a, tag), a, tag);
    ConflictIgnoresOwnEntry(s.lm, a, tag, X);
    assert EdgeVia(waiting, a, b, tag) && EdgeVia(waiting, b, a, other);
    assert Edge(waiting, a, b) && Edge(waiting, b, a);
    assert PathBetween(waiting, [a, b, a], a, a);
    run, actions := CarryOn(run, actions, Acquire(a, tag, X));
    assert run[|actions|].txns[a] == Txn(map[tag := S, other := X], Idle);
    ModeChangeKeepsLockIffNoConflict(run, actions, i, a, tag, X);
  }

  /** S and SIX on one tag at once: a transaction may read all of what another may be
      writing parts of. */
  lemma SharedAndSixTogether(a: TransactionID, b: TransactionID, tag: Tag)
    returns (run: seq<System>, actions: seq<Action>)
    requires a != b
    ensures IsRun(run, actions)
    ensures var s := run[|actions|].lm;
      && a in Holders(s, tag) && b in Holders(s, tag)
      && Holders(s, tag)[a] == S && Holders(s, tag)[b] == SIX && ModesClash(S, SIX)
  {
    run, actions := [Initial], [];
    run, actions := CarryOn(run, actions, Begin(a));
    run, actions := CarryOn(run, actions, Begin(b));
    run, actions := TakesLock(run, actions, a, tag, S);
    run, actions := TakesLock(run, actions, b, tag, SIX);
    assert ReadAll in Rights(S) && WriteParts in Rights(SIX) && RightsClash(ReadAll, WriteParts);
  }
}
