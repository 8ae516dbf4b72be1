/** The lock table of `transaction/lock.go` as a value: lock modes and tags, the
    granted table, the wait queues, the waits-for graph they induce, and what each
    atomic segment of the monitor does to them. */
module LockTable {
  newtype TransactionID = x: int | 0 <= x < 0x1_0000_0000_0000_0000

  /** A table lock carries -1 in both `pageNum` and `slot`. */
  datatype Tag = Tag(oid: nat, pageNum: int, slot: int)

  datatype Mode = S | X | IS | IX | SIX

  predicate IsCompatible(requested: Mode, existing: Mode) {
    if requested == X || existing == X then
      false
    else if requested == S then
      existing == S || existing == IS || existing == SIX
    else if existing == S then
      requested == S || requested == IS || requested == SIX
    else if requested == IX then
      existing == IS || existing == IX
    else if existing == IX then
      requested == IS || requested == IX
    else if requested == SIX then
      existing == IS || existing == S
    else if existing == SIX then
      requested == IS || requested == S
    else
      true
  }

  /** `locks` never keeps an empty holder map and `waitqueue` never an empty queue:
      the code deletes the key instead. */
  datatype LockState = LockState(
    locks: map<Tag, map<TransactionID, Mode>>,
    waitqueue: map<Tag, seq<TransactionID>>)

  function Holders(s: LockState, tag: Tag): map<TransactionID, Mode> {
    if tag in s.locks then s.locks[tag] else map[]
  }

  function Waiters(s: LockState, tag: Tag): seq<TransactionID> {
    if tag in s.waitqueue then s.waitqueue[tag] else []
  }

  ghost predicate Conflicts(s: LockState, tid: TransactionID, tag: Tag, mode: Mode) {
    exists other :: ConflictsWith(s, tid, tag, mode, other)
  }

  ghost predicate ConflictsWith(s: LockState, tid: TransactionID, tag: Tag, mode: Mode, other: TransactionID) {
    other in Holders(s, tag) && other != tid && !IsCompatible(mode, Holders(s, tag)[other])
  }

  lemma ConflictFree(s: LockState, tid: TransactionID, tag: Tag, mode: Mode)
    ensures !Conflicts(s, tid, tag, mode) <==>
      forall o :: o in Holders(s, tag) && o != tid ==> IsCompatible(mode, Holders(s, tag)[o])
  {
    if !Conflicts(s, tid, tag, mode) {
      forall o | o in Holders(s, tag) && o != tid
        ensures IsCompatible(mode, Holders(s, tag)[o])
      {
        assert !ConflictsWith(s, tid, tag, mode, o);
      }
    } else {
      var o :| ConflictsWith(s, tid, tag, mode, o);
    }
  }

  // The waits-for graph: a waiter points at every other holder of the tag it waits on.

  ghost predicate Edge(s: LockState, a: TransactionID, b: TransactionID) {
    exists tag :: EdgeVia(s, a, b, tag)
  }

  ghost predicate EdgeVia(s: LockState, a: TransactionID, b: TransactionID, tag: Tag) {
    a in Waiters(s, tag) && b in Holders(s, tag) && a != b
  }

  ghost predicate IsPath(s: LockState, p: seq<TransactionID>) {
    |p| >= 1 && forall i :: 0 <= i < |p| - 1 ==> Edge(s, p[i], p[i + 1])
  }

  ghost predicate PathBetween(s: LockState, p: seq<TransactionID>, a: TransactionID, b: TransactionID) {
    |p| >= 2 && p[0] == a && p[|p| - 1] == b && IsPath(s, p)
  }

  /** `b` can be reached from `a` by a non-empty path. */
  ghost predicate Reaches(s: LockState, a: TransactionID, b: TransactionID) {
    exists p :: PathBetween(s, p, a, b)
  }

  ghost predicate Acyclic(s: LockState) {
    forall a :: !Reaches(s, a, a)
  }

  lemma EdgeReaches(s: LockState, a: TransactionID, b: TransactionID)
    requires Edge(s, a, b)
    ensures Reaches(s, a, b)
  {
    assert PathBetween(s, [a, b], a, b);
  }

  lemma ReachesTransitive(s: LockState, a: TransactionID, b: TransactionID, c: TransactionID)
    requires Reaches(s, a, b) && Reaches(s, b, c)
    ensures Reaches(s, a, c)
  {
    var p :| PathBetween(s, p, a, b);
    var q :| PathBetween(s, q, b, c);
    var r := p + q[1..];
    forall i | 0 <= i < |r| - 1
      ensures Edge(s, r[i], r[i + 1])
    {
      if i >= |p| - 1 {
        assert r[i] == q[i - (|p| - 1)] && r[i + 1] == q[i - (|p| - 1) + 1];
      } else {
        assert r[i] == p[i] && r[i + 1] == p[i + 1];
      }
    }
    assert PathBetween(s, r, a, c);
  }

  // What each atomic segment of the monitor does.

  function WithoutHolder(s: LockState, tid: TransactionID, tag: Tag): LockState {
    var rest := Holders(s, tag) - {tid};
    if tid !in Holders(s, tag) then s
    else if rest == map[] then s.(locks := s.locks - {tag})
    else s.(locks := s.locks[tag := rest])
  }

  function WithHolder(s: LockState, tid: TransactionID, tag: Tag, mode: Mode): LockState {
    s.(locks := s.locks[tag := Holders(s, tag)[tid := mode]])
  }

  function Enqueued(s: LockState, tid: TransactionID, tag: Tag): LockState {
    s.(waitqueue := s.waitqueue[tag := Waiters(s, tag) + [tid]])
  }

  /** The queue without its first occurrence of `tid`. */
  function RemoveFirst(q: seq<TransactionID>, tid: TransactionID): seq<TransactionID> {
    if q == [] then [] else if q[0] == tid then q[1..] else [q[0]] + RemoveFirst(q[1..], tid)
  }

  lemma {:induction false} RemoveFirstAt(q: seq<TransactionID>, tid: TransactionID, i: nat)
    requires i <= |q| && tid !in q[..i] && (i < |q| ==> q[i] == tid)
    ensures RemoveFirst(q, tid) == if i < |q| then q[..i] + q[i + 1..] else q
  {
    if i > 0 {
      assert q[0] in q[..i];
      assert q[1..][..i - 1] == q[..i][1..];
      RemoveFirstAt(q[1..], tid, i - 1);
    }
  }

  function Dequeued(s: LockState, tid: TransactionID, tag: Tag): LockState {
    var rest := RemoveFirst(Waiters(s, tag), tid);
    if rest == [] then s.(waitqueue := s.waitqueue - {tag})
    else s.(waitqueue := s.waitqueue[tag := rest])
  }

  datatype LockOutcome = Granted | DeadlockError | Blocked

  /** From the entry of `Lock` to its grant, its deadlock error or its first wait. */
  ghost function LockStart(s: LockState, tid: TransactionID, tag: Tag, mode: Mode): (LockState, LockOutcome) {
    if tid in Holders(s, tag) && Holders(s, tag)[tid] == mode then
      (s, Granted)
    else
      var s1 := WithoutHolder(s, tid, tag);
      if !Conflicts(s1, tid, tag, mode) then
        (WithHolder(s1, tid, tag, mode), Granted)
      else
        var s2 := Enqueued(s1, tid, tag);
        if Reaches(s2, tid, tid) then
          (Dequeued(s2, tid, tag), DeadlockError)
        else
          (s2, Blocked)
  }

  /** A wake-up of a blocked `Lock`: check again, then either wait on or take the lock. */
  ghost function LockRecheck(s: LockState, tid: TransactionID, tag: Tag, mode: Mode): (LockState, LockOutcome) {
    if Conflicts(s, tid, tag, mode) then
      (s, Blocked)
    else
      (WithHolder(Dequeued(s, tid, tag), tid, tag, mode), Granted)
  }

  datatype UnlockOutcome = Released | LockNotFoundError

  function UnlockEffect(s: LockState, tid: TransactionID, tag: Tag): (LockState, UnlockOutcome) {
    if tid in Holders(s, tag) then (WithoutHolder(s, tid, tag), Released)
    else (s, LockNotFoundError)
  }
}
