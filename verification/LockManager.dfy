/** `LockManager` of `transaction/lock.go`: the object that owns the lock table and the
    wait queues. `Lock` is split where it can lose the mutex, at `cond.Wait`. */
module LockManagement {
  import opened LockTable

  class LockManager {
    var locks: map<Tag, map<TransactionID, Mode>>
    var waitqueue: map<Tag, seq<TransactionID>>

    function State(): LockState
      reads this
    {
      LockState(locks, waitqueue)
    }

    constructor ()
      ensures State() == LockState(map[], map[])
    {
      locks := map[];
      waitqueue := map[];
    }

    /** Every successor of `v` has been seen and none of them is `start`. */
    static ghost predicate Explored(s: LockState, v: TransactionID, start: TransactionID, seen: set<TransactionID>) {
      forall y :: Edge(s, v, y) ==> y in seen && y != start
    }

    /** The depth-first search with its shared visited set. Map iteration order is
        arbitrary, so the loops pick any remaining key. `nodes` only bounds the search. */
    method Dfs(current: TransactionID, start: TransactionID, visited: set<TransactionID>,
               ghost nodes: set<TransactionID>)
      returns (found: bool, seen: set<TransactionID>)
      requires current == start || start in visited
      requires current in nodes && forall a, b :: Edge(State(), a, b) ==> b in nodes
      ensures visited <= seen
      ensures found && current in visited ==> current == start
      ensures found && current !in visited ==> Reaches(State(), current, start)
      ensures !found ==> current in seen && (current in visited ==> current != start)
      ensures !found ==> forall v :: v in seen && v !in visited ==> Explored(State(), v, start, seen)
      decreases nodes - visited
    {
      if current in visited {
        return current == start, visited;
      }
      ghost var s := State();
      seen := visited + {current};
      var tags := waitqueue.Keys;
      while tags != {}
        invariant visited + {current} <= seen
        invariant forall v :: v in seen && v !in visited && v != current ==> Explored(s, v, start, seen)
        invariant forall tag, y :: tag !in tags && EdgeVia(s, current, y, tag) ==> y in seen && y != start
        decreases tags
      {
        var tag :| tag in tags;
        var waiters := waitqueue[tag];
        var i := 0;
        while i < |waiters|
          invariant 0 <= i <= |waiters|
          invariant visited + {current} <= seen
          invariant forall v :: v in seen && v !in visited && v != current ==> Explored(s, v, start, seen)
          invariant forall t, y :: t !in tags && EdgeVia(s, current, y, t) ==> y in seen && y != start
          invariant current in waiters[..i] ==>
            forall y :: y in Holders(s, tag) && y != current ==> y in seen && y != start
        {
          if waiters[i] == current && tag in locks {
            var holders := locks[tag].Keys;
            while holders != {}
              invariant holders <= locks[tag].Keys
              invariant visited + {current} <= seen
              invariant forall v :: v in seen && v !in visited && v != current ==> Explored(s, v, start, seen)
              invariant forall t, y :: t !in tags && EdgeVia(s, current, y, t) ==> y in seen && y != start
              invariant forall y :: y in Holders(s, tag) && y !in holders && y != current ==> y in seen && y != start
              decreases holders
            {
              var holder :| holder in holders;
              if holder != current {
                assert EdgeVia(s, current, holder, tag) && Edge(s, current, holder);
                var before := seen;
                found, seen := Dfs(holder, start, seen, nodes);
                if found {
                  EdgeReaches(s, current, holder);
                  if holder !in before {
                    ReachesTransitive(s, current, holder, start);
                  }
                  return true, seen;
                }
              }
              holders := holders - {holder};
            }
          }
          i := i + 1;
        }
        tags := tags - {tag};
      }
      assert Explored(s, current, start, seen);
      found := false;
    }

    lemma ExploredHasNoCycle(start: TransactionID, seen: set<TransactionID>, p: seq<TransactionID>)
      requires start in seen && forall v :: v in seen ==> Explored(State(), v, start, seen)
      requires |p| >= 1 && IsPath(State(), p) && p[0] in seen
      ensures p[|p| - 1] in seen && (|p| >= 2 ==> p[|p| - 1] != start)
    {
      if |p| >= 2 {
        var q := p[..|p| - 1];
        assert IsPath(State(), q);
        ExploredHasNoCycle(start, seen, q);
        assert Edge(State(), p[|p| - 2], p[|p| - 2 + 1]);
      }
    }

    /** True exactly when `startID` can reach itself in the waits-for graph. */
    method HasDeadLock(startID: TransactionID) returns (deadlock: bool)
      ensures deadlock <==> Reaches(State(), startID, startID)
    {
      ghost var nodes := {startID} + (set tag, h | tag in locks && h in locks[tag] :: h);
      var seen;
      deadlock, seen := Dfs(startID, startID, {}, nodes);
      if !deadlock {
        forall p | PathBetween(State(), p, startID, startID)
          ensures false
        {
          ExploredHasNoCycle(startID, seen, p);
        }
      }
    }

    /** The conflict scan over the holders of `tag`, in any order. */
    method HasConflict(tid: TransactionID, tag: Tag, mode: Mode) returns (conflict: bool)
      ensures conflict <==> Conflicts(State(), tid, tag, mode)
    {
      conflict := false;
      if tag in locks {
        var holders := locks[tag].Keys;
        while holders != {} && !conflict
          invariant holders <= locks[tag].Keys
          invariant conflict ==> Conflicts(State(), tid, tag, mode)
          invariant !conflict ==> forall o :: ConflictsWith(State(), tid, tag, mode, o) ==> o in holders
          decreases |holders|
        {
          var other :| other in holders;
          if other != tid && !IsCompatible(mode, locks[tag][other]) {
            assert ConflictsWith(State(), tid, tag, mode, other);
            conflict := true;
          }
          holders := holders - {other};
        }
      }
    }

    method RemoveFromWaitQueue(tid: TransactionID, tag: Tag)
      modifies this`waitqueue
      ensures State() == Dequeued(old(State()), tid, tag)
    {
      var waiters := if tag in waitqueue then waitqueue[tag] else [];
      var i := 0;
      while i < |waiters| && waiters[i] != tid
        invariant 0 <= i <= |waiters| && tid !in waiters[..i]
      {
        i := i + 1;
      }
      RemoveFirstAt(waiters, tid, i);
      if i < |waiters| {
        waitqueue := waitqueue[tag := waiters[..i] + waiters[i + 1..]];
      }
      if tag !in waitqueue || |waitqueue[tag]| == 0 {
        waitqueue := waitqueue - {tag};
      }
      assert waitqueue == Dequeued(old(State()), tid, tag).waitqueue;
    }

    method RemoveHolder(tid: TransactionID, tag: Tag)
      requires tid in Holders(State(), tag)
      modifies this`locks
      ensures State() == WithoutHolder(old(State()), tid, tag)
    {
      var rest := locks[tag] - {tid};
      if |rest| == 0 {
        locks := locks - {tag};
      } else {
        locks := locks[tag := rest];
      }
    }

    method AddHolder(tid: TransactionID, tag: Tag, mode: Mode)
      modifies this`locks
      ensures State() == WithHolder(old(State()), tid, tag, mode)
    {
      if tag !in locks {
        locks := locks[tag := map[]];
      }
      locks := locks[tag := locks[tag][tid := mode]];
      assert locks == WithHolder(old(State()), tid, tag, mode).locks;
    }

    method Lock(tid: TransactionID, tag: Tag, mode: Mode) returns (outcome: LockOutcome)
      modifies this
      ensures (State(), outcome) == LockStart(old(State()), tid, tag, mode)
    {
      if tag in locks && tid in locks[tag] {
        if locks[tag][tid] == mode {
          return Granted;
        }
        RemoveHolder(tid, tag);
      }
      var conflict := HasConflict(tid, tag, mode);
      if conflict {
        waitqueue := waitqueue[tag := (if tag in waitqueue then waitqueue[tag] else []) + [tid]];
        var deadlock := HasDeadLock(tid);
        if deadlock {
          RemoveFromWaitQueue(tid, tag);
          return DeadlockError;
        }
        return Blocked;
      }
      AddHolder(tid, tag, mode);
      outcome := Granted;
    }

    /** The loop body after `cond.Wait` returns, up to the next wait or the grant. */
    method Recheck(tid: TransactionID, tag: Tag, mode: Mode) returns (outcome: LockOutcome)
      modifies this
      ensures (State(), outcome) == LockRecheck(old(State()), tid, tag, mode)
      ensures outcome == Granted <==>
        forall o :: o in old(Holders(State(), tag)) && o != tid ==> IsCompatible(mode, old(Holders(State(), tag))[o])
    {
      var conflict := HasConflict(tid, tag, mode);
      ConflictFree(State(), tid, tag, mode);
      if conflict {
        return Blocked;
      }
      RemoveFromWaitQueue(tid, tag);
      AddHolder(tid, tag, mode);
      outcome := Granted;
    }

    /** `broadcast` reports whether every blocked `Lock` is woken. */
    method Unlock(tid: TransactionID, tag: Tag) returns (outcome: UnlockOutcome, broadcast: bool)
      modifies this`locks
      ensures (State(), outcome) == UnlockEffect(old(State()), tid, tag)
      ensures broadcast <==> outcome.Released? && Waiters(State(), tag) != []
    {
      if tag !in locks || tid !in locks[tag] {
        return LockNotFoundError, false;
      }
      RemoveHolder(tid, tag);
      outcome := Released;
      broadcast := tag in waitqueue && |waitqueue[tag]| > 0;
    }

    method LockHeld(tag: Tag) returns (held: bool)
      ensures held <==> exists tid :: tid in Holders(State(), tag)
    {
      held := tag in locks && |locks[tag]| > 0;
      if held {
        assert locks[tag].Keys != {};
        var tid :| tid in locks[tag].Keys;
        assert tid in Holders(State(), tag);
      }
    }
  }
}
