/** `BufferPool` of `storage/buffer_pool.go` as the object itself: the clock sweep, and
    calls that run without interruption, tied to the steps of the concurrent protocol. */
module BufferPoolObject {
  import opened BufferPoolSteps

  const MAX_REF_COUNT := 2
  const SINGLE_PASS_SIZE := 1000

  datatype PageFrame = PageFrame(pageID: PageID, pinCount: int, isDirty: bool, refCount: int, bytes: Bytes)

  // The clock order.

  /** How many places the hand must move to stand at `f` on a clock of `n` frames. */
  function Distance(hand: nat, f: nat, n: nat): nat
    requires hand < n && f < n
  {
    if f >= hand then f - hand else f + n - hand
  }

  predicate Unpinned(frames: seq<PageFrame>, f: nat) {
    f < |frames| && frames[f].pinCount == 0
  }

  /** No unpinned frame with a reference count below `limit` closer than `k` places. */
  ghost predicate NoneBelow(frames: seq<PageFrame>, hand: nat, k: nat, limit: int)
    requires hand < |frames|
  {
    forall f: nat :: Unpinned(frames, f) && Distance(hand, f, |frames|) < k ==> frames[f].refCount >= limit
  }

  ghost predicate NoneUnpinned(frames: seq<PageFrame>, hand: nat, k: nat)
    requires hand < |frames|
  {
    forall f: nat :: Unpinned(frames, f) ==> Distance(hand, f, |frames|) >= k
  }

  /** Which frame the clock picks, said without the clock: in a pool of at most 1000 the
      first unpinned frame in clock order that is not at the maximal reference count, or,
      when they all are, the first unpinned one; in a larger pool the first unpinned one. */
  ghost predicate IsVictim(frames: seq<PageFrame>, hand: nat, v: nat)
    requires hand < |frames|
  {
    && Unpinned(frames, v)
    && var k := Distance(hand, v, |frames|);
    if |frames| <= SINGLE_PASS_SIZE && frames[v].refCount < MAX_REF_COUNT then
      NoneBelow(frames, hand, k, MAX_REF_COUNT)
    else
      && NoneUnpinned(frames, hand, k)
      && (|frames| <= SINGLE_PASS_SIZE ==> NoneBelow(frames, hand, |frames|, MAX_REF_COUNT))
  }

  /** The rule determines the victim. */
  lemma VictimUnique(frames: seq<PageFrame>, hand: nat, v: nat, w: nat)
    requires hand < |frames| && IsVictim(frames, hand, v) && IsVictim(frames, hand, w)
    ensures v == w
  {
    assert Unpinned(frames, v) && Unpinned(frames, w);
    assert Distance(hand, v, |frames|) <= Distance(hand, w, |frames|);
  }

  /** In a pool of at most 1000 a frame at the maximal count goes only if every unpinned
      frame is at the maximal count. */
  lemma HotFrameGoesLast(frames: seq<PageFrame>, hand: nat, v: nat, f: nat)
    requires hand < |frames| <= SINGLE_PASS_SIZE && RefCountsOk(frames) && IsVictim(frames, hand, v)
    requires frames[v].refCount == MAX_REF_COUNT && Unpinned(frames, f)
    ensures frames[f].refCount == MAX_REF_COUNT
  {
    assert Distance(hand, f, |frames|) < |frames|;
  }

  predicate RefCountsOk(frames: seq<PageFrame>) {
    forall f :: 0 <= f < |frames| ==> 0 <= frames[f].refCount <= MAX_REF_COUNT
  }

  class BufferPool {
    var frames: seq<PageFrame>
    var pageTable: map<PageID, nat>
    var clockHand: nat
    var disk: map<PageID, Bytes>
    ghost var pins: map<nat, Pin>

    /** The pool as a state of the concurrent protocol with no operation in flight. */
    ghost function View(): Pool
      reads this
    {
      Pool(Quiet(frames), pageTable, disk, map[], pins)
    }

    static function Quiet(frames: seq<PageFrame>): seq<Frame> {
      seq(|frames|, i requires 0 <= i < |frames| => Unlatched(frames[i]))
    }

    static function Unlatched(fr: PageFrame): Frame {
      Frame(fr.pageID, fr.pinCount, fr.isDirty, fr.bytes, Free)
    }

    static lemma QuietUpdate(frames: seq<PageFrame>, f: nat, fr: PageFrame)
      requires f < |frames|
      ensures Quiet(frames[f := fr]) == Quiet(frames)[f := Unlatched(fr)]
    {
    }

    ghost predicate Valid()
      reads this
    {
      Inv(View()) && RefCountsOk(frames) && (frames != [] ==> clockHand < |frames|)
    }

    constructor (numPages: nat, disk: map<PageID, Bytes>, blank: Bytes)
      requires forall p :: p in disk ==> p.oid != 0
      ensures Valid() && |frames| == numPages && this.disk == disk && pins == map[]
      ensures forall p :: p in disk ==> Content(View(), p) == disk[p]
    {
      frames := seq(numPages, i => PageFrame(NilPage, 0, false, 0, blank));
      pageTable := map[];
      clockHand := 0;
      this.disk := disk;
      pins := map[];
      new;
      RunKeepsInv([View()], [], 0);
    }

    /** The hand looks at one frame. */
    method Visit(soft: bool) returns (stop: bool)
      requires RefCountsOk(frames) && clockHand < |frames|
      modifies this`frames
      ensures frames == old(frames)[clockHand := AfterVisit(old(frames)[clockHand], soft)] && RefCountsOk(frames)
      ensures stop <==> Unpinned(frames, clockHand) && (!soft || old(frames)[clockHand].refCount < MAX_REF_COUNT)
    {
      var frame := frames[clockHand];
      if frame.pinCount == 0 {
        if frame.refCount == 0 {
          return true;
        }
        var count := if soft then frame.refCount - 1 else 0;
        frames := frames[clockHand := frame.(refCount := count)];
        if count == 0 {
          return true;
        }
      }
      return false;
    }

    /** One round of the clock. A soft round takes one reference from each unpinned frame
        it passes and stops where none is left; any other round stops at the first
        unpinned frame. */
    method SweepRound(soft: bool) returns (found: bool, victim: nat)
      requires RefCountsOk(frames) && frames != [] && clockHand < |frames|
      modifies this`frames, this`clockHand
      ensures |frames| == |old(frames)| && RefCountsOk(frames) && clockHand < |frames|
      ensures found ==> victim == clockHand && StopsAt(old(frames), old(clockHand), soft, victim)
      ensures found ==>
        VisitedTo(old(frames), frames, old(clockHand), Distance(old(clockHand), victim, |frames|) + 1, soft)
      ensures !found ==> clockHand == old(clockHand) && VisitedTo(old(frames), frames, clockHand, |frames|, soft)
      ensures !found && soft ==> NoneBelow(old(frames), clockHand, |frames|, MAX_REF_COUNT)
      ensures !found && !soft ==> NoneUnpinned(old(frames), clockHand, |frames|)
    {
      found, victim := false, 0;
      var poolSize := |frames|;
      ghost var was, hand := frames, clockHand;
      var i := 0;
      while i < poolSize
        invariant 0 <= i <= poolSize == |was| && !found && RefCountsOk(frames)
        invariant hand < |was| && SweptTo(was, frames, hand, clockHand, i, soft)
      {
        ghost var here := frames;
        var stop := Visit(soft);
        VisitedNext(was, here, hand, clockHand, i, soft);
        if stop {
          return true, clockHand;
        }
        SweptPast(was, here, hand, clockHand, i, soft);
        clockHand := if clockHand + 1 == poolSize then 0 else clockHand + 1;
        i := i + 1;
      }
    }

    /** The whole sweep: two rounds, or one in a pool of more than 1000 frames. Pin counts
        stay as they are while it runs. */
    method Sweep() returns (found: bool, victim: nat)
      requires RefCountsOk(frames) && (frames != [] ==> clockHand < |frames|)
      modifies this`frames, this`clockHand
      ensures |frames| == |old(frames)| && RefCountsOk(frames) && (frames != [] ==> clockHand < |frames|)
      ensures SameButCounts(old(frames), frames)
      ensures found <==> exists f :: Unpinned(old(frames), f)
      ensures found ==> victim == clockHand < |frames| && IsVictim(old(frames), old(clockHand), victim)
      ensures found ==> CountsAfterSweep(old(frames), frames, old(clockHand), victim)
      ensures !found ==> frames == old(frames)
    {
      found, victim := false, 0;
      if frames == [] {
        return;
      }
      ghost var was, hand := frames, clockHand;
      var poolSize := |frames|;
      var passesAllowed := 2;
      if poolSize > SINGLE_PASS_SIZE {
        passesAllowed := 1;
      }
      var pass := 0;
      while pass < passesAllowed && !found
        invariant 0 <= pass <= passesAllowed
        invariant |frames| == poolSize && RefCountsOk(frames) && clockHand < poolSize
        invariant !found ==> clockHand == hand
        invariant !found && pass == 0 ==> frames == was
        invariant !found && pass == 1 && poolSize <= SINGLE_PASS_SIZE ==>
          NoneBelow(was, hand, poolSize, MAX_REF_COUNT) && VisitedTo(was, frames, hand, poolSize, true)
        invariant !found && pass == passesAllowed ==> NoneUnpinned(was, hand, poolSize) && frames == was
        invariant found ==> victim == clockHand && IsVictim(was, hand, victim)
        invariant found ==> CountsAfterSweep(was, frames, hand, victim)
        decreases passesAllowed - pass
      {
        var soft := pass == 0 && poolSize <= SINGLE_PASS_SIZE;
        ghost var here := frames;
        found, victim := SweepRound(soft);
        if pass == 0 {
          FirstRound(was, frames, hand, victim, soft, found);
        } else {
          SecondRound(was, here, frames, hand, victim, found);
        }
        pass := pass + 1;
      }
      if found {
        assert Unpinned(was, victim);
      }
    }

    /** The latched part of a hit. */
    method PinFound(pageID: PageID, ghost pin: nat) returns (f: nat)
      requires pageID in pageTable && pageTable[pageID] < |frames| && RefCountsOk(frames)
      modifies this`frames, this`pins
      ensures f == pageTable[pageID] && |frames| == |old(frames)| && RefCountsOk(frames)
      ensures View() == AfterHit(old(View()), pageID, pin)
      ensures frames[f].pageID == old(frames)[f].pageID && frames[f].bytes == old(frames)[f].bytes
      ensures frames[f].refCount == if old(frames)[f].refCount == 2 then 2 else old(frames)[f].refCount + 1
      ensures forall g :: 0 <= g < |frames| && g != f ==> frames[g] == old(frames)[g]
    {
      f := pageTable[pageID];
      var frame := frames[f];
      var count := if frame.refCount < MAX_REF_COUNT then frame.refCount + 1 else frame.refCount;
      frames := frames[f := frame.(pinCount := frame.pinCount + 1, refCount := count)];
      pins := pins[pin := Pin(f, pageID, false)];
      QuietUpdate(old(frames), f, frames[f]);
    }

    /** Victim to be replaced: the old page goes to disk if dirty and leaves the table. The
        write is within bounds (see `WriteBackInBounds`), so its error branch is not taken. */
    method EvictOld(pageID: PageID, victim: nat)
      requires victim == clockHand < |frames| && RefCountsOk(frames)
      requires frames[victim].isDirty ==> frames[victim].pageID in disk
      modifies this`frames, this`pageTable, this`clockHand, this`disk
      ensures clockHand < |frames| == |old(frames)| && RefCountsOk(frames)
      ensures disk == SavedDisk(old(View()), victim)
      ensures pageTable == old(pageTable)[pageID := victim] - {old(frames)[victim].pageID}
      ensures frames == old(frames)[victim := PageFrame(pageID, 1, false, 1, old(frames)[victim].bytes)]
    {
      var prior := frames[victim].pageID;
      frames := frames[victim := frames[victim].(pinCount := 1, pageID := pageID)];
      pageTable := pageTable[pageID := victim];
      clockHand := if clockHand + 1 == |frames| then 0 else clockHand + 1;
      if frames[victim].isDirty {
        disk := disk[prior := frames[victim].bytes];
        frames := frames[victim := frames[victim].(isDirty := false)];
      }
      pageTable := pageTable - {prior};
      frames := frames[victim := frames[victim].(refCount := 1)];
    }

    /** The read of the new page into its frame, or the clean-up when there is no such page. */
    method ReadInto(pageID: PageID, victim: nat, ghost pin: nat) returns (ok: bool)
      requires victim < |frames| && RefCountsOk(frames)
      modifies this`frames, this`pageTable, this`pins
      ensures |frames| == |old(frames)| && RefCountsOk(frames) && ok == (pageID in disk)
      ensures pins == if ok then old(pins)[pin := Pin(victim, pageID, false)] else old(pins)
      ensures pageTable == if ok then old(pageTable) else old(pageTable) - {pageID}
      ensures frames == old(frames)[victim :=
        if ok then old(frames)[victim].(bytes := disk[pageID])
        else old(frames)[victim].(pinCount := 0, pageID := NilPage)]
    {
      if pageID !in disk {
        pageTable := pageTable - {pageID};
        frames := frames[victim := frames[victim].(pinCount := 0, pageID := NilPage)];
        return false;
      }
      frames := frames[victim := frames[victim].(bytes := disk[pageID])];
      pins := pins[pin := Pin(victim, pageID, false)];
      return true;
    }

    /** From the chosen victim to the end of the read. */
    method Replace(pageID: PageID, victim: nat, ghost pin: nat) returns (ok: bool)
      requires victim == clockHand < |frames| && RefCountsOk(frames)
      requires frames[victim].isDirty ==> frames[victim].pageID in disk
      modifies this
      ensures clockHand < |frames| == |old(frames)| && RefCountsOk(frames)
      ensures ok == (pageID in SavedDisk(old(View()), victim))
      ensures View() ==
        if ok then AfterMiss(old(View()), pageID, victim, pin) else AfterFailedMiss(old(View()), pageID, victim)
      ensures ok ==> frames[victim].pageID == pageID && frames[victim].bytes == disk[pageID]
    {
      EvictOld(pageID, victim);
      ok := ReadInto(pageID, victim, pin);
      assert frames == old(frames)[victim := frames[victim]];
      QuietUpdate(old(frames), victim, frames[victim]);
    }

    /** A whole `GetPage` without interference, as a run of protocol steps. Where the code
        would spin for ever because every frame is pinned, it reports `AllPinned`. */
    method GetPage(pageID: PageID, ghost pin: nat) returns (r: GetResult, ghost steps: seq<Step>)
      requires Valid() && pageID.oid != 0 && pin !in pins
      modifies this
      ensures Valid() && |frames| == |old(frames)| && SameContents(old(View()), View())
      ensures Leads(old(View()), steps, View()) && Silent(steps)
      ensures r.Pinned? ==>
        && r.frame < |frames| && frames[r.frame].pageID == pageID && pageID in disk
        && frames[r.frame].bytes == Content(old(View()), pageID)
        && pins == old(pins)[pin := Pin(r.frame, pageID, false)]
      ensures !r.Pinned? ==> pins == old(pins)
      ensures r.NoSuchPage? ==> pageID !in disk
      ensures r.AllPinned? <==> pageID !in old(pageTable) && forall f :: !Unpinned(old(frames), f)
    {
      if pageID in pageTable {
        var f;
        f, steps := Hit(pageID, pin);
        return Pinned(f), steps;
      }
      ghost var s := View();
      var found, victim := Sweep();
      assert Quiet(frames) == Quiet(old(frames));
      if !found {
        SilentSteps(s, [], s);
        return AllPinned, [];
      }
      var ok;
      ok, steps := Miss(pageID, victim, pin);
      r := if ok then Pinned(victim) else NoSuchPage;
    }

    method Hit(pageID: PageID, ghost pin: nat) returns (f: nat, ghost steps: seq<Step>)
      requires Valid() && pageID.oid != 0 && pin !in pins && pageID in pageTable
      modifies this`frames, this`pins
      ensures Valid() && |frames| == |old(frames)| && SameContents(old(View()), View())
      ensures Leads(old(View()), steps, View()) && Silent(steps)
      ensures f < |frames| && frames[f].pageID == pageID && pageID in disk
      ensures frames[f].bytes == Content(old(View()), pageID)
      ensures pins == old(pins)[pin := Pin(f, pageID, false)]
    {
      ghost var s := View();
      steps := HitSteps(pageID, pin);
      HitIsSteps(s, pageID, pin);
      SilentSteps(s, steps, AfterHit(s, pageID, pin));
      f := PinFound(pageID, pin);
    }

    method Miss(pageID: PageID, victim: nat, ghost pin: nat) returns (ok: bool, ghost steps: seq<Step>)
      requires Valid() && pageID.oid != 0 && pin !in pins && pageID !in pageTable
      requires victim == clockHand < |frames| && frames[victim].pinCount == 0
      modifies this
      ensures Valid() && |frames| == |old(frames)| && SameContents(old(View()), View())
      ensures Leads(old(View()), steps, View()) && Silent(steps) && ok == (pageID in disk)
      ensures ok ==> frames[victim].pageID == pageID && frames[victim].bytes == Content(old(View()), pageID)
      ensures pins == if ok then old(pins)[pin := Pin(victim, pageID, false)] else old(pins)
    {
      ghost var s := View();
      MissIsSteps(s, pageID, victim, pin);
      if pageID in disk {
        MissReadsContent(s, pageID, victim);
      }
      ok := Replace(pageID, victim, pin);
      steps := MissSteps(pageID, victim, pin, ok);
      SilentSteps(s, steps, View());
    }

    /** One step of the protocol. */
    method UnpinPage(frame: nat, setDirty: bool, ghost pin: nat)
      requires Valid() && pin in pins && pins[pin].frame == frame && (pins[pin].wrote ==> setDirty)
      modifies this`frames, this`pins
      ensures Valid() && pins == old(pins) - {pin} && SameContents(old(View()), View())
      ensures Leads(old(View()), [Unpin(pin, setDirty)], View())
    {
      ghost var s := View();
      assert PinOk(s, pin);
      SilentStep(s, Unpin(pin, setDirty));
      OneStep(s, Unpin(pin, setDirty));
      if frames[frame].pinCount != 0 {
        frames := frames[frame := frames[frame].(pinCount := frames[frame].pinCount - 1)];
      }
      if setDirty {
        frames := frames[frame := frames[frame].(isDirty := true)];
      }
      pins := pins - {pin};
      assert View() == Next(s, Unpin(pin, setDirty));
    }

    /** `flushFrame`: it meets no bounds error. */
    method FlushFrame(i: nat) returns (ok: bool, ghost steps: seq<Step>)
      requires Valid() && i < |frames|
      modifies this`frames, this`disk
      ensures Valid() && ok && Leads(old(View()), steps, View()) && Silent(steps)
      ensures frames == old(frames)[i := old(frames)[i].(isDirty := false)]
    {
      ghost var s := View();
      steps := [];
      ok := true;
      if frames[i].isDirty {
        FlushIsSteps(s, i);
        steps := FlushSteps(i);
        SilentSteps(s, steps, AfterFlush(s, i));
        ok := frames[i].pageID in disk;
        if ok {
          disk := disk[frames[i].pageID := frames[i].bytes];
          QuietUpdate(frames, i, frames[i].(isDirty := false));
          frames := frames[i := frames[i].(isDirty := false)];
        }
      }
    }

    /** A whole flush without interference: it meets no bounds error, changes no page, and
        where no pin holder has unfinished writes it leaves the disk up to date. */
    method FlushAllPages() returns (ok: bool, ghost steps: seq<Step>)
      requires Valid()
      modifies this`frames, this`disk
      ensures Valid() && ok && SameContents(old(View()), View())
      ensures Leads(old(View()), steps, View()) && Silent(steps)
      ensures forall f :: 0 <= f < |frames| ==> !frames[f].isDirty
      ensures (forall id :: id in pins ==> !pins[id].wrote) ==> forall p :: p in disk ==> disk[p] == Content(View(), p)
    {
      ok, steps := FlushFrames();
      SilentSteps(old(View()), steps, View());
      CleanPool(View());
    }

    method FlushFrames() returns (ok: bool, ghost steps: seq<Step>)
      requires Valid()
      modifies this`frames, this`disk
      ensures Valid() && ok && Leads(old(View()), steps, View()) && Silent(steps)
      ensures |frames| == |old(frames)| && forall f :: 0 <= f < |frames| ==> !frames[f].isDirty
    {
      ok, steps := true, [];
      var i := 0;
      while i < |frames| && ok
        invariant 0 <= i <= |frames| == |old(frames)| && Valid() && ok
        invariant Leads(old(View()), steps, View()) && Silent(steps)
        invariant forall f :: 0 <= f < i ==> !frames[f].isDirty
      {
        ghost var s, more := View(), [];
        ok, more := FlushFrame(i);
        Onward(old(View()), steps, s, more, View());
        steps := steps + more;
        i := i + 1;
      }
    }
  }

  /** With nothing dirty and no unfinished writes the disk is up to date. */
  lemma CleanPool(s: Pool)
    requires Inv(s) && forall f :: 0 <= f < |s.frames| ==> !s.frames[f].dirty && s.frames[f].latch.Free?
    ensures (forall id :: id in s.pins ==> !s.pins[id].wrote) ==> forall p :: p in s.disk ==> s.disk[p] == Content(s, p)
  {
    forall p | p in s.disk && forall id :: id in s.pins ==> !s.pins[id].wrote
      ensures s.disk[p] == Content(s, p)
    {
      if p in s.table {
        assert EntryOk(s, p) && FrameOk(s, s.table[p]);
      }
    }
  }

  /** The frames differ in reference counts only. */
  ghost predicate SameButCounts(was: seq<PageFrame>, now: seq<PageFrame>) {
    |now| == |was| && forall f :: 0 <= f < |was| ==> now[f] == was[f].(refCount := now[f].refCount)
  }

  /** A visit takes one reference from an unpinned frame in a soft round and all in a hard one. */
  function AfterVisit(fr: PageFrame, soft: bool): PageFrame {
    if fr.pinCount != 0 then fr
    else if soft && fr.refCount > 0 then fr.(refCount := fr.refCount - 1)
    else fr.(refCount := 0)
  }

  /** The first `k` frames from the hand on were visited, the others not. */
  ghost predicate VisitedTo(was: seq<PageFrame>, now: seq<PageFrame>, hand: nat, k: nat, soft: bool)
    requires hand < |was|
  {
    && |now| == |was|
    && forall f: nat :: f < |was| ==>
      now[f] == if Distance(hand, f, |was|) < k then AfterVisit(was[f], soft) else was[f]
  }

  /** A round that has passed `i` frames and now stands at `at`: none of those passed was one
      to stop at. */
  ghost predicate SweptTo(was: seq<PageFrame>, now: seq<PageFrame>, hand: nat, at: nat, i: nat, soft: bool)
    requires hand < |was|
  {
    && at < |was| && VisitedTo(was, now, hand, i, soft)
    && (if i < |was| then Distance(hand, at, |was|) == i else at == hand)
    && (if soft then NoneBelow(was, hand, i, MAX_REF_COUNT) else NoneUnpinned(was, hand, i))
  }

  lemma VisitedNext(was: seq<PageFrame>, here: seq<PageFrame>, hand: nat, at: nat, i: nat, soft: bool)
    requires hand < |was| && SweptTo(was, here, hand, at, i, soft) && i < |was|
    ensures here[at] == was[at] && VisitedTo(was, here[at := AfterVisit(here[at], soft)], hand, i + 1, soft)
  {
  }

  lemma SweptPast(was: seq<PageFrame>, here: seq<PageFrame>, hand: nat, at: nat, i: nat, soft: bool)
    requires hand < |was| && SweptTo(was, here, hand, at, i, soft) && i < |was|
    requires !(Unpinned(was, at) && (!soft || was[at].refCount < MAX_REF_COUNT))
    ensures var next := if at + 1 == |was| then 0 else at + 1;
      SweptTo(was, here[at := AfterVisit(here[at], soft)], hand, next, i + 1, soft)
  {
    VisitedNext(was, here, hand, at, i, soft);
  }

  /** The counts a sweep leaves: none at the victim; in a pool of at most 1000, one less at the
      unpinned frames the hand passed, which are all of them when the victim was at the
      maximum; the others as they were. */
  ghost predicate CountsAfterSweep(was: seq<PageFrame>, now: seq<PageFrame>, hand: nat, v: nat)
    requires hand < |was| && v < |was|
  {
    && SameButCounts(was, now) && now[v].refCount == 0
    && forall f: nat :: f < |was| && f != v ==>
      now[f].refCount == was[f].refCount - if LosesOne(was, hand, v, f) then 1 else 0
  }

  predicate LosesOne(was: seq<PageFrame>, hand: nat, v: nat, f: nat)
    requires hand < |was| && v < |was| && f < |was|
  {
    && |was| <= 1000 && Unpinned(was, f)
    && (was[v].refCount == MAX_REF_COUNT || Distance(hand, f, |was|) < Distance(hand, v, |was|))
  }

  lemma FirstRound(was: seq<PageFrame>, now: seq<PageFrame>, hand: nat, v: nat, soft: bool, found: bool)
    requires hand < |was| && RefCountsOk(was) && (soft <==> |was| <= SINGLE_PASS_SIZE)
    requires found ==> StopsAt(was, hand, soft, v) && VisitedTo(was, now, hand, Distance(hand, v, |was|) + 1, soft)
    requires !found && !soft ==> NoneUnpinned(was, hand, |was|) && VisitedTo(was, now, hand, |was|, soft)
    ensures found ==> IsVictim(was, hand, v) && CountsAfterSweep(was, now, hand, v)
    ensures !found && !soft ==> now == was
  {
    if found {
      forall f: nat | f < |was| && f != v
        ensures now[f].refCount == was[f].refCount - if LosesOne(was, hand, v, f) then 1 else 0
      {
        assert Distance(hand, f, |was|) != Distance(hand, v, |was|);
      }
    }
  }

  lemma SecondRound(was: seq<PageFrame>, mid: seq<PageFrame>, now: seq<PageFrame>, hand: nat, v: nat, found: bool)
    requires hand < |was| <= SINGLE_PASS_SIZE && RefCountsOk(was)
    requires NoneBelow(was, hand, |was|, MAX_REF_COUNT) && VisitedTo(was, mid, hand, |was|, true)
    requires found ==> StopsAt(mid, hand, false, v) && VisitedTo(mid, now, hand, Distance(hand, v, |was|) + 1, false)
    requires !found ==> NoneUnpinned(mid, hand, |was|) && VisitedTo(mid, now, hand, |was|, false)
    ensures found ==> IsVictim(was, hand, v) && CountsAfterSweep(was, now, hand, v)
    ensures !found ==> NoneUnpinned(was, hand, |was|) && now == was
  {
    AllVisited(was, mid, hand);
    if found {
      forall f: nat | f < |was| && f != v
        ensures now[f].refCount == was[f].refCount - if LosesOne(was, hand, v, f) then 1 else 0
      {
        assert Distance(hand, f, |was|) != Distance(hand, v, |was|);
        assert Unpinned(mid, f) <==> Unpinned(was, f);
      }
    }
  }

  lemma AllVisited(was: seq<PageFrame>, mid: seq<PageFrame>, hand: nat)
    requires hand < |was| && VisitedTo(was, mid, hand, |was|, true)
    ensures forall f: nat :: f < |was| ==>
      mid[f] == AfterVisit(was[f], true) && (Unpinned(mid, f) <==> Unpinned(was, f))
  {
    assert forall f: nat :: f < |was| ==> Distance(hand, f, |was|) < |was|;
  }

  datatype GetResult = Pinned(frame: nat) | NoSuchPage | AllPinned

  // An uninterrupted call is a run of protocol steps.

  ghost predicate SameContents(s: Pool, t: Pool) {
    t.disk.Keys == s.disk.Keys && forall p :: p in s.disk ==> Content(t, p) == Content(s, p)
  }

  lemma SilentStep(s: Pool, step: Step)
    requires Inv(s) && Enabled(s, step) && !step.WriteBytes? && !step.Allocate?
    ensures Inv(Next(s, step)) && SameContents(s, Next(s, step))
  {
    StepKeepsInv(s, step);
    var t := Next(s, step);
    assert t.disk.Keys == s.disk.Keys;
    forall p | p in s.disk
      ensures Content(t, p) == Content(s, p)
    {
      StepRefinesPlainMap(s, step, p);
    }
  }

  /** The steps take the pool from `s` to `t`. */
  ghost predicate Leads(s: Pool, steps: seq<Step>, t: Pool)
    decreases |steps|
  {
    if steps == [] then s == t else Enabled(s, steps[0]) && Leads(Next(s, steps[0]), steps[1..], t)
  }

  predicate IsSilent(step: Step) {
    !step.WriteBytes? && !step.Allocate?
  }

  predicate Silent(steps: seq<Step>) {
    forall i :: 0 <= i < |steps| ==> IsSilent(steps[i])
  }

  lemma OneStep(s: Pool, step: Step)
    requires Enabled(s, step)
    ensures Leads(s, [step], Next(s, step))
  {
    assert [step][1..] == [];
  }

  lemma {:induction false} Onward(s: Pool, a: seq<Step>, t: Pool, b: seq<Step>, u: Pool)
    requires Leads(s, a, t) && Leads(t, b, u)
    ensures Leads(s, a + b, u)
    decreases |a|
  {
    if a == [] {
      assert a + b == b;
    } else {
      Onward(Next(s, a[0]), a[1..], t, b, u);
      assert (a + b)[0] == a[0] && (a + b)[1..] == a[1..] + b;
    }
  }

  lemma OneMoreStep(s: Pool, steps: seq<Step>, t: Pool, step: Step)
    requires Leads(s, steps, t) && Enabled(t, step)
    ensures Leads(s, steps + [step], Next(t, step))
  {
    OneStep(t, step);
    Onward(s, steps, t, [step], Next(t, step));
  }

  /** Steps that neither write nor allocate keep the invariant and every page's contents. */
  lemma {:induction false} SilentSteps(s: Pool, steps: seq<Step>, t: Pool)
    requires Inv(s) && Leads(s, steps, t) && Silent(steps)
    ensures Inv(t) && SameContents(s, t)
    decreases |steps|
  {
    if steps != [] {
      assert IsSilent(steps[0]);
      SilentStep(s, steps[0]);
      assert forall i :: 0 <= i < |steps[1..]| ==> steps[1..][i] == steps[i + 1];
      SilentSteps(Next(s, steps[0]), steps[1..], t);
    }
  }

  function AfterHit(s: Pool, page: PageID, pin: nat): Pool
    requires page in s.table && s.table[page] < |s.frames|
  {
    var f := s.table[page];
    s.(frames := s.frames[f := s.frames[f].(pin := s.frames[f].pin + 1)], pins := s.pins[pin := Pin(f, page, false)])
  }

  function HitSteps(page: PageID, pin: nat): seq<Step> {
    [StartGet(0, page)] + [Lookup(0)] + [TryPin(0, pin)]
  }

  lemma HitStates(s: Pool, page: PageID, pin: nat)
    requires s.ops == map[] && page in s.table && page.oid != 0 && pin !in s.pins
    requires s.table[page] < |s.frames| && s.frames[s.table[page]].pageID == page && s.frames[s.table[page]].latch.Free?
    ensures var s1 := Next(s, StartGet(0, page));
      && Enabled(s1, Lookup(0)) && Enabled(Next(s1, Lookup(0)), TryPin(0, pin))
      && Next(Next(s1, Lookup(0)), TryPin(0, pin)) == AfterHit(s, page, pin)
  {
    var s2 := Next(Next(s, StartGet(0, page)), Lookup(0));
    assert s2.ops - {0} == s.ops;
  }

  lemma HitLeads(s: Pool, page: PageID, pin: nat)
    requires s.ops == map[] && page in s.table && page.oid != 0 && pin !in s.pins
    requires s.table[page] < |s.frames| && s.frames[s.table[page]].pageID == page && s.frames[s.table[page]].latch.Free?
    ensures Leads(s, HitSteps(page, pin), AfterHit(s, page, pin))
  {
    HitStates(s, page, pin);
    var s1 := Next(s, StartGet(0, page));
    OneStep(s, StartGet(0, page));
    OneMoreStep(s, [StartGet(0, page)], s1, Lookup(0));
    OneMoreStep(s, [StartGet(0, page)] + [Lookup(0)], Next(s1, Lookup(0)), TryPin(0, pin));
  }

  /** A hit is three steps, and finds the page's latest bytes. */
  lemma HitIsSteps(s: Pool, page: PageID, pin: nat)
    requires Inv(s) && s.ops == map[] && page in s.table && page.oid != 0 && pin !in s.pins
    ensures s.table[page] < |s.frames| && Leads(s, HitSteps(page, pin), AfterHit(s, page, pin))
    ensures page in s.disk && s.frames[s.table[page]].pageID == page
    ensures s.frames[s.table[page]].bytes == Content(s, page)
  {
    assert EntryOk(s, page) && FrameOk(s, s.table[page]);
    HitLeads(s, page, pin);
  }

  function SavedDisk(s: Pool, f: nat): map<PageID, Bytes>
    requires f < |s.frames|
  {
    if s.frames[f].dirty then s.disk[s.frames[f].pageID := s.frames[f].bytes] else s.disk
  }

  function AfterMiss(s: Pool, page: PageID, f: nat, pin: nat): Pool
    requires f < |s.frames| && page in SavedDisk(s, f)
  {
    Pool(s.frames[f := Frame(page, 1, false, SavedDisk(s, f)[page], Free)],
         s.table[page := f] - {s.frames[f].pageID}, SavedDisk(s, f), s.ops, s.pins[pin := Pin(f, page, false)])
  }

  function AfterFailedMiss(s: Pool, page: PageID, f: nat): Pool
    requires f < |s.frames|
  {
    Pool(s.frames[f := Frame(NilPage, 0, false, s.frames[f].bytes, Free)],
         s.table[page := f] - {s.frames[f].pageID} - {page}, SavedDisk(s, f), s.ops, s.pins)
  }

  /** The victim chosen, its old page saved and unmapped; only the read is left. */
  function AfterEviction(s: Pool, page: PageID, f: nat): Pool
    requires f < |s.frames|
  {
    Pool(s.frames[f := Frame(page, 1, false, s.frames[f].bytes, Held(0))],
         s.table[page := f] - {s.frames[f].pageID}, SavedDisk(s, f), s.ops[0 := Unmapped(page, f)], s.pins)
  }

  function AfterChoice(s: Pool, page: PageID, f: nat): Pool
    requires f < |s.frames|
  {
    s.(frames := s.frames[f := s.frames[f].(pin := 1, pageID := page, latch := Held(0))],
       table := s.table[page := f], ops := s.ops[0 := Evicting(page, f, s.frames[f].pageID)])
  }

  lemma ChoiceIsSteps(s: Pool, page: PageID, f: nat)
    requires s.ops == map[] && page !in s.table && page.oid != 0
    requires f < |s.frames| && s.frames[f].latch.Free? && s.frames[f].pin == 0
    ensures Leads(s, [StartGet(0, page)] + [ChooseVictim(0, f)], AfterChoice(s, page, f))
  {
    OneStep(s, StartGet(0, page));
    OneMoreStep(s, [StartGet(0, page)], Next(s, StartGet(0, page)), ChooseVictim(0, f));
  }

  lemma SaveIsSteps(s: Pool, page: PageID, f: nat)
    requires f < |s.frames| && s.frames[f].latch.Free? && (s.frames[f].dirty ==> s.frames[f].pageID in s.disk)
    ensures Leads(AfterChoice(s, page, f), [SaveOld(0)] + [UnmapOld(0)], AfterEviction(s, page, f))
  {
    var s2 := AfterChoice(s, page, f);
    OneStep(s2, SaveOld(0));
    OneMoreStep(s2, [SaveOld(0)], Next(s2, SaveOld(0)), UnmapOld(0));
  }

  function EvictSteps(page: PageID, f: nat): seq<Step> {
    ([StartGet(0, page)] + [ChooseVictim(0, f)]) + ([SaveOld(0)] + [UnmapOld(0)])
  }

  lemma EvictionIsSteps(s: Pool, page: PageID, f: nat)
    requires Inv(s) && s.ops == map[] && page !in s.table && page.oid != 0
    requires f < |s.frames| && s.frames[f].latch.Free? && s.frames[f].pin == 0
    ensures SavedDisk(s, f).Keys == s.disk.Keys && (s.frames[f].dirty ==> s.frames[f].pageID in s.disk)
    ensures Leads(s, EvictSteps(page, f), AfterEviction(s, page, f))
  {
    assert FrameOk(s, f);
    ChoiceIsSteps(s, page, f);
    SaveIsSteps(s, page, f);
    Onward(s, [StartGet(0, page)] + [ChooseVictim(0, f)], AfterChoice(s, page, f),
           [SaveOld(0)] + [UnmapOld(0)], AfterEviction(s, page, f));
  }

  lemma ReadIsSteps(s: Pool, page: PageID, f: nat, pin: nat)
    requires f < |s.frames| && s.ops == map[] && pin !in s.pins && SavedDisk(s, f).Keys == s.disk.Keys
    ensures page in s.disk ==> Leads(AfterEviction(s, page, f), [ReadNew(0, pin)], AfterMiss(s, page, f, pin))
    ensures page !in s.disk ==>
      Leads(AfterEviction(s, page, f), [ReadNew(0, pin)] + [ReleaseFailed(0)], AfterFailedMiss(s, page, f))
  {
    var s4 := AfterEviction(s, page, f);
    assert s4.ops - {0} == s.ops && s4.ops[0 := Failing(page, f)] - {0} == s.ops;
    OneStep(s4, ReadNew(0, pin));
    if page !in s.disk {
      OneMoreStep(s4, [ReadNew(0, pin)], Next(s4, ReadNew(0, pin)), ReleaseFailed(0));
    }
  }

  function MissSteps(page: PageID, f: nat, pin: nat, ok: bool): seq<Step> {
    EvictSteps(page, f) + if ok then [ReadNew(0, pin)] else [ReadNew(0, pin)] + [ReleaseFailed(0)]
  }

  /** A miss is five steps, or six if there is no such page. */
  lemma MissIsSteps(s: Pool, page: PageID, f: nat, pin: nat)
    requires Inv(s) && s.ops == map[] && page !in s.table && page.oid != 0 && pin !in s.pins
    requires f < |s.frames| && s.frames[f].latch.Free? && s.frames[f].pin == 0
    ensures SavedDisk(s, f).Keys == s.disk.Keys && (s.frames[f].dirty ==> s.frames[f].pageID in s.disk)
    ensures page in s.disk ==> Leads(s, MissSteps(page, f, pin, true), AfterMiss(s, page, f, pin))
    ensures page !in s.disk ==> Leads(s, MissSteps(page, f, pin, false), AfterFailedMiss(s, page, f))
  {
    EvictionIsSteps(s, page, f);
    ReadIsSteps(s, page, f, pin);
    if page in s.disk {
      Onward(s, EvictSteps(page, f), AfterEviction(s, page, f), [ReadNew(0, pin)], AfterMiss(s, page, f, pin));
    } else {
      Onward(s, EvictSteps(page, f), AfterEviction(s, page, f), [ReadNew(0, pin)] + [ReleaseFailed(0)],
             AfterFailedMiss(s, page, f));
    }
  }

  /** The bytes read are the page's. */
  lemma MissReadsContent(s: Pool, page: PageID, f: nat)
    requires Inv(s) && page !in s.table && page in s.disk && f < |s.frames| && s.frames[f].latch.Free?
    requires s.frames[f].dirty ==> s.frames[f].pageID in s.disk
    ensures SavedDisk(s, f)[page] == Content(s, page)
  {
    assert FrameOk(s, f);
  }

  function AfterFlush(s: Pool, f: nat): Pool
    requires f < |s.frames|
  {
    s.(disk := s.disk[s.frames[f].pageID := s.frames[f].bytes], frames := s.frames[f := s.frames[f].(dirty := false)])
  }

  function FlushSteps(f: nat): seq<Step> {
    [FlushWrite(0, f)] + [FlushClear(0)]
  }

  /** A flush of a dirty frame is two steps. */
  lemma FlushIsSteps(s: Pool, f: nat)
    requires Inv(s) && s.ops == map[] && f < |s.frames| && s.frames[f].latch.Free? && s.frames[f].dirty
    ensures s.frames[f].pageID in s.disk && Leads(s, FlushSteps(f), AfterFlush(s, f))
  {
    assert FrameOk(s, f);
    FlushStates(s, f);
    OneStep(s, FlushWrite(0, f));
    OneMoreStep(s, [FlushWrite(0, f)], Next(s, FlushWrite(0, f)), FlushClear(0));
  }

  lemma FlushStates(s: Pool, f: nat)
    requires s.ops == map[] && f < |s.frames| && s.frames[f].latch.Free? && s.frames[f].dirty
    requires s.frames[f].pageID in s.disk
    ensures Enabled(Next(s, FlushWrite(0, f)), FlushClear(0))
    ensures Next(Next(s, FlushWrite(0, f)), FlushClear(0)) == AfterFlush(s, f)
  {
    assert s.ops[0 := Flushing(f)] - {0} == s.ops;
  }

  /** Where a round stops. */
  ghost predicate StopsAt(frames: seq<PageFrame>, hand: nat, soft: bool, v: nat)
    requires hand < |frames|
  {
    && Unpinned(frames, v)
    && var k := Distance(hand, v, |frames|);
    if soft then frames[v].refCount < MAX_REF_COUNT && NoneBelow(frames, hand, k, MAX_REF_COUNT)
    else NoneUnpinned(frames, hand, k)
  }
}
