/** The page cache of `storage/buffer_pool.go` as a state machine. `GetPage` is cut at
    every point where another thread can act: the table lookup, the latched check of a
    found frame, the victim choice under the pool latch, the write-back of the old page,
    its unmapping and the read of the new page. These steps interleave freely with page
    writes by pin holders, `UnpinPage`, the two halves of `flushFrame`, and the growth of
    the files. The disk fails only on its bounds check and never shrinks. */
module BufferPoolSteps {
  import PageBytes

  newtype ObjectID = x: int | 0 <= x < 0x1_0000_0000

  datatype PageID = PageID(oid: ObjectID, pageNum: int)

  const NilPage: PageID := PageID(0, 0)

  type Bytes = PageBytes.Bytes

  /** What a page holds when the file has just been extended. */
  const BLANK: Bytes := PageBytes.Zeros(4096)

  datatype Latch = Free | Held(op: nat)

  datatype Frame = Frame(pageID: PageID, pin: int, dirty: bool, bytes: Bytes, latch: Latch)

  /** Where an operation stands. `Evicting` to `Failing` are a `GetPage` that owns its
      victim's latch; `Flushing` is a flush that has written the page but not yet cleared
      the dirty flag. */
  datatype Op =
    | Looking(page: PageID)
    | Found(page: PageID, frame: nat)
    | Evicting(page: PageID, frame: nat, prior: PageID)
    | Saved(page: PageID, frame: nat, prior: PageID)
    | Unmapped(page: PageID, frame: nat)
    | Failing(page: PageID, frame: nat)
    | Flushing(frame: nat)

  predicate IsLoader(o: Op) {
    o.Evicting? || o.Saved? || o.Unmapped? || o.Failing?
  }

  /** A page handed out by `GetPage` and not yet unpinned. */
  datatype Pin = Pin(frame: nat, page: PageID, wrote: bool)

  datatype Pool = Pool(
    frames: seq<Frame>,
    table: map<PageID, nat>,
    disk: map<PageID, Bytes>,
    ops: map<nat, Op>,
    pins: map<nat, Pin>)

  datatype Step =
    | StartGet(op: nat, page: PageID)
    | Lookup(op: nat)
    | TryPin(op: nat, pin: nat)
    | ChooseVictim(op: nat, frame: nat)
    | SaveOld(op: nat)
    | UnmapOld(op: nat)
    | ReadNew(op: nat, pin: nat)
    | ReleaseFailed(op: nat)
    | WriteBytes(pin: nat, bytes: Bytes)
    | Unpin(pin: nat, setDirty: bool)
    | FlushWrite(op: nat, frame: nat)
    | FlushClear(op: nat)
    | Allocate(page: PageID)

  predicate At(s: Pool, id: nat, f: nat) {
    id in s.ops && f < |s.frames|
  }

  /** A writer must unpin with the dirty flag; requested pages carry a non-zero oid. */
  predicate Enabled(s: Pool, step: Step) {
    match step
    case StartGet(op, page) => op !in s.ops && page.oid != 0
    case Lookup(op) => op in s.ops && s.ops[op].Looking? && s.ops[op].page in s.table
    case TryPin(op, pin) =>
      && op in s.ops && s.ops[op].Found? && At(s, op, s.ops[op].frame)
      && s.frames[s.ops[op].frame].latch.Free? && pin !in s.pins
    case ChooseVictim(op, frame) =>
      && At(s, op, frame) && s.ops[op].Looking? && s.ops[op].page !in s.table
      && s.frames[frame].latch.Free? && s.frames[frame].pin == 0
    case SaveOld(op) => op in s.ops && s.ops[op].Evicting? && At(s, op, s.ops[op].frame)
    case UnmapOld(op) => op in s.ops && s.ops[op].Saved?
    case ReadNew(op, pin) => op in s.ops && s.ops[op].Unmapped? && At(s, op, s.ops[op].frame) && pin !in s.pins
    case ReleaseFailed(op) => op in s.ops && s.ops[op].Failing? && At(s, op, s.ops[op].frame)
    case WriteBytes(pin, _) => pin in s.pins && s.pins[pin].frame < |s.frames|
    case Unpin(pin, setDirty) =>
      && pin in s.pins && s.pins[pin].frame < |s.frames| && s.frames[s.pins[pin].frame].latch.Free?
      && (s.pins[pin].wrote ==> setDirty)
    case FlushWrite(op, frame) => op !in s.ops && frame < |s.frames| && s.frames[frame].latch.Free?
    case FlushClear(op) => op in s.ops && s.ops[op].Flushing? && At(s, op, s.ops[op].frame)
    case Allocate(page) => page !in s.disk && page.oid != 0
  }

  function Next(s: Pool, step: Step): Pool
    requires Enabled(s, step)
  {
    match step
    case StartGet(op, page) => s.(ops := s.ops[op := Looking(page)])
    case Lookup(op) => s.(ops := s.ops[op := Found(s.ops[op].page, s.table[s.ops[op].page])])
    case TryPin(op, pin) =>
      var f, page := s.ops[op].frame, s.ops[op].page;
      if s.frames[f].pageID == page then
        s.(frames := s.frames[f := s.frames[f].(pin := s.frames[f].pin + 1)],
           ops := s.ops - {op}, pins := s.pins[pin := Pin(f, page, false)])
      else
        s.(ops := s.ops[op := Looking(page)])
    case ChooseVictim(op, f) =>
      var page, prior := s.ops[op].page, s.frames[f].pageID;
      s.(frames := s.frames[f := s.frames[f].(pin := 1, pageID := page, latch := Held(op))],
         table := s.table[page := f],
         ops := s.ops[op := Evicting(page, f, prior)])
    case SaveOld(op) =>
      var f, page, prior := s.ops[op].frame, s.ops[op].page, s.ops[op].prior;
      if !s.frames[f].dirty then
        s.(ops := s.ops[op := Saved(page, f, prior)])
      else if prior in s.disk then
        s.(disk := s.disk[prior := s.frames[f].bytes],
           frames := s.frames[f := s.frames[f].(dirty := false)],
           ops := s.ops[op := Saved(page, f, prior)])
      else
        s.(table := s.table - {page, prior},
           frames := s.frames[f := s.frames[f].(pin := 0, pageID := NilPage, latch := Free)],
           ops := s.ops - {op})
    case UnmapOld(op) =>
      s.(table := s.table - {s.ops[op].prior}, ops := s.ops[op := Unmapped(s.ops[op].page, s.ops[op].frame)])
    case ReadNew(op, pin) =>
      var f, page := s.ops[op].frame, s.ops[op].page;
      if page in s.disk then
        s.(frames := s.frames[f := s.frames[f].(bytes := s.disk[page], latch := Free)],
           ops := s.ops - {op}, pins := s.pins[pin := Pin(f, page, false)])
      else
        s.(table := s.table - {page}, ops := s.ops[op := Failing(page, f)])
    case ReleaseFailed(op) =>
      var f := s.ops[op].frame;
      s.(frames := s.frames[f := s.frames[f].(pin := 0, pageID := NilPage, latch := Free)], ops := s.ops - {op})
    case WriteBytes(pin, bytes) =>
      var f := s.pins[pin].frame;
      s.(frames := s.frames[f := s.frames[f].(bytes := bytes)], pins := s.pins[pin := s.pins[pin].(wrote := true)])
    case Unpin(pin, setDirty) =>
      var f := s.pins[pin].frame;
      var count := if s.frames[f].pin != 0 then s.frames[f].pin - 1 else 0;
      s.(frames := s.frames[f := s.frames[f].(pin := count, dirty := s.frames[f].dirty || setDirty)],
         pins := s.pins - {pin})
    case FlushWrite(op, f) =>
      if s.frames[f].dirty && s.frames[f].pageID in s.disk then
        s.(disk := s.disk[s.frames[f].pageID := s.frames[f].bytes],
           frames := s.frames[f := s.frames[f].(latch := Held(op))],
           ops := s.ops[op := Flushing(f)])
      else
        s
    case FlushClear(op) =>
      var f := s.ops[op].frame;
      s.(frames := s.frames[f := s.frames[f].(dirty := false, latch := Free)], ops := s.ops - {op})
    case Allocate(page) => s.(disk := s.disk[page := BLANK])
  }

  predicate Initial(s: Pool) {
    && (forall f :: 0 <= f < |s.frames| ==>
      s.frames[f].pageID == NilPage && s.frames[f].pin == 0 && !s.frames[f].dirty && s.frames[f].latch == Free)
    && s.table == map[] && s.ops == map[] && s.pins == map[]
    && (forall p :: p in s.disk ==> p.oid != 0)
  }

  ghost predicate IsRun(run: seq<Pool>, steps: seq<Step>) {
    && |run| == |steps| + 1
    && Initial(run[0])
    && forall i :: 0 <= i < |steps| ==> Enabled(run[i], steps[i]) && run[i + 1] == Next(run[i], steps[i])
  }

  // The invariant, one frame, operation, pin and table entry at a time.

  function PinsOn(pins: map<nat, Pin>, f: nat): set<nat> {
    set id | id in pins && pins[id].frame == f
  }

  ghost predicate Writer(s: Pool, f: nat) {
    exists id :: id in s.pins && s.pins[id].frame == f && s.pins[id].wrote
  }

  predicate MapsTo(s: Pool, p: PageID, f: nat) {
    p in s.table && s.table[p] == f
  }

  /** A frame no `GetPage` is loading: empty, or mapped and backed by the disk. */
  ghost predicate Resident(s: Pool, f: nat)
    requires f < |s.frames|
  {
    var fr := s.frames[f];
    if fr.pageID.oid == 0 then fr.pageID == NilPage && !fr.dirty
    else MapsTo(s, fr.pageID, f) && fr.pageID in s.disk && (fr.dirty || Writer(s, f) || s.disk[fr.pageID] == fr.bytes)
  }

  ghost predicate Loading(s: Pool, f: nat, o: Op)
    requires f < |s.frames| && IsLoader(o)
  {
    var fr := s.frames[f];
    && o.frame == f && fr.pageID == o.page && o.page.oid != 0
    && (o.Failing? || MapsTo(s, o.page, f))
    && (!o.Evicting? ==> !fr.dirty)
    && (o.Evicting? || o.Saved? ==>
      && o.prior != o.page
      && (if o.prior.oid == 0 then o.prior == NilPage && !fr.dirty else MapsTo(s, o.prior, f) && o.prior in s.disk))
    && (o.Evicting? && o.prior.oid != 0 ==> fr.dirty || s.disk[o.prior] == fr.bytes)
  }

  ghost predicate Flushed(s: Pool, f: nat)
    requires f < |s.frames|
  {
    && Resident(s, f) && s.frames[f].pageID.oid != 0
    && (Writer(s, f) || s.disk[s.frames[f].pageID] == s.frames[f].bytes)
  }

  ghost predicate FrameOk(s: Pool, f: nat)
    requires f < |s.frames|
  {
    match s.frames[f].latch
    case Free => Resident(s, f)
    case Held(id) =>
      && id in s.ops
      && var o := s.ops[id];
      if IsLoader(o) then Loading(s, f, o) else o == Flushing(f) && Flushed(s, f)
  }

  predicate BeingLoaded(s: Pool, f: nat)
    requires f < |s.frames|
  {
    s.frames[f].latch.Held? && s.frames[f].latch.op in s.ops && IsLoader(s.ops[s.frames[f].latch.op])
  }

  predicate PinCountOk(s: Pool, f: nat)
    requires f < |s.frames|
  {
    s.frames[f].pin == |PinsOn(s.pins, f)| + if BeingLoaded(s, f) then 1 else 0
  }

  predicate OpOk(s: Pool, id: nat)
    requires id in s.ops
  {
    match s.ops[id]
    case Looking(p) => p.oid != 0
    case Found(p, f) => p.oid != 0 && f < |s.frames|
    case o => o.frame < |s.frames| && s.frames[o.frame].latch == Held(id)
  }

  predicate PinOk(s: Pool, id: nat)
    requires id in s.pins
  {
    var Pin(f, p, _) := s.pins[id];
    f < |s.frames| && p.oid != 0 && s.frames[f].pageID == p && !BeingLoaded(s, f)
  }

  predicate EntryOk(s: Pool, p: PageID)
    requires p in s.table
  {
    var f := s.table[p];
    && f < |s.frames| && p.oid != 0
    && if BeingLoaded(s, f) then
        var o := s.ops[s.frames[f].latch.op];
        if o.Evicting? || o.Saved? then p == o.page || p == o.prior else o.Unmapped? && p == o.page
      else s.frames[f].pageID == p
  }

  ghost predicate Inv(s: Pool) {
    && (forall f :: 0 <= f < |s.frames| ==> FrameOk(s, f))
    && (forall f :: 0 <= f < |s.frames| ==> PinCountOk(s, f))
    && (forall id :: id in s.ops ==> OpOk(s, id))
    && (forall id :: id in s.pins ==> PinOk(s, id))
    && (forall p :: p in s.table ==> EntryOk(s, p))
    && (forall p :: p in s.disk ==> p.oid != 0)
  }

  lemma PinsAdded(pins: map<nat, Pin>, id: nat, p: Pin, f: nat)
    requires id !in pins
    ensures |PinsOn(pins[id := p], f)| == |PinsOn(pins, f)| + if p.frame == f then 1 else 0
  {
    var before, after := PinsOn(pins, f), PinsOn(pins[id := p], f);
    assert after == if p.frame == f then before + {id} else before;
  }

  lemma PinsRemoved(pins: map<nat, Pin>, id: nat, f: nat)
    requires id in pins
    ensures |PinsOn(pins - {id}, f)| == |PinsOn(pins, f)| - if pins[id].frame == f then 1 else 0
  {
    var before, after := PinsOn(pins, f), PinsOn(pins - {id}, f);
    assert before == if pins[id].frame == f then after + {id} else after;
  }

  lemma PinsMarked(pins: map<nat, Pin>, id: nat, f: nat)
    requires id in pins
    ensures PinsOn(pins[id := pins[id].(wrote := true)], f) == PinsOn(pins, f)
  {
  }

  // A step touches one frame and one operation; everything else is undisturbed.

  /** `t` differs from `s` only at frame `g`, at operation `id` (none if negative), and in
      the table entries, disk pages and pins that belong to `g`. */
  ghost predicate LocalTo(s: Pool, t: Pool, g: nat, id: int) {
    && |t.frames| == |s.frames|
    && (forall f :: 0 <= f < |s.frames| && f != g ==> t.frames[f] == s.frames[f] && !Owns(id, s.frames[f]))
    && (g < |s.frames| && s.frames[g].latch.Held? && !Owns(id, s.frames[g]) ==> t.frames[g].latch == s.frames[g].latch)
    && (forall k :: k != id && k in s.ops ==> k in t.ops && t.ops[k] == s.ops[k])
    && (forall k :: k != id && k in t.ops ==> k in s.ops)
    && (forall p :: p in s.table && s.table[p] != g ==> MapsTo(t, p, s.table[p]))
    && (forall p :: p in t.table && t.table[p] != g ==> MapsTo(s, p, t.table[p]))
    && (forall p :: p in s.disk ==> p in t.disk && (t.disk[p] == s.disk[p] || MapsTo(s, p, g)))
    && (forall k :: k in s.pins && s.pins[k].frame != g ==> k in t.pins && t.pins[k] == s.pins[k])
    && (forall k :: k in t.pins && t.pins[k].frame != g ==> k in s.pins && s.pins[k] == t.pins[k])
  }

  predicate Owns(id: int, fr: Frame) {
    fr.latch.Held? && fr.latch.op == id
  }

  /** The invariant as it concerns frame `g` and operation `id`. */
  ghost predicate OkAt(s: Pool, g: nat, id: int) {
    && (g < |s.frames| ==> FrameOk(s, g) && PinCountOk(s, g))
    && (id in s.ops ==> OpOk(s, id))
    && (forall k :: k in s.pins && s.pins[k].frame == g ==> PinOk(s, k))
    && (forall p :: p in s.table && s.table[p] == g ==> EntryOk(s, p))
    && (forall p :: p in s.disk ==> p.oid != 0)
  }

  lemma OtherFrameOk(s: Pool, t: Pool, g: nat, id: int, f: nat)
    requires Inv(s) && LocalTo(s, t, g, id) && f < |s.frames| && f != g
    ensures FrameOk(t, f) && PinCountOk(t, f)
  {
    assert FrameOk(s, f) && PinCountOk(s, f);
    assert PinsOn(t.pins, f) == PinsOn(s.pins, f);
    if k :| k in s.pins && s.pins[k].frame == f && s.pins[k].wrote {
      assert k in t.pins && t.pins[k].frame == f && t.pins[k].wrote;
    }
  }

  lemma OtherOpOk(s: Pool, t: Pool, g: nat, id: int, k: nat)
    requires LocalTo(s, t, g, id) && k in t.ops && k != id && OpOk(s, k)
    ensures OpOk(t, k)
  {
  }

  lemma OtherPinOk(s: Pool, t: Pool, g: nat, id: int, k: nat)
    requires LocalTo(s, t, g, id) && k in t.pins && t.pins[k].frame != g && PinOk(s, k)
    ensures PinOk(t, k)
  {
  }

  lemma OtherEntryOk(s: Pool, t: Pool, g: nat, id: int, p: PageID)
    requires LocalTo(s, t, g, id) && p in t.table && t.table[p] != g && EntryOk(s, p)
    ensures EntryOk(t, p)
  {
  }

  lemma LocalStep(s: Pool, t: Pool, g: nat, id: int)
    requires Inv(s) && LocalTo(s, t, g, id) && OkAt(t, g, id)
    ensures Inv(t)
  {
    forall f | 0 <= f < |t.frames|
      ensures FrameOk(t, f) && PinCountOk(t, f)
    {
      if f != g {
        OtherFrameOk(s, t, g, id, f);
      }
    }
    forall k | k in t.ops
      ensures OpOk(t, k)
    {
      if k != id {
        OtherOpOk(s, t, g, id, k);
      }
    }
    forall k | k in t.pins
      ensures PinOk(t, k)
    {
      if t.pins[k].frame != g {
        OtherPinOk(s, t, g, id, k);
      }
    }
    forall p | p in t.table
      ensures EntryOk(t, p)
    {
      if t.table[p] != g {
        OtherEntryOk(s, t, g, id, p);
      }
    }
  }

  function StepOp(step: Step): int {
    match step
    case WriteBytes(_, _) => -1
    case Unpin(_, _) => -1
    case Allocate(_) => -1
    case _ => step.op
  }

  /** The frame a step works on; none is written as the pool size. */
  function StepFrame(s: Pool, step: Step): nat
    requires Enabled(s, step)
  {
    match step
    case StartGet(_, _) => |s.frames|
    case Lookup(_) => |s.frames|
    case Allocate(_) => |s.frames|
    case ChooseVictim(_, f) => f
    case FlushWrite(_, f) => f
    case WriteBytes(pin, _) => s.pins[pin].frame
    case Unpin(pin, _) => s.pins[pin].frame
    case _ => s.ops[step.op].frame
  }

  predicate ClosesMapping(step: Step) {
    step.SaveOld? || step.UnmapOld? || step.ReadNew?
  }

  /** Only this frame is the operation's, and empty pages are not mapped. */
  ghost predicate Separate(s: Pool, g: nat, id: int) {
    && (forall f :: 0 <= f < |s.frames| && f != g ==> !Owns(id, s.frames[f]))
    && forall p :: p in s.table ==> p.oid != 0
  }

  lemma LocalSaveStep(s: Pool, step: Step, g: nat, id: int)
    requires Enabled(s, step) && step.SaveOld? && g == StepFrame(s, step) && id == StepOp(step) && OkAt(s, g, id)
    requires Separate(s, g, id)
    ensures LocalTo(s, Next(s, step), g, id)
  {
  }

  lemma LocalMappingStep(s: Pool, step: Step, g: nat, id: int)
    requires Enabled(s, step) && (step.UnmapOld? || step.ReadNew?) && g == StepFrame(s, step) && id == StepOp(step)
    requires OkAt(s, g, id) && Separate(s, g, id)
    ensures LocalTo(s, Next(s, step), g, id)
  {
  }

  predicate GetsPage(step: Step) {
    step.StartGet? || step.Lookup? || step.TryPin? || step.ChooseVictim? || step.ReleaseFailed?
  }

  lemma LocalGetStep(s: Pool, step: Step, g: nat, id: int)
    requires Enabled(s, step) && GetsPage(step) && g == StepFrame(s, step) && id == StepOp(step)
    requires (g < |s.frames| ==> FrameOk(s, g)) && (id in s.ops ==> OpOk(s, id)) && Separate(s, g, id)
    ensures LocalTo(s, Next(s, step), g, id)
  {
  }

  lemma LocalPlainStep(s: Pool, step: Step, g: nat, id: int)
    requires Enabled(s, step) && !ClosesMapping(step) && !GetsPage(step) && g == StepFrame(s, step)
    requires id == StepOp(step)
    requires (g < |s.frames| ==> FrameOk(s, g)) && (id in s.ops ==> OpOk(s, id)) && Separate(s, g, id)
    ensures LocalTo(s, Next(s, step), g, id)
  {
  }

  lemma StepIsLocal(s: Pool, step: Step)
    requires Inv(s) && Enabled(s, step)
    ensures LocalTo(s, Next(s, step), StepFrame(s, step), StepOp(step))
  {
    var g, id := StepFrame(s, step), StepOp(step);
    forall f | 0 <= f < |s.frames| && f != g
      ensures !Owns(id, s.frames[f])
    {
      assert FrameOk(s, f);
    }
    assert forall p :: p in s.table ==> EntryOk(s, p);
    if step.SaveOld? {
      LocalSaveStep(s, step, g, id);
    } else if ClosesMapping(step) {
      LocalMappingStep(s, step, g, id);
    } else if GetsPage(step) {
      LocalGetStep(s, step, g, id);
    } else {
      LocalPlainStep(s, step, g, id);
    }
  }

  lemma OkHere(s: Pool, g: nat, id: int)
    requires Inv(s)
    ensures OkAt(s, g, id)
  {
  }

  // Each step leaves the frame and operation it works on in order.

  lemma NoPinsHere(s: Pool, g: nat)
    requires OkAt(s, g, -1) && g < |s.frames| && (s.frames[g].pin == 0 || BeingLoaded(s, g))
    ensures PinsOn(s.pins, g) == {}
    ensures forall k :: k in s.pins ==> s.pins[k].frame != g
  {
    assert forall k :: k in s.pins && s.pins[k].frame == g ==> k in PinsOn(s.pins, g) && PinOk(s, k);
  }

  lemma WritersStay(s: Pool, t: Pool, f: nat)
    requires forall id :: id in s.pins && s.pins[id].frame == f && s.pins[id].wrote ==>
      id in t.pins && t.pins[id].frame == f && t.pins[id].wrote
    ensures Writer(s, f) ==> Writer(t, f)
  {
    if id :| id in s.pins && s.pins[id].frame == f && s.pins[id].wrote {
      assert id in t.pins && t.pins[id].frame == f && t.pins[id].wrote;
    }
  }

  lemma LookupOk(s: Pool, step: Step)
    requires Enabled(s, step) && (step.StartGet? || step.Lookup? || step.Allocate?)
    requires OkAt(s, |s.frames|, StepOp(step)) && (step.Lookup? ==> EntryOk(s, s.ops[step.op].page))
    requires forall p :: p in s.table ==> s.table[p] < |s.frames|
    requires forall k :: k in s.pins ==> s.pins[k].frame < |s.frames|
    ensures OkAt(Next(s, step), |s.frames|, StepOp(step))
  {
  }

  lemma TryPinOk(s: Pool, op: nat, pin: nat)
    requires Enabled(s, TryPin(op, pin)) && OkAt(s, s.ops[op].frame, op)
    ensures OkAt(Next(s, TryPin(op, pin)), s.ops[op].frame, op)
  {
    var t, g := Next(s, TryPin(op, pin)), s.ops[op].frame;
    PinsAdded(s.pins, pin, Pin(g, s.ops[op].page, false), g);
    WritersStay(s, t, g);
  }

  lemma ChooseVictimOk(s: Pool, op: nat, g: nat)
    requires Enabled(s, ChooseVictim(op, g)) && OkAt(s, g, op)
    ensures OkAt(Next(s, ChooseVictim(op, g)), g, op)
  {
    NoPinsHere(s, g);
  }

  lemma SaveOldOk(s: Pool, op: nat)
    requires Enabled(s, SaveOld(op)) && OkAt(s, s.ops[op].frame, op)
    ensures OkAt(Next(s, SaveOld(op)), s.ops[op].frame, op)
  {
  }

  lemma UnmapOldOk(s: Pool, op: nat)
    requires Enabled(s, UnmapOld(op)) && OkAt(s, s.ops[op].frame, op)
    ensures OkAt(Next(s, UnmapOld(op)), s.ops[op].frame, op)
  {
  }

  lemma ReadNewOk(s: Pool, op: nat, pin: nat)
    requires Enabled(s, ReadNew(op, pin)) && OkAt(s, s.ops[op].frame, op)
    ensures OkAt(Next(s, ReadNew(op, pin)), s.ops[op].frame, op)
  {
    var t, g := Next(s, ReadNew(op, pin)), s.ops[op].frame;
    NoPinsHere(s, g);
    PinsAdded(s.pins, pin, Pin(g, s.ops[op].page, false), g);
  }

  lemma ReleaseFailedOk(s: Pool, op: nat)
    requires Enabled(s, ReleaseFailed(op)) && OkAt(s, s.ops[op].frame, op)
    ensures OkAt(Next(s, ReleaseFailed(op)), s.ops[op].frame, op)
  {
    NoPinsHere(s, s.ops[op].frame);
  }

  lemma WriteBytesOk(s: Pool, pin: nat, bytes: Bytes)
    requires Enabled(s, WriteBytes(pin, bytes)) && OkAt(s, s.pins[pin].frame, -1)
    ensures OkAt(Next(s, WriteBytes(pin, bytes)), s.pins[pin].frame, -1)
  {
    var t, g := Next(s, WriteBytes(pin, bytes)), s.pins[pin].frame;
    assert PinOk(s, pin);
    PinsMarked(s.pins, pin, g);
    assert pin in t.pins && t.pins[pin].frame == g && t.pins[pin].wrote;
  }

  lemma UnpinOk(s: Pool, pin: nat, setDirty: bool)
    requires Enabled(s, Unpin(pin, setDirty)) && OkAt(s, s.pins[pin].frame, -1)
    ensures OkAt(Next(s, Unpin(pin, setDirty)), s.pins[pin].frame, -1)
  {
    var t, g := Next(s, Unpin(pin, setDirty)), s.pins[pin].frame;
    assert PinOk(s, pin);
    PinsRemoved(s.pins, pin, g);
    assert pin in PinsOn(s.pins, g);
    if !setDirty {
      WritersStay(s, t, g);
    }
  }

  lemma FlushWriteOk(s: Pool, op: nat, g: nat)
    requires Enabled(s, FlushWrite(op, g)) && OkAt(s, g, op)
    ensures OkAt(Next(s, FlushWrite(op, g)), g, op)
  {
    WritersStay(s, Next(s, FlushWrite(op, g)), g);
  }

  lemma FlushClearOk(s: Pool, op: nat)
    requires Enabled(s, FlushClear(op)) && OkAt(s, s.ops[op].frame, op)
    ensures OkAt(Next(s, FlushClear(op)), s.ops[op].frame, op)
  {
    WritersStay(s, Next(s, FlushClear(op)), s.ops[op].frame);
  }

  lemma StepOk(s: Pool, step: Step)
    requires Inv(s) && Enabled(s, step)
    ensures OkAt(Next(s, step), StepFrame(s, step), StepOp(step))
  {
    OkHere(s, StepFrame(s, step), StepOp(step));
    match step {
      case StartGet(_, _) => LookupOk(s, step);
      case Lookup(_) => LookupOk(s, step);
      case TryPin(op, pin) => TryPinOk(s, op, pin);
      case ChooseVictim(op, frame) => ChooseVictimOk(s, op, frame);
      case SaveOld(op) => SaveOldOk(s, op);
      case UnmapOld(op) => UnmapOldOk(s, op);
      case ReadNew(op, pin) => ReadNewOk(s, op, pin);
      case ReleaseFailed(op) => ReleaseFailedOk(s, op);
      case WriteBytes(pin, bytes) => WriteBytesOk(s, pin, bytes);
      case Unpin(pin, setDirty) => UnpinOk(s, pin, setDirty);
      case FlushWrite(op, frame) => FlushWriteOk(s, op, frame);
      case FlushClear(op) => FlushClearOk(s, op);
      case Allocate(_) => LookupOk(s, step);
    }
  }

  lemma StepKeepsInv(s: Pool, step: Step)
    requires Inv(s) && Enabled(s, step)
    ensures Inv(Next(s, step))
  {
    StepIsLocal(s, step);
    StepOk(s, step);
    LocalStep(s, Next(s, step), StepFrame(s, step), StepOp(step));
  }

  lemma {:induction false} RunKeepsInv(run: seq<Pool>, steps: seq<Step>, i: nat)
    requires IsRun(run, steps) && i < |run|
    ensures Inv(run[i])
  {
    if i == 0 {
      forall f | 0 <= f < |run[0].frames|
        ensures PinCountOk(run[0], f)
      {
        assert PinsOn(run[0].pins, f) == {};
      }
    } else {
      RunKeepsInv(run, steps, i - 1);
      StepKeepsInv(run[i - 1], steps[i - 1]);
      assert run[i - 1 + 1] == Next(run[i - 1], steps[i - 1]);
    }
  }

  // What the cache holds, read as a plain map from pages to bytes.

  /** The frame whose bytes are the current contents of `p`, or the pool size when the
      disk copy is current. A victim still holds its old page until write-back is done. */
  function Carrier(s: Pool, p: PageID): nat {
    if p !in s.table then |s.frames|
    else
      var f := s.table[p];
      if f >= |s.frames| then |s.frames|
      else if BeingLoaded(s, f) then
        var o := s.ops[s.frames[f].latch.op];
        if o.Evicting? && o.prior == p then f else |s.frames|
      else f
  }

  function Content(s: Pool, p: PageID): Bytes
    requires p in s.disk
  {
    var f := Carrier(s, p);
    if f < |s.frames| then s.frames[f].bytes else s.disk[p]
  }

  /** The plain map: only a pin holder's write changes a page, and only that page. */
  function PlainUpdate(s: Pool, step: Step, p: PageID): Bytes
    requires Enabled(s, step) && (p in s.disk || step.Allocate?)
  {
    match step
    case WriteBytes(pin, bytes) => if s.pins[pin].page == p then bytes else Content(s, p)
    case Allocate(page) => if page == p || p !in s.disk then BLANK else Content(s, p)
    case _ => Content(s, p)
  }

  /** Pages not tied to the touched frame keep their contents. */
  lemma OtherContent(s: Pool, t: Pool, g: nat, id: int, p: PageID)
    requires Inv(s) && Inv(t) && LocalTo(s, t, g, id) && p in s.disk
    requires !MapsTo(s, p, g) && !MapsTo(t, p, g)
    ensures Content(t, p) == Content(s, p)
  {
    if p in s.table {
      assert EntryOk(s, p) && FrameOk(s, s.table[p]);
    }
  }

  /** The pages tied to the touched frame: a victim's old page moves to disk only once
      written, its new page is on disk until read. */
  lemma ContentOfLoad(s: Pool, step: Step, p: PageID)
    requires Enabled(s, step) && p in s.disk && (ClosesMapping(step) || step.ChooseVictim?)
    requires OkAt(s, StepFrame(s, step), StepOp(step)) && OkAt(Next(s, step), StepFrame(s, step), StepOp(step))
    requires MapsTo(s, p, StepFrame(s, step)) || MapsTo(Next(s, step), p, StepFrame(s, step))
    requires p in s.table ==> EntryOk(s, p)
    ensures Content(Next(s, step), p) == Content(s, p)
  {
  }

  lemma ContentHere(s: Pool, step: Step, p: PageID)
    requires Enabled(s, step) && p in s.disk
    requires OkAt(s, StepFrame(s, step), StepOp(step)) && OkAt(Next(s, step), StepFrame(s, step), StepOp(step))
    requires MapsTo(s, p, StepFrame(s, step)) || MapsTo(Next(s, step), p, StepFrame(s, step))
    requires p in s.table ==> EntryOk(s, p)
    ensures Content(Next(s, step), p) == PlainUpdate(s, step, p)
  {
    if ClosesMapping(step) || step.ChooseVictim? {
      ContentOfLoad(s, step, p);
    } else if step.WriteBytes? {
      assert PinOk(s, step.pin);
    }
  }

  /** Every step of the concurrent protocol is a step of the plain page map. */
  lemma StepRefinesPlainMap(s: Pool, step: Step, p: PageID)
    requires Inv(s) && Enabled(s, step) && p in Next(s, step).disk
    ensures Content(Next(s, step), p) == PlainUpdate(s, step, p)
  {
    var t, g, id := Next(s, step), StepFrame(s, step), StepOp(step);
    StepKeepsInv(s, step);
    StepIsLocal(s, step);
    if p !in s.disk {
      NewPageIsBlank(s, step, p);
    } else if MapsTo(s, p, g) || MapsTo(t, p, g) {
      OkHere(s, g, id);
      OkHere(t, g, id);
      ContentHere(s, step, p);
    } else {
      OtherContent(s, t, g, id, p);
      if step.WriteBytes? {
        assert PinOk(s, step.pin) && FrameOk(s, g);
      }
    }
  }

  lemma NewPageIsBlank(s: Pool, step: Step, p: PageID)
    requires Inv(s) && Enabled(s, step) && p !in s.disk && p in Next(s, step).disk
    ensures step.Allocate? && Content(Next(s, step), p) == PageBytes.Zeros(4096)
  {
    if p in s.table {
      assert EntryOk(s, p) && FrameOk(s, s.table[p]);
    }
  }

  // The main results.

  /** A page counts as live in a frame unless its read has failed and the frame is about
      to be emptied. */
  predicate LiveIn(s: Pool, f: nat, p: PageID) {
    && f < |s.frames| && s.frames[f].pageID == p && p.oid != 0
    && !(BeingLoaded(s, f) && s.ops[s.frames[f].latch.op].Failing?)
  }

  lemma NoPageLiveTwice(run: seq<Pool>, steps: seq<Step>, i: nat, p: PageID, f: nat, g: nat)
    requires IsRun(run, steps) && i < |run| && LiveIn(run[i], f, p) && LiveIn(run[i], g, p)
    ensures f == g
  {
    RunKeepsInv(run, steps, i);
    assert FrameOk(run[i], f) && FrameOk(run[i], g);
  }

  /** Whoever holds a pin sees the page's latest bytes, whatever else is in flight. */
  lemma PinnedFrameShowsLatest(run: seq<Pool>, steps: seq<Step>, i: nat, pin: nat)
    requires IsRun(run, steps) && i < |run| && pin in run[i].pins
    ensures var Pin(f, page, _) := run[i].pins[pin];
      && f < |run[i].frames| && LiveIn(run[i], f, page)
      && page in run[i].disk && run[i].frames[f].bytes == Content(run[i], page)
  {
    RunKeepsInv(run, steps, i);
    assert PinOk(run[i], pin) && FrameOk(run[i], run[i].pins[pin].frame);
  }

  /** A pinned frame is never chosen as a victim, so a pin keeps its frame and page. */
  lemma PinnedFrameNeverEvicted(run: seq<Pool>, steps: seq<Step>, i: nat, pin: nat)
    requires IsRun(run, steps) && i < |steps| && pin in run[i].pins && pin in run[i + 1].pins
    ensures run[i + 1].pins[pin].frame == run[i].pins[pin].frame && run[i + 1].pins[pin].page == run[i].pins[pin].page
    ensures steps[i].ChooseVictim? ==> steps[i].frame != run[i].pins[pin].frame
  {
    RunKeepsInv(run, steps, i);
    assert run[i + 1] == Next(run[i], steps[i]);
    if steps[i].ChooseVictim? {
      OkHere(run[i], steps[i].frame, -1);
      NoPinsHere(run[i], steps[i].frame);
    }
  }

  /** Neither an eviction nor a flush ever hits the file's bounds check on a write. */
  lemma WriteBackInBounds(run: seq<Pool>, steps: seq<Step>, i: nat, f: nat)
    requires IsRun(run, steps) && i < |run| && f < |run[i].frames| && run[i].frames[f].dirty
    ensures BeingLoaded(run[i], f) ==>
      var o := run[i].ops[run[i].frames[f].latch.op]; o.Evicting? && o.prior in run[i].disk
    ensures !BeingLoaded(run[i], f) ==> run[i].frames[f].pageID in run[i].disk
  {
    RunKeepsInv(run, steps, i);
    assert FrameOk(run[i], f);
  }

  predicate IsGet(o: Op) {
    !o.Flushing?
  }

  /** A `GetPage` ends with a new pin of its page, or after its read has failed. */
  lemma GetEndsPinnedOrFailed(s: Pool, step: Step, op: nat)
    requires Inv(s) && Enabled(s, step) && op in s.ops && IsGet(s.ops[op]) && op !in Next(s, step).ops
    ensures s.ops[op].Failing? || (
      && (step.TryPin? || step.ReadNew?) && step.pin !in s.pins && step.pin in Next(s, step).pins
      && Next(s, step).pins[step.pin].page == s.ops[op].page)
  {
    assert OpOk(s, op);
    if s.ops[op].frame < |s.frames| {
      assert FrameOk(s, s.ops[op].frame);
    }
  }

  /** Its read fails only if there is no such page. */
  lemma ReadFailsOnlyOnMissingPage(s: Pool, step: Step, op: nat)
    requires Inv(s) && Enabled(s, step) && op in s.ops && op in Next(s, step).ops
    requires !s.ops[op].Failing? && Next(s, step).ops[op].Failing?
    ensures s.ops[op].Unmapped? && s.ops[op].page !in s.disk
  {
  }

  /** The bytes the step gives `p`, if it is a write to it or its allocation. */
  function GivenBy(s: Pool, step: Step, p: PageID): seq<Bytes> {
    match step
    case WriteBytes(pin, bytes) => if pin in s.pins && s.pins[pin].page == p then [bytes] else []
    case Allocate(page) => if page == p then [BLANK] else []
    case _ => []
  }

  /** The reference: what the latest write or allocation of `p` among the first `i` steps
      gave it, if there is one. */
  function LastGiven(run: seq<Pool>, steps: seq<Step>, i: nat, p: PageID): seq<Bytes>
    requires i <= |steps| < |run|
  {
    if i == 0 then []
    else
      var given := GivenBy(run[i - 1], steps[i - 1], p);
      if given != [] then given else LastGiven(run, steps, i - 1, p)
  }

  lemma StepGives(s: Pool, step: Step, p: PageID)
    requires Inv(s) && Enabled(s, step) && p in Next(s, step).disk
    ensures var given := GivenBy(s, step, p);
      if given != [] then Content(Next(s, step), p) == given[0]
      else p in s.disk && Content(Next(s, step), p) == Content(s, p)
  {
    if p in s.disk {
      StepRefinesPlainMap(s, step, p);
    } else {
      NewPageIsBlank(s, step, p);
    }
  }

  /** Over a whole run the pages behave as a plain map: what a page holds at the end is
      what was last written to it, or zeros if it was allocated since, or else what the
      disk held at the start. */
  lemma {:induction false} RunRefinesPlainMap(run: seq<Pool>, steps: seq<Step>, i: nat, p: PageID)
    requires IsRun(run, steps) && i < |run| && p in run[i].disk
    ensures var given := LastGiven(run, steps, i, p);
      if given != [] then Content(run[i], p) == given[0]
      else p in run[0].disk && Content(run[i], p) == run[0].disk[p]
  {
    if i > 0 {
      RunKeepsInv(run, steps, i - 1);
      assert run[i - 1 + 1] == Next(run[i - 1], steps[i - 1]);
      StepGives(run[i - 1], steps[i - 1], p);
      if GivenBy(run[i - 1], steps[i - 1], p) == [] {
        RunRefinesPlainMap(run, steps, i - 1, p);
      }
    }
  }

  // The runs reach the hard case.

  /** A run can be carried on by any enabled step. */
  lemma CarryOn(run: seq<Pool>, steps: seq<Step>, step: Step) returns (longer: seq<Pool>, more: seq<Step>)
    requires IsRun(run, steps) && Enabled(run[|steps|], step)
    ensures IsRun(longer, more) && longer[0] == run[0] && longer[|more|] == Next(run[|steps|], step)
  {
    longer, more := run + [Next(run[|steps|], step)], steps + [step];
    forall i | 0 <= i < |more|
      ensures Enabled(longer[i], more[i]) && longer[i + 1] == Next(longer[i], more[i])
    {
      if i < |steps| {
        assert longer[i] == run[i] && longer[i + 1] == run[i + 1] && more[i] == steps[i];
      }
    }
  }

  /** An idle pool of one frame. */
  function OneFrame(page: PageID, dirty: bool, bytes: Bytes, table: map<PageID, nat>, disk: map<PageID, Bytes>): Pool {
    Pool([Frame(page, 0, dirty, bytes, Free)], table, disk, map[], map[])
  }

  /** A whole undisturbed `GetPage` of a page that is not cached: the frame's old page is
      written back if it was dirty, and the frame ends up pinned on the new one. */
  lemma MissEvicts(run: seq<Pool>, steps: seq<Step>, prior: PageID, dirty: bool, bytes: Bytes,
                   table: map<PageID, nat>, disk: map<PageID, Bytes>, page: PageID)
    returns (longer: seq<Pool>, more: seq<Step>)
    requires IsRun(run, steps) && run[|steps|] == OneFrame(prior, dirty, bytes, table, disk)
    requires page.oid != 0 && page != prior && page in disk && page !in table && (dirty ==> prior in disk)
    ensures IsRun(longer, more) && longer[0] == run[0]
    ensures longer[|more|] == Pool([Frame(page, 1, false, disk[page], Free)], table[page := 0] - {prior},
                                   if dirty then disk[prior := bytes] else disk, map[], map[0 := Pin(0, page, false)])
  {
    longer, more := CarryOn(run, steps, StartGet(0, page));
    longer, more := CarryOn(longer, more, ChooseVictim(0, 0));
    longer, more := CarryOn(longer, more, SaveOld(0));
    longer, more := CarryOn(longer, more, UnmapOld(0));
    longer, more := CarryOn(longer, more, ReadNew(0, 0));
    assert longer[|more|].ops == map[];
  }

  /** The holder of the only pin writes the page and unpins it dirty. */
  lemma WriteAndUnpin(run: seq<Pool>, steps: seq<Step>, page: PageID, table: map<PageID, nat>,
                      disk: map<PageID, Bytes>, latest: Bytes)
    returns (longer: seq<Pool>, more: seq<Step>)
    requires IsRun(run, steps) && page in disk
    requires run[|steps|] ==
      Pool([Frame(page, 1, false, disk[page], Free)], table, disk, map[], map[0 := Pin(0, page, false)])
    ensures IsRun(longer, more) && longer[0] == run[0]
    ensures longer[|more|] == OneFrame(page, true, latest, table, disk)
  {
    longer, more := CarryOn(run, steps, WriteBytes(0, latest));
    longer, more := CarryOn(longer, more, Unpin(0, true));
    assert longer[|more|].pins == map[];
  }

  /** A page is read, written and unpinned, then pushed out by another page: it leaves the
      cache and the disk keeps the bytes that were written. */
  lemma WrittenPageIsEvicted(p: PageID, q: PageID, first: Bytes, other: Bytes, latest: Bytes)
    returns (run: seq<Pool>, steps: seq<Step>)
    requires p != q && p.oid != 0 && q.oid != 0
    ensures IsRun(run, steps) && run[0].disk == map[p := first, q := other]
    ensures run[|steps|] == Pool([Frame(q, 1, false, other, Free)], map[q := 0],
                                 map[p := latest, q := other], map[], map[0 := Pin(0, q, false)])
  {
    var disk := map[p := first, q := other];
    run, steps := [OneFrame(NilPage, false, first, map[], disk)], [];
    run, steps := MissEvicts(run, steps, NilPage, false, first, map[], disk, p);
    assert map[][p := 0] - {NilPage} == map[p := 0];
    run, steps := WriteAndUnpin(run, steps, p, map[p := 0], disk, latest);
    run, steps := MissEvicts(run, steps, p, true, latest, map[p := 0], disk, q);
    assert map[p := 0][q := 0] - {p} == map[q := 0];
    assert disk[p := latest] == map[p := latest, q := other];
  }
}
