/** The buffer pool's lookup, load, register and discard protocol, interleaved step by
    step over any number of threads, against a flat store of pages. */
module BufferPool {
  import opened Basics
  import opened Bytes

  type PageId = nat
  type FrameId = nat
  type Content = seq<byte>

  datatype State = Free | Loading | Valid

  datatype Frame = Frame(state: State, id: PageId, content: Content, dirty: bool)

  /** Where a thread is. `creating` marks the creation of a page, as opposed to a load. */
  datatype Pc =
    | Idle
    | Missed(id: PageId, creating: bool)               // not in the table
    | Took(id: PageId, frame: FrameId, creating: bool)  // has a free frame
    | Ready(id: PageId, frame: FrameId, creating: bool) // the frame is filled
    | Installing(id: PageId, frame: FrameId)         // in the table, not yet marked valid
    | Lost(id: PageId, frame: FrameId, creating: bool)  // someone else was faster
    | Retry(id: PageId)                              // own frame given back
    | Has(id: PageId, frame: FrameId)                // returned to the caller
    | Failed(err: int)

  /** `flat` is what each page that exists should contain; it is not part of the program. */
  datatype Pool = Pool(frames: seq<Frame>, table: map<PageId, FrameId>, free: seq<FrameId>,
                       disk: map<PageId, Content>, threads: seq<Pc>, flat: map<PageId, Content>)

  datatype Step =
    | Lookup(t: nat, id: PageId)
    | Create(t: nat, id: PageId)
    | Take(t: nat)
    | Fill(t: nat, torn: Content)      // disk read; a page being written back may tear
    | Blank(t: nat, zero: Content)     // new page, written to disk at once
    | GiveUp(t: nat, err: int)         // disk or memory failure with a frame in hand
    | Register(t: nat)
    | Finish(t: nat)
    | Discard(t: nat)
    | Again(t: nat)
    | Write(t: nat, content: Content)
    | Release(t: nat)
    | Flush(f: FrameId)

  // ---------------------------------------------------------------- steps

  predicate At(s: Pool, t: nat) { t < |s.threads| }

  /** Loads name pages that exist; creations name pages that neither exist nor are
      being created. */
  predicate Enabled(s: Pool, step: Step) {
    match step
    case Lookup(t, id) => At(s, t) && s.threads[t].Idle? && id in s.flat
    case Create(t, id) => At(s, t) && s.threads[t].Idle? && id !in s.flat && forall u | 0 <= u < |s.threads| :: !Creates(s.threads[u], id)
    case Take(t) => At(s, t) && s.threads[t].Missed?
    case Fill(t, _) => At(s, t) && s.threads[t].Took? && !s.threads[t].creating
    case Blank(t, _) => At(s, t) && s.threads[t].Took? && s.threads[t].creating
    case GiveUp(t, err) => At(s, t) && (s.threads[t].Took? || s.threads[t].Ready?) && err != ENOENT
    case Register(t) => At(s, t) && s.threads[t].Ready?
    case Finish(t) => At(s, t) && s.threads[t].Installing?
    case Discard(t) => At(s, t) && s.threads[t].Lost?
    case Again(t) => At(s, t) && s.threads[t].Retry?
    case Write(t, _) => At(s, t) && s.threads[t].Has?
    case Release(t) => At(s, t) && (s.threads[t].Has? || s.threads[t].Failed?)
    case Flush(f) => f < |s.frames| && s.frames[f].state.Valid? && s.frames[f].dirty
  }

  predicate Creates(pc: Pc, id: PageId) {
    (pc.Missed? || pc.Took? || pc.Ready? || pc.Lost?) && pc.creating && pc.id == id
  }

  predicate Owns(pc: Pc, f: FrameId) {
    (pc.Took? || pc.Ready? || pc.Lost? || pc.Installing?) && pc.frame == f
  }

  const EmptyFrame: Frame := Frame(Free, 0, [], false)

  function Goto(s: Pool, t: nat, pc: Pc): Pool
    requires At(s, t)
  {
    s.(threads := s.threads[t := pc])
  }

  function FrameOf(s: Pool, f: FrameId): Frame { if f < |s.frames| then s.frames[f] else EmptyFrame }

  function Put(s: Pool, f: FrameId, frame: Frame): seq<Frame> { if f < |s.frames| then s.frames[f := frame] else s.frames }

  /** A frame goes back to the end of the free list. */
  function Returned(s: Pool, f: FrameId): Pool { s.(frames := Put(s, f, EmptyFrame), free := s.free + [f]) }

  function Filled(s: Pool, f: FrameId, c: Content): Pool {
    s.(frames := Put(s, f, FrameOf(s, f).(content := c, dirty := false)))
  }

  function Looked(s: Pool, t: nat, id: PageId, miss: Pc): Pool
    requires At(s, t)
  {
    if id in s.table then Goto(s, t, Has(id, s.table[id])) else Goto(s, t, miss)
  }

  function Apply(s: Pool, step: Step): Pool
    requires Enabled(s, step)
  {
    match step
    case Lookup(t, id) => Looked(s, t, id, Missed(id, false))
    case Create(t, id) => if id in s.table then Goto(s, t, Failed(EEXIST)) else Goto(s, t, Missed(id, true))
    case Take(t) =>
      var pc := s.threads[t];
      if s.free == [] then Goto(s, t, Failed(ENOSPC))
      else
        var f := s.free[0];
        Goto(s.(free := s.free[1..], frames := Put(s, f, Frame(Loading, pc.id, [], false))), t, Took(pc.id, f, pc.creating))
    case Fill(t, torn) =>
      var pc := s.threads[t];
      var c := if pc.id in s.table || pc.id !in s.disk then torn else s.disk[pc.id];
      Goto(Filled(s, pc.frame, c), t, Ready(pc.id, pc.frame, false))
    case Blank(t, zero) =>
      var pc := s.threads[t];
      Goto(Filled(s, pc.frame, zero), t, Ready(pc.id, pc.frame, true)).(disk := s.disk[pc.id := zero])
    case GiveUp(t, err) => Goto(Returned(s, s.threads[t].frame), t, Failed(err))
    case Register(t) =>
      var pc := s.threads[t];
      if pc.id in s.table then Goto(s, t, Lost(pc.id, pc.frame, pc.creating))
      else
        var flat := if pc.creating then s.flat[pc.id := FrameOf(s, pc.frame).content] else s.flat;
        Goto(s.(table := s.table[pc.id := pc.frame], flat := flat), t, Installing(pc.id, pc.frame))
    case Finish(t) =>
      var pc := s.threads[t];
      Goto(s.(frames := Put(s, pc.frame, FrameOf(s, pc.frame).(state := Valid))), t, Has(pc.id, pc.frame))
    case Discard(t) =>
      var pc := s.threads[t];
      Goto(Returned(s, pc.frame), t, if pc.creating then Failed(EEXIST) else Retry(pc.id))
    case Again(t) => Looked(s, t, s.threads[t].id, Failed(ENOENT))
    case Write(t, content) =>
      var pc := s.threads[t];
      s.(frames := Put(s, pc.frame, FrameOf(s, pc.frame).(content := content, dirty := true)), flat := s.flat[pc.id := content])
    case Release(t) => Goto(s, t, Idle)
    case Flush(f) =>
      s.(disk := s.disk[s.frames[f].id := s.frames[f].content], frames := s.frames[f := s.frames[f].(dirty := false)])
  }

  // ------------------------------------------------------------ invariant

  predicate IdOk(s: Pool, id: PageId, creating: bool) { if creating then id !in s.flat else id in s.flat }

  /** A frame in the hands of one thread, not yet or not at all in the table. */
  predicate Private(s: Pool, f: FrameId, id: PageId) {
    && f < |s.frames| && s.frames[f].state.Loading? && s.frames[f].id == id
    && (id in s.table ==> s.table[id] != f)
  }

  predicate ThreadOk(s: Pool, t: nat)
    requires At(s, t)
  {
    match s.threads[t]
    case Idle => true
    case Missed(id, creating) => IdOk(s, id, creating)
    case Took(id, f, creating) => IdOk(s, id, creating) && Private(s, f, id)
    case Ready(id, f, creating) =>
      && IdOk(s, id, creating) && Private(s, f, id) && !s.frames[f].dirty
      && (id !in s.table ==> id in s.disk && s.disk[id] == s.frames[f].content)
    case Installing(id, f) => id in s.table && s.table[id] == f && f < |s.frames| && s.frames[f].state.Loading?
    case Lost(id, f, creating) => IdOk(s, id, creating) && Private(s, f, id) && id in s.table
    case Retry(id) => id in s.table
    case Has(id, f) => id in s.table && s.table[id] == f
    case Failed(err) => err != ENOENT
  }

  predicate TableOk(s: Pool, id: PageId) {
    id in s.table ==>
      var f := s.table[id];
      && f < |s.frames| && s.frames[f].id == id && !s.frames[f].state.Free?
      && id in s.flat && s.frames[f].content == s.flat[id]
      && id in s.disk && (s.frames[f].dirty || s.disk[id] == s.flat[id])
  }

  predicate DiskOk(s: Pool, id: PageId) {
    id in s.flat && id !in s.table ==> id in s.disk && s.disk[id] == s.flat[id]
  }

  predicate FrameOk(s: Pool, f: FrameId)
    requires f < |s.frames|
  {
    && (s.frames[f].state.Free? <==> f in s.free)
    && (s.frames[f].state.Valid? ==> s.frames[f].id in s.table && s.table[s.frames[f].id] == f)
  }

  /** Two threads never own one frame and never create one page. */
  predicate Apart(a: Pc, b: Pc) {
    && ((a.Took? || a.Ready? || a.Lost? || a.Installing?) ==> !Owns(b, a.frame))
    && ((a.Missed? || a.Took? || a.Ready? || a.Lost?) && a.creating ==> !Creates(b, a.id))
  }

  /** Every loading frame has an owner, so no frame is ever lost. */
  ghost predicate Owned(s: Pool, f: FrameId) { exists t | 0 <= t < |s.threads| :: Owns(s.threads[t], f) }

  ghost predicate Inv(s: Pool) {
    && (forall t | 0 <= t < |s.threads| :: ThreadOk(s, t))
    && (forall t, u | 0 <= t < u < |s.threads| :: Apart(s.threads[t], s.threads[u]))
    && (forall id :: TableOk(s, id))
    && (forall id :: DiskOk(s, id))
    && (forall f | 0 <= f < |s.frames| :: FrameOk(s, f))
    && (forall f | 0 <= f < |s.frames| && s.frames[f].state.Loading? :: Owned(s, f))
    && (forall i | 0 <= i < |s.free| :: s.free[i] < |s.frames|)
    && (forall i, j | 0 <= i < j < |s.free| :: s.free[i] != s.free[j])
  }

  // ------------------------------------------------- every step keeps it

  lemma ApartSym(a: Pc, b: Pc)
    requires Apart(a, b)
    ensures Apart(b, a)
  {
  }

  lemma Others(s: Pool, t: nat, u: nat)
    requires Inv(s) && At(s, t) && At(s, u) && t != u
    ensures Apart(s.threads[t], s.threads[u]) && Apart(s.threads[u], s.threads[t]) && ThreadOk(s, u) && ThreadOk(s, t)
  {
    hide TableOk, DiskOk, FrameOk, Owned, Apart, ThreadOk;
    if t < u {
      ApartSym(s.threads[t], s.threads[u]);
    } else {
      ApartSym(s.threads[u], s.threads[t]);
    }
  }

  /** The threads after a step of thread `t`. */
  lemma ThreadsKeep(s: Pool, s': Pool, t: nat)
    requires Inv(s) && At(s, t) && |s'.threads| == |s.threads|
    requires s'.threads == s.threads[t := s'.threads[t]]
    requires forall u | 0 <= u < |s.threads| && u != t :: ThreadOk(s', u) && Apart(s'.threads[t], s.threads[u])
    requires ThreadOk(s', t)
    ensures forall u | 0 <= u < |s'.threads| :: ThreadOk(s', u)
    ensures forall u, v | 0 <= u < v < |s'.threads| :: Apart(s'.threads[u], s'.threads[v])
  {
    hide TableOk, DiskOk, FrameOk, Owned, Apart, ThreadOk;
    forall u, v | 0 <= u < v < |s'.threads|
      ensures Apart(s'.threads[u], s'.threads[v])
    {
      if v == t {
        ApartSym(s'.threads[t], s.threads[u]);
      }
    }
  }

  lemma OwnedKept(s: Pool, s': Pool, t: nat, f: FrameId)
    requires Owned(s, f) && At(s, t) && |s'.threads| == |s.threads| && s'.threads == s.threads[t := s'.threads[t]]
    requires Owns(s.threads[t], f) ==> Owns(s'.threads[t], f)
    ensures Owned(s', f)
  {
    var u :| 0 <= u < |s.threads| && Owns(s.threads[u], f);
    assert Owns(s'.threads[u], f);
  }

  /** A step that only moves the thread on. */
  lemma GotoInv(s: Pool, t: nat, pc: Pc)
    requires Inv(s) && At(s, t) && ThreadOk(Goto(s, t, pc), t)
    requires forall u | 0 <= u < |s.threads| && u != t :: Apart(pc, s.threads[u])
    requires forall f | 0 <= f < |s.frames| && Owns(s.threads[t], f) :: Owns(pc, f)
    ensures Inv(Goto(s, t, pc))
  {
    var s' := Goto(s, t, pc);
    forall u | 0 <= u < |s.threads| && u != t
      ensures ThreadOk(s', u) && Apart(s'.threads[t], s.threads[u])
    {
      Others(s, t, u);
    }
    hide ThreadOk, Apart;
    ThreadsKeep(s, s', t);
    forall f | 0 <= f < |s'.frames| && s'.frames[f].state.Loading?
      ensures Owned(s', f)
    {
      OwnedKept(s, s', t, f);
    }
    hide Owned;
    assert forall id :: TableOk(s', id) <== TableOk(s, id);
    assert forall id :: DiskOk(s', id) <== DiskOk(s, id);
    assert forall f | 0 <= f < |s.frames| :: FrameOk(s', f) <== FrameOk(s, f);
  }

  lemma StepLookup(s: Pool, step: Step)
    requires Inv(s) && Enabled(s, step) && (step.Lookup? || step.Create? || step.Again? || step.Release?)
    ensures Inv(Apply(s, step))
  {
    hide Inv;
    var t := step.t;
    InvThread(s, t);
    var s' := Apply(s, step);
    assert s' == Goto(s, t, s'.threads[t]);
    forall u | 0 <= u < |s.threads| && u != t
      ensures Apart(s'.threads[t], s.threads[u])
    {
      Others(s, t, u);
    }
    GotoInv(s, t, s'.threads[t]);
  }

  lemma InvThread(s: Pool, t: nat)
    requires Inv(s) && At(s, t)
    ensures ThreadOk(s, t)
    ensures (s.threads[t].Ready? || s.threads[t].Has? || s.threads[t].Retry? || s.threads[t].Took? || s.threads[t].Missed?) ==> TableOk(s, s.threads[t].id) && DiskOk(s, s.threads[t].id)
  {
    hide TableOk, DiskOk, FrameOk, Owned, Apart, ThreadOk;
  }

  /** Frame `f` goes back to the free list. */
  lemma ReturnInv(s: Pool, t: nat, pc: Pc)
    requires Inv(s) && At(s, t) && (s.threads[t].Took? || s.threads[t].Ready? || s.threads[t].Lost?)
    requires pc.Failed? || pc.Retry?
    requires ThreadOk(s, t) && s.threads[t].frame < |s.frames|
    requires pc.Failed? ==> pc.err != ENOENT
    requires pc.Retry? ==> pc.id in s.table
    ensures Inv(Goto(Returned(s, s.threads[t].frame), t, pc))
  {
    var f := s.threads[t].frame;
    var s' := Goto(Returned(s, f), t, pc);
    ReturnFrames(s, t, s');
    hide Inv, FramesInv;
    forall u | 0 <= u < |s.threads| && u != t
      ensures ThreadOk(s', u) && Apart(s'.threads[t], s.threads[u])
    {
      Others(s, t, u);
    }
    forall g | 0 <= g < |s'.frames| && s'.frames[g].state.Loading?
      ensures Owned(s', g)
    {
      LoadingOwned(s, g);
      OwnedKept(s, s', t, g);
    }
    StepInv(s, s', t);
  }

  /** What a step of thread `t` has to show. */
  lemma StepInv(s: Pool, s': Pool, t: nat)
    requires Inv(s) && At(s, t) && |s'.threads| == |s.threads| && s'.threads == s.threads[t := s'.threads[t]]
    requires forall u | 0 <= u < |s.threads| && u != t :: ThreadOk(s', u) && Apart(s'.threads[t], s.threads[u])
    requires ThreadOk(s', t) && FramesInv(s')
    requires forall f | 0 <= f < |s'.frames| && s'.frames[f].state.Loading? :: Owned(s', f)
    ensures Inv(s')
  {
    hide ThreadOk, Apart, TableOk, DiskOk, FrameOk, Owned, FramesInv, Inv;
    ThreadsKeep(s, s', t);
    Assembled(s');
  }

  lemma LoadingOwned(s: Pool, f: FrameId)
    requires Inv(s) && f < |s.frames|
    ensures FrameOk(s, f)
    ensures s.frames[f].state.Loading? ==> Owned(s, f)
  {
    hide TableOk, DiskOk, FrameOk, Owned, Apart, ThreadOk;
  }

  ghost predicate FramesInv(s: Pool) {
    && (forall id :: TableOk(s, id))
    && (forall id :: DiskOk(s, id))
    && (forall f | 0 <= f < |s.frames| :: FrameOk(s, f))
    && (forall i | 0 <= i < |s.free| :: s.free[i] < |s.frames|)
    && (forall i, j | 0 <= i < j < |s.free| :: s.free[i] != s.free[j])
  }

  lemma Assembled(s: Pool)
    requires FramesInv(s)
    requires forall t | 0 <= t < |s.threads| :: ThreadOk(s, t)
    requires forall t, u | 0 <= t < u < |s.threads| :: Apart(s.threads[t], s.threads[u])
    requires forall f | 0 <= f < |s.frames| && s.frames[f].state.Loading? :: Owned(s, f)
    ensures Inv(s)
  {
    hide TableOk, DiskOk, FrameOk, Owned, Apart, ThreadOk;
  }

  lemma ReturnFrames(s: Pool, t: nat, s': Pool)
    requires Inv(s) && At(s, t) && (s.threads[t].Took? || s.threads[t].Ready? || s.threads[t].Lost?)
    requires s.threads[t].frame < |s.frames|
    requires var r := Returned(s, s.threads[t].frame); s' == r.(threads := s'.threads)
    ensures FramesInv(s')
  {
    var f := s.threads[t].frame;
    assert ThreadOk(s, t) && FrameOk(s, f);
    hide ThreadOk, Apart, Owned;
    forall id
      ensures TableOk(s', id) && DiskOk(s', id)
    {
      assert TableOk(s, id) && DiskOk(s, id);
      PrivateUnmapped(s, t, id);
    }
    forall g | 0 <= g < |s'.frames|
      ensures FrameOk(s', g)
    {
      assert FrameOk(s, g);
    }
  }

  lemma PrivateUnmapped(s: Pool, t: nat, id: PageId)
    requires Inv(s) && At(s, t) && (s.threads[t].Took? || s.threads[t].Ready? || s.threads[t].Lost?)
    ensures id in s.table ==> s.table[id] != s.threads[t].frame
  {
    hide Apart, Owned, FrameOk, DiskOk;
    assert ThreadOk(s, t) && TableOk(s, id);
  }

  // ------------------------------------------------------- taking a frame

  lemma TakeFrames(s: Pool, step: Step)
    requires Inv(s) && Enabled(s, step) && step.Take? && s.free != []
    ensures FramesInv(Apply(s, step))
  {
    var s', f := Apply(s, step), s.free[0];
    assert f in s.free && FrameOk(s, f);
    hide ThreadOk, Apart, Owned;
    forall id
      ensures TableOk(s', id) && DiskOk(s', id)
    {
      assert TableOk(s, id) && DiskOk(s, id);
    }
    forall g | 0 <= g < |s'.frames|
      ensures FrameOk(s', g)
    {
      assert FrameOk(s, g);
      assert s.free == [f] + s'.free;
    }
  }

  lemma FreeHead(s: Pool)
    requires Inv(s) && s.free != []
    ensures s.free[0] < |s.frames| && s.frames[s.free[0]].state.Free?
  {
    hide ThreadOk, Apart, Owned, TableOk, DiskOk;
    assert s.free[0] in s.free && FrameOk(s, s.free[0]);
  }

  lemma StepTake(s: Pool, step: Step)
    requires Inv(s) && Enabled(s, step) && step.Take?
    ensures Inv(Apply(s, step))
  {
    var t, s' := step.t, Apply(s, step);
    hide Inv, FramesInv;
    InvThread(s, t);
    forall u | 0 <= u < |s.threads| && u != t
      ensures Apart(s'.threads[t], s.threads[u])
    {
      Others(s, t, u);
      if s.free != [] {
        FreeHead(s);
      }
    }
    if s.free == [] {
      GotoInv(s, t, Failed(ENOSPC));
    } else {
      FreeHead(s);
      TakeFrames(s, step);
      forall u | 0 <= u < |s.threads| && u != t
        ensures ThreadOk(s', u)
      {
        Others(s, t, u);
        if s.threads[u].Has? || s.threads[u].Installing? {
          TableOkAt(s, s.threads[u].id);
        }
      }
      TableOkAt(s, s.threads[t].id);
      forall f | 0 <= f < |s'.frames| && s'.frames[f].state.Loading?
        ensures Owned(s', f)
      {
        if f == s.free[0] {
          assert Owns(s'.threads[t], f);
        } else {
          LoadingOwned(s, f);
          OwnedKept(s, s', t, f);
        }
      }
      StepInv(s, s', t);
    }
  }

  lemma TableOkAt(s: Pool, id: PageId)
    requires Inv(s)
    ensures TableOk(s, id) && DiskOk(s, id)
  {
    hide ThreadOk, Apart, Owned, TableOk, DiskOk, FrameOk;
  }

  // ------------------------------------------------------- filling a frame

  lemma FillFrames(s: Pool, step: Step)
    requires Inv(s) && Enabled(s, step) && (step.Fill? || step.Blank?)
    ensures FramesInv(Apply(s, step))
  {
    var t, s' := step.t, Apply(s, step);
    assert ThreadOk(s, t);
    forall id
      ensures TableOk(s', id) && DiskOk(s', id)
    {
      assert TableOk(s, id) && DiskOk(s, id);
      PrivateUnmapped(s, t, id);
    }
    hide ThreadOk, Apart, Owned;
    forall g | 0 <= g < |s'.frames|
      ensures FrameOk(s', g)
    {
      assert FrameOk(s, g);
    }
  }

  lemma StepFill(s: Pool, step: Step)
    requires Inv(s) && Enabled(s, step) && (step.Fill? || step.Blank?)
    ensures Inv(Apply(s, step))
  {
    var t, s' := step.t, Apply(s, step);
    FillFrames(s, step);
    hide Inv, FramesInv;
    InvThread(s, t);
    forall u | 0 <= u < |s.threads| && u != t
      ensures ThreadOk(s', u) && Apart(s'.threads[t], s.threads[u])
    {
      Others(s, t, u);
    }
    forall f | 0 <= f < |s'.frames| && s'.frames[f].state.Loading?
      ensures Owned(s', f)
    {
      LoadingOwned(s, f);
      OwnedKept(s, s', t, f);
    }
    StepInv(s, s', t);
  }

  // ----------------------------------------------------------- registering

  lemma InstallFrames(s: Pool, step: Step)
    requires Inv(s) && Enabled(s, step) && step.Register? && s.threads[step.t].id !in s.table
    ensures FramesInv(Apply(s, step))
  {
    var t, s' := step.t, Apply(s, step);
    assert ThreadOk(s, t) && DiskOk(s, s.threads[t].id);
    hide Apart, Owned;
    forall id
      ensures TableOk(s', id) && DiskOk(s', id)
    {
      assert TableOk(s, id) && DiskOk(s, id);
    }
    hide ThreadOk;
    forall g | 0 <= g < |s'.frames|
      ensures FrameOk(s', g)
    {
      assert FrameOk(s, g);
    }
  }

  lemma StepRegister(s: Pool, step: Step)
    requires Inv(s) && Enabled(s, step) && step.Register?
    ensures Inv(Apply(s, step))
  {
    var t, s' := step.t, Apply(s, step);
    hide Inv, FramesInv;
    InvThread(s, t);
    forall u | 0 <= u < |s.threads| && u != t
      ensures Apart(s'.threads[t], s.threads[u])
    {
      Others(s, t, u);
    }
    if s.threads[t].id in s.table {
      GotoInv(s, t, s'.threads[t]);
    } else {
      InstallFrames(s, step);
      forall u | 0 <= u < |s.threads| && u != t
        ensures ThreadOk(s', u)
      {
        Others(s, t, u);
      }
      forall f | 0 <= f < |s'.frames| && s'.frames[f].state.Loading?
        ensures Owned(s', f)
      {
        LoadingOwned(s, f);
        OwnedKept(s, s', t, f);
      }
      StepInv(s, s', t);
    }
  }

  lemma FinishFrames(s: Pool, step: Step)
    requires Inv(s) && Enabled(s, step) && step.Finish?
    ensures FramesInv(Apply(s, step))
  {
    var t, s' := step.t, Apply(s, step);
    assert ThreadOk(s, t);
    hide Apart, Owned;
    forall id
      ensures TableOk(s', id) && DiskOk(s', id)
    {
      assert TableOk(s, id) && DiskOk(s, id) && TableOk(s, s.threads[t].id);
    }
    forall g | 0 <= g < |s'.frames|
      ensures FrameOk(s', g)
    {
      assert FrameOk(s, g) && TableOk(s, s.threads[t].id);
    }
  }

  lemma StepFinish(s: Pool, step: Step)
    requires Inv(s) && Enabled(s, step) && step.Finish?
    ensures Inv(Apply(s, step))
  {
    var t, s' := step.t, Apply(s, step);
    FinishFrames(s, step);
    hide Inv, FramesInv;
    InvThread(s, t);
    forall u | 0 <= u < |s.threads| && u != t
      ensures ThreadOk(s', u) && Apart(s'.threads[t], s.threads[u])
    {
      Others(s, t, u);
    }
    forall f | 0 <= f < |s'.frames| && s'.frames[f].state.Loading?
      ensures Owned(s', f)
    {
      LoadingOwned(s, f);
      OwnedKept(s, s', t, f);
    }
    StepInv(s, s', t);
  }

  // ------------------------------------------------------ writing, flushing

  lemma DataFrames(s: Pool, step: Step)
    requires Inv(s) && Enabled(s, step) && (step.Write? || step.Flush?)
    ensures FramesInv(Apply(s, step)) && Apply(s, step).threads == s.threads && |Apply(s, step).frames| == |s.frames|
    ensures forall f | 0 <= f < |s.frames| :: Apply(s, step).frames[f].state == s.frames[f].state
  {
    var s' := Apply(s, step);
    var f := if step.Write? then s.threads[step.t].frame else step.f;
    assert step.Write? ==> ThreadOk(s, step.t);
    assert step.Write? ==> TableOk(s, s.threads[step.t].id);
    assert step.Flush? ==> FrameOk(s, f) && TableOk(s, s.frames[f].id);
    hide Apart, Owned, ThreadOk;
    forall id
      ensures TableOk(s', id) && DiskOk(s', id)
    {
      assert TableOk(s, id) && DiskOk(s, id);
    }
    forall g | 0 <= g < |s'.frames|
      ensures FrameOk(s', g)
    {
      assert FrameOk(s, g);
    }
  }

  lemma StepData(s: Pool, step: Step)
    requires Inv(s) && Enabled(s, step) && (step.Write? || step.Flush?)
    ensures Inv(Apply(s, step))
  {
    var s' := Apply(s, step);
    DataFrames(s, step);
    forall u | 0 <= u < |s.threads|
      ensures ThreadOk(s', u)
    {
      DataThread(s, step, u);
    }
    hide Inv, FramesInv, ThreadOk, Apart;
    AllApart(s);
    forall f | 0 <= f < |s'.frames| && s'.frames[f].state.Loading?
      ensures Owned(s', f)
    {
      LoadingOwned(s, f);
    }
    Assembled(s');
  }

  lemma AllApart(s: Pool)
    requires Inv(s)
    ensures forall t, u | 0 <= t < u < |s.threads| :: Apart(s.threads[t], s.threads[u])
  {
    hide ThreadOk, Apart, Owned, TableOk, DiskOk, FrameOk;
  }

  /** A frame that some thread still fills is not the one written or flushed. */
  lemma DataThread(s: Pool, step: Step, u: nat)
    requires Inv(s) && Enabled(s, step) && (step.Write? || step.Flush?) && At(s, u)
    ensures ThreadOk(Apply(s, step), u)
  {
    var s' := Apply(s, step);
    assert ThreadOk(s, u);
    if step.Write? {
      var id := s.threads[step.t].id;
      assert ThreadOk(s, step.t) && TableOk(s, id);
    } else {
      assert FrameOk(s, step.f) && TableOk(s, s.frames[step.f].id);
    }
    hide Inv, FrameOk, Apart, Owned;
  }

  lemma StepReturn(s: Pool, step: Step)
    requires Inv(s) && Enabled(s, step) && (step.GiveUp? || step.Discard?)
    ensures Inv(Apply(s, step))
  {
    InvThread(s, step.t);
    var pc := Apply(s, step).threads[step.t];
    hide Inv;
    ReturnInv(s, step.t, pc);
  }

  // ------------------------------------------------------------ whole runs

  lemma StepKeepsInv(s: Pool, step: Step)
    requires Inv(s) && Enabled(s, step)
    ensures Inv(Apply(s, step))
  {
    hide Inv, Apply, Enabled;
    match step {
      case Lookup(_, _) => StepLookup(s, step);
      case Create(_, _) => StepLookup(s, step);
      case Take(_) => StepTake(s, step);
      case Fill(_, _) => StepFill(s, step);
      case Blank(_, _) => StepFill(s, step);
      case GiveUp(_, _) => StepReturn(s, step);
      case Register(_) => StepRegister(s, step);
      case Finish(_) => StepFinish(s, step);
      case Discard(_) => StepReturn(s, step);
      case Again(_) => StepLookup(s, step);
      case Write(_, _) => StepData(s, step);
      case Release(_) => StepLookup(s, step);
      case Flush(_) => StepData(s, step);
    }
  }

  /** The states of a run, one per step and the first. */
  ghost predicate IsRun(states: seq<Pool>, steps: seq<Step>) {
    && |states| == |steps| + 1
    && forall i | 0 <= i < |steps| :: Follows(states, steps, i)
  }

  ghost predicate Follows(states: seq<Pool>, steps: seq<Step>, i: nat)
    requires i < |steps| && i + 1 < |states|
  {
    Enabled(states[i], steps[i]) && states[i + 1] == Apply(states[i], steps[i])
  }

  lemma {:induction false} RunKeepsInv(states: seq<Pool>, steps: seq<Step>, n: nat)
    requires IsRun(states, steps) && Inv(states[0]) && n < |states|
    ensures Inv(states[n])
  {
    hide Inv, Apply, Enabled;
    if n > 0 {
      RunKeepsInv(states, steps, n - 1);
      assert Follows(states, steps, n - 1);
      StepKeepsInv(states[n - 1], steps[n - 1]);
    }
  }

  /** A pool of free frames over a disk is a start. */
  function Start(nrFrames: nat, nrThreads: nat, disk: map<PageId, Content>): Pool {
    Pool(seq(nrFrames, _ => EmptyFrame), map[], seq(nrFrames, i => i), disk, seq(nrThreads, _ => Idle), disk)
  }

  lemma StartInv(nrFrames: nat, nrThreads: nat, disk: map<PageId, Content>)
    ensures Inv(Start(nrFrames, nrThreads, disk))
  {
    var s := Start(nrFrames, nrThreads, disk);
    forall f | 0 <= f < nrFrames
      ensures FrameOk(s, f)
    {
      assert s.free[f] == f;
    }
  }

  /** Two valid frames hold two pages. */
  predicate OneFrame(s: Pool, f: FrameId, g: FrameId) {
    f < |s.frames| && g < |s.frames| && s.frames[f].state.Valid? && s.frames[g].state.Valid? && s.frames[f].id == s.frames[g].id ==> f == g
  }

  /** What a holder reads through its frame is what was last written to the page. */
  predicate ReadsLast(s: Pool, t: nat) {
    At(s, t) && s.threads[t].Has? ==>
      var Has(id, f) := s.threads[t];
      id in s.flat && f < |s.frames| && s.frames[f].content == s.flat[id]
  }

  /** Two holders of a page share a frame. */
  predicate SameFrame(s: Pool, t: nat, u: nat) {
    At(s, t) && At(s, u) && s.threads[t].Has? && s.threads[u].Has? && s.threads[t].id == s.threads[u].id ==>
      s.threads[t].frame == s.threads[u].frame
  }

  /** A page that is not cached, or cached clean, is on disk as last written. */
  predicate OnDisk(s: Pool, id: PageId) {
    id in s.flat && (id in s.table ==> s.table[id] < |s.frames| && !s.frames[s.table[id]].dirty) ==>
      id in s.disk && s.disk[id] == s.flat[id]
  }

  /** In every state of every run: a page has at most one valid frame, all its holders
      have that one, it shows the last write, and no lookup ends in `ENOENT`. */
  lemma Coherent(states: seq<Pool>, steps: seq<Step>, n: nat, nrFrames: nat, nrThreads: nat, disk: map<PageId, Content>)
    requires IsRun(states, steps) && n < |states| && states[0] == Start(nrFrames, nrThreads, disk)
    ensures forall f, g :: OneFrame(states[n], f, g)
    ensures forall t :: ReadsLast(states[n], t)
    ensures forall t, u :: SameFrame(states[n], t, u)
    ensures forall t | 0 <= t < |states[n].threads| :: states[n].threads[t] != Failed(ENOENT)
    ensures forall id :: OnDisk(states[n], id)
  {
    hide Inv, OneFrame, ReadsLast, SameFrame, OnDisk;
    StartInv(nrFrames, nrThreads, disk);
    RunKeepsInv(states, steps, n);
    var s := states[n];
    forall f, g
      ensures OneFrame(s, f, g)
    {
      InvFrames(s, f, g);
    }
    forall t: nat
      ensures ReadsLast(s, t) && (At(s, t) ==> s.threads[t] != Failed(ENOENT))
    {
      InvHolder(s, t, t);
    }
    forall t, u
      ensures SameFrame(s, t, u)
    {
      InvHolder(s, t, u);
    }
    forall id
      ensures OnDisk(s, id)
    {
      InvDisk(s, id);
    }
  }

  lemma InvFrames(s: Pool, f: FrameId, g: FrameId)
    requires Inv(s)
    ensures OneFrame(s, f, g)
  {
    if f < |s.frames| && g < |s.frames| {
      assert FrameOk(s, f) && FrameOk(s, g) by {
        hide FrameOk, ThreadOk, TableOk;
      }
    }
    hide Inv;
  }

  lemma InvHolder(s: Pool, t: nat, u: nat)
    requires Inv(s)
    ensures ReadsLast(s, t) && SameFrame(s, t, u)
    ensures At(s, t) ==> s.threads[t] != Failed(ENOENT)
  {
    hide Inv, ThreadOk, TableOk;
    if At(s, t) {
      InvThread(s, t);
      HolderReads(s, t);
      if At(s, u) {
        InvThread(s, u);
        HoldersShare(s, t, u);
      }
    }
  }

  lemma HolderReads(s: Pool, t: nat)
    requires At(s, t) && ThreadOk(s, t) && (s.threads[t].Has? ==> TableOk(s, s.threads[t].id))
    ensures ReadsLast(s, t) && s.threads[t] != Failed(ENOENT)
  {
  }

  lemma HoldersShare(s: Pool, t: nat, u: nat)
    requires At(s, t) && At(s, u) && ThreadOk(s, t) && ThreadOk(s, u)
    ensures SameFrame(s, t, u)
  {
  }

  lemma InvDisk(s: Pool, id: PageId)
    requires Inv(s)
    ensures OnDisk(s, id)
  {
    assert TableOk(s, id) && DiskOk(s, id);
    hide Inv;
  }

  /** A frame is free and listed, held by a thread that fills it, or the frame of a page:
      none is ever lost. */
  lemma NoFrameLost(s: Pool, f: FrameId)
    requires Inv(s) && f < |s.frames|
    ensures f in s.free || Owned(s, f) || (s.frames[f].id in s.table && s.table[s.frames[f].id] == f)
  {
    assert FrameOk(s, f);
  }
}
