/** What becomes of a call of the buffer pool: in every run a thread that looks up or creates a
    page gets its frame, or fails for a reason that the run shows. */
module BufferFate {
  import opened Basics
  import opened Bytes
  import opened BufferPool

  // ------------------------------------------------------------ one thread

  /** The step is one of thread `t`. */
  predicate By(step: Step, t: nat) { !step.Flush? && step.t == t }

  lemma OthersWait(s: Pool, step: Step, t: nat)
    requires Enabled(s, step) && At(s, t) && !By(step, t)
    ensures At(Apply(s, step), t) && Apply(s, step).threads[t] == s.threads[t]
  {
  }

  /** A call for page `id` that is under way, has succeeded or has failed. */
  predicate InCall(pc: Pc, id: PageId, creating: bool) {
    match pc
    case Idle => false
    case Missed(i, c) => i == id && c == creating
    case Took(i, _, c) => i == id && c == creating
    case Ready(i, _, c) => i == id && c == creating
    case Lost(i, _, c) => i == id && c == creating
    case Installing(i, _) => i == id
    case Retry(i) => i == id && !creating
    case Has(i, _) => i == id
    case Failed(_) => true
  }

  /** Step `k` made thread `t` fail: it found no free frame, or its disk or memory failed. */
  ghost predicate Causes(states: seq<Pool>, steps: seq<Step>, k: nat, t: nat, err: int)
    requires k < |steps| && k < |states|
  {
    steps[k] == GiveUp(t, err) || (steps[k] == Take(t) && states[k].free == [] && err == ENOSPC)
  }

  /** The same for one step. */
  predicate FailsBy(s: Pool, step: Step, t: nat, err: int) {
    step == GiveUp(t, err) || (step == Take(t) && s.free == [] && err == ENOSPC)
  }

  /** A step of a call keeps it on its way; when it fails, it does so by this step, or had
      failed before. */
  lemma CallStep(s: Pool, step: Step, t: nat, id: PageId, creating: bool)
    requires Inv(s) && Enabled(s, step) && By(step, t) && InCall(s.threads[t], id, creating) && step != Release(t)
    ensures var pc := Apply(s, step).threads[t];
      InCall(pc, id, creating) && (pc.Failed? ==> FailsBy(s, step, t, pc.err))
  {
    InvThread(s, t);
    if s.threads[t].Lost? {
      TableAt(s, s.threads[t].id);
    }
    hide Inv;
  }

  /** A lookup starts with a hit or a miss; the creation of a page that does not exist with a
      miss. */
  lemma CallStart(s: Pool, t: nat, id: PageId, creating: bool)
    requires Inv(s) && Enabled(s, if creating then Create(t, id) else Lookup(t, id))
    ensures var pc := Apply(s, if creating then Create(t, id) else Lookup(t, id)).threads[t];
      pc == if id in s.table then Has(id, s.table[id]) else Missed(id, creating)
  {
    TableAt(s, id);
    hide Inv;
  }

  lemma TableAt(s: Pool, id: PageId)
    requires Inv(s)
    ensures TableOk(s, id) && DiskOk(s, id)
  {
    hide TableOk, DiskOk, FrameOk, ThreadOk;
  }

  // ------------------------------------------------------------ whole runs

  /** The call that step `j` starts is not over before step `n`. */
  ghost predicate During(steps: seq<Step>, j: nat, n: nat, t: nat) {
    j < n <= |steps| && forall k | j < k < n :: steps[k] != Release(t)
  }

  /** In every run, from a lookup or a creation until its release: the thread is on its way to
      the page, holds the frame that the table has for it, or has failed because it found no
      free frame or its disk or memory failed. */
  lemma {:induction false} CallFate(states: seq<Pool>, steps: seq<Step>, j: nat, n: nat, t: nat, id: PageId, creating: bool)
    requires IsRun(states, steps) && Inv(states[0]) && During(steps, j, n, t)
    requires steps[j] == if creating then Create(t, id) else Lookup(t, id)
    ensures At(states[n], t) && InCall(states[n].threads[t], id, creating)
    ensures var pc := states[n].threads[t];
      && (pc.Has? ==> id in states[n].table && pc.frame == states[n].table[id])
      && (pc.Failed? ==> exists k | j < k < n :: Causes(states, steps, k, t, pc.err))
    decreases n
  {
    hide Inv, Enabled, Apply;
    assert Follows(states, steps, n - 1);
    RunKeepsInv(states, steps, n - 1);
    RunKeepsInv(states, steps, n);
    if n == j + 1 {
      ThreadStays(states[j], steps[j], t);
      CallStart(states[j], t, id, creating);
    } else {
      CallFate(states, steps, j, n - 1, t, id, creating);
      ThreadStays(states[n - 1], steps[n - 1], t);
      var s, step := states[n - 1], steps[n - 1];
      if By(step, t) {
        CallStep(s, step, t, id, creating);
        if states[n].threads[t].Failed? {
          assert Causes(states, steps, n - 1, t, states[n].threads[t].err);
        }
      } else {
        OthersWait(s, step, t);
      }
    }
    InvThread(states[n], t);
  }

  lemma ThreadStays(s: Pool, step: Step, t: nat)
    requires Enabled(s, step) && (By(step, t) || At(s, t))
    ensures At(s, t) && At(Apply(s, step), t)
  {
  }

  // ------------------------------------------------------- getting there

  datatype Reach = Nothing | Reach(pool: Pool)

  /** Where these steps lead, if each can be taken. */
  function Follow(s: Pool, steps: seq<Step>): Reach
    decreases |steps|
  {
    if steps == [] then Reach(s) else if Enabled(s, steps[0]) then Follow(Apply(s, steps[0]), steps[1..]) else Nothing
  }

  function LoadSteps(t: nat, id: PageId, torn: Content): seq<Step> { [Lookup(t, id), Take(t), Fill(t, torn), Register(t), Finish(t)] }

  /** A loader that nobody disturbs gets the cached frame at once; it fails when no frame is
      free; otherwise it takes the first free one, which then holds the page as last written. */
  lemma LoadAlone(s: Pool, t: nat, id: PageId, torn: Content)
    requires Inv(s) && At(s, t) && s.threads[t].Idle? && id in s.flat
    ensures id in s.table ==> Follow(s, [Lookup(t, id)]) == Reach(s.(threads := s.threads[t := Has(id, s.table[id])]))
    ensures id !in s.table && s.free == [] ==>
      Follow(s, [Lookup(t, id), Take(t)]) == Reach(s.(threads := s.threads[t := Failed(ENOSPC)]))
    ensures id !in s.table && s.free != [] ==>
      var f, r := s.free[0], Follow(s, LoadSteps(t, id, torn));
      f < |s.frames| && r.Reach? && Installed(s, r.pool, t, id, f, s.flat[id]) && r.pool.flat == s.flat && r.pool.disk == s.disk
  {
    hide Inv, Follow, Apply, Enabled;
    TableAt(s, id);
    FreeBound(s);
    Looks(s, t, id);
    One(s, Lookup(t, id));
    if id !in s.table {
      var a := Goto(s, t, Missed(id, false));
      Takes(s, t, id, false);
      if s.free == [] {
        Two(s, Lookup(t, id), Take(t));
      } else {
        var f := s.free[0];
        Fills(s, t, id, torn);
        Installs(s, t, id, s.disk[id], false);
        Five(s, a, Mid(s, t, Took(id, f, false), Frame(Loading, id, [], false)),
             Mid(s, t, Ready(id, f, false), Frame(Loading, id, s.disk[id], false)),
             Mid(s, t, Installing(id, f), Frame(Loading, id, s.disk[id], false)).(table := s.table[id := f]),
             Lookup(t, id), Take(t), Fill(t, torn), Register(t), Finish(t));
      }
    }
  }

  /** The first free frame is taken and is this one, and thread `t` is at `pc`. */
  function Mid(s: Pool, t: nat, pc: Pc, frame: Frame): Pool
    requires At(s, t) && s.free != [] && s.free[0] < |s.frames|
  {
    s.(free := s.free[1..], frames := s.frames[s.free[0] := frame], threads := s.threads[t := pc])
  }

  lemma Looks(s: Pool, t: nat, id: PageId)
    requires At(s, t) && s.threads[t].Idle? && id in s.flat
    ensures Enabled(s, Lookup(t, id))
    ensures Apply(s, Lookup(t, id)) == Goto(s, t, if id in s.table then Has(id, s.table[id]) else Missed(id, false))
  {
  }

  lemma Takes(s: Pool, t: nat, id: PageId, creating: bool)
    requires At(s, t) && (s.free != [] ==> s.free[0] < |s.frames|)
    ensures var a := Goto(s, t, Missed(id, creating));
      && Enabled(a, Take(t))
      && Apply(a, Take(t)) == if s.free == [] then Goto(s, t, Failed(ENOSPC))
                              else Mid(s, t, Took(id, s.free[0], creating), Frame(Loading, id, [], false))
  {
    assert s.threads[t := Missed(id, creating)][t := Failed(ENOSPC)] == s.threads[t := Failed(ENOSPC)];
  }

  lemma Fills(s: Pool, t: nat, id: PageId, torn: Content)
    requires At(s, t) && s.free != [] && s.free[0] < |s.frames| && id !in s.table && id in s.disk
    ensures var f := s.free[0]; var b := Mid(s, t, Took(id, f, false), Frame(Loading, id, [], false));
      Enabled(b, Fill(t, torn)) && Apply(b, Fill(t, torn)) == Mid(s, t, Ready(id, f, false), Frame(Loading, id, s.disk[id], false))
  {
  }

  lemma Blanks(s: Pool, t: nat, id: PageId, zero: Content)
    requires At(s, t) && s.free != [] && s.free[0] < |s.frames|
    ensures var f := s.free[0]; var b := Mid(s, t, Took(id, f, true), Frame(Loading, id, [], false));
      && Enabled(b, Blank(t, zero))
      && Apply(b, Blank(t, zero)) == Mid(s, t, Ready(id, f, true), Frame(Loading, id, zero, false)).(disk := s.disk[id := zero])
  {
  }

  /** Registering and finishing, for a page that nobody else has registered. */
  lemma Installs(s: Pool, t: nat, id: PageId, c: Content, creating: bool)
    requires At(s, t) && s.free != [] && s.free[0] < |s.frames| && id !in s.table
    ensures var f := s.free[0]; var flat := if creating then s.flat[id := c] else s.flat;
      var ready, mid := Mid(s, t, Ready(id, f, creating), Frame(Loading, id, c, false)),
                        Mid(s, t, Installing(id, f), Frame(Loading, id, c, false)).(table := s.table[id := f], flat := flat);
      && Enabled(ready, Register(t)) && Apply(ready, Register(t)) == mid
      && Enabled(mid, Finish(t))
      && Apply(mid, Finish(t)) == Mid(s, t, Has(id, f), Frame(Valid, id, c, false)).(table := s.table[id := f], flat := flat)
  {
  }

  /** Frame `f` left the free list and holds page `id` with this content; thread `t` has it. */
  predicate Installed(s: Pool, s': Pool, t: nat, id: PageId, f: FrameId, c: Content)
    requires f < |s.frames|
  {
    && At(s, t) && s'.threads == s.threads[t := Has(id, f)] && s'.frames == s.frames[f := Frame(Valid, id, c, false)]
    && s'.table == s.table[id := f] && s.free == [f] + s'.free
  }

  lemma One(s: Pool, a: Step)
    requires Enabled(s, a)
    ensures Follow(s, [a]) == Reach(Apply(s, a))
  {
    hide Enabled, Apply;
    assert [a][1..] == [];
  }

  lemma Two(s: Pool, a: Step, b: Step)
    requires Enabled(s, a) && Enabled(Apply(s, a), b)
    ensures Follow(s, [a, b]) == Reach(Apply(Apply(s, a), b))
  {
    hide Enabled, Apply;
    assert [a, b][1..] == [b];
    One(Apply(s, a), b);
  }

  lemma Five(s: Pool, s1: Pool, s2: Pool, s3: Pool, s4: Pool, a: Step, b: Step, c: Step, d: Step, e: Step)
    requires Enabled(s, a) && s1 == Apply(s, a) && Enabled(s1, b) && s2 == Apply(s1, b) && Enabled(s2, c) && s3 == Apply(s2, c)
    requires Enabled(s3, d) && s4 == Apply(s3, d) && Enabled(s4, e)
    ensures Follow(s, [a, b, c, d, e]) == Reach(Apply(s4, e))
  {
    hide Enabled, Apply;
    assert [a, b, c, d, e][1..] == [b, c, d, e] && [b, c, d, e][1..] == [c, d, e] && [c, d, e][1..] == [d, e];
    assert Follow(s3, [d, e]) == Reach(Apply(s4, e)) by { Two(s3, d, e); }
    assert Follow(s2, [c, d, e]) == Follow(s3, [d, e]);
    assert Follow(s1, [b, c, d, e]) == Follow(s2, [c, d, e]);
  }

  function CreateSteps(t: nat, id: PageId, zero: Content): seq<Step> { [Create(t, id), Take(t), Blank(t, zero), Register(t), Finish(t)] }

  /** A creation that nobody disturbs: the new page is in the first free frame and on disk. */
  lemma CreateAlone(s: Pool, t: nat, id: PageId, zero: Content)
    requires Inv(s) && Enabled(s, Create(t, id)) && s.free != []
    ensures var f, r := s.free[0], Follow(s, CreateSteps(t, id, zero));
      && f < |s.frames| && r.Reach? && Installed(s, r.pool, t, id, f, zero)
      && r.pool.flat == s.flat[id := zero] && r.pool.disk == s.disk[id := zero]
  {
    hide Inv, Follow, Apply;
    TableAt(s, id);
    FreeBound(s);
    Creates1(s, t, id);
    hide Enabled;
    var f, s1 := s.free[0], s.(disk := s.disk[id := zero]);
    Takes(s, t, id, true);
    Blanks(s, t, id, zero);
    Installs(s1, t, id, zero, true);
    Five(s, Goto(s, t, Missed(id, true)), Mid(s, t, Took(id, f, true), Frame(Loading, id, [], false)),
         Mid(s1, t, Ready(id, f, true), Frame(Loading, id, zero, false)),
         Mid(s1, t, Installing(id, f), Frame(Loading, id, zero, false)).(table := s.table[id := f], flat := s.flat[id := zero]),
         Create(t, id), Take(t), Blank(t, zero), Register(t), Finish(t));
  }

  lemma Creates1(s: Pool, t: nat, id: PageId)
    requires Enabled(s, Create(t, id)) && id !in s.table
    ensures Apply(s, Create(t, id)) == Goto(s, t, Missed(id, true))
  {
  }

  /** A loader that lost the race gives its frame back and gets the winner's. */
  lemma LoserGets(s: Pool, t: nat)
    requires Inv(s) && At(s, t) && s.threads[t].Lost? && !s.threads[t].creating
    ensures var Lost(id, f, _) := s.threads[t];
      && id in s.table && f < |s.frames|
      && Follow(s, [Discard(t), Again(t)])
         == Reach(s.(frames := s.frames[f := EmptyFrame], free := s.free + [f], threads := s.threads[t := Has(id, s.table[id])]))
  {
    InvThread(s, t);
    hide Inv, Follow;
    Two(s, Discard(t), Again(t));
    var Lost(id, f, _) := s.threads[t];
    assert s.threads[t := Retry(id)][t := Has(id, s.table[id])] == s.threads[t := Has(id, s.table[id])];
  }

  /** A holder writes its page and lets it go. */
  lemma HolderWrites(s: Pool, t: nat, c: Content)
    requires Inv(s) && At(s, t) && s.threads[t].Has?
    ensures var Has(id, f) := s.threads[t];
      && f < |s.frames|
      && Follow(s, [Write(t, c), Release(t)])
         == Reach(s.(frames := s.frames[f := s.frames[f].(content := c, dirty := true)], flat := s.flat[id := c], threads := s.threads[t := Idle]))
  {
    hide Inv, Follow, Apply, Enabled;
    HolderFrame(s, t);
    var Has(id, f) := s.threads[t];
    Writes(s, t, id, f, c);
    Releases(s.(frames := s.frames[f := s.frames[f].(content := c, dirty := true)], flat := s.flat[id := c]), t);
    Two(s, Write(t, c), Release(t));
  }

  lemma HolderFrame(s: Pool, t: nat)
    requires Inv(s) && At(s, t) && s.threads[t].Has?
    ensures s.threads[t].frame < |s.frames|
  {
    InvThread(s, t);
    hide Inv;
  }

  lemma Writes(s: Pool, t: nat, id: PageId, f: FrameId, c: Content)
    requires At(s, t) && s.threads[t] == Has(id, f) && f < |s.frames|
    ensures Enabled(s, Write(t, c))
    ensures Apply(s, Write(t, c)) == s.(frames := s.frames[f := s.frames[f].(content := c, dirty := true)], flat := s.flat[id := c])
  {
  }

  lemma Releases(s: Pool, t: nat)
    requires At(s, t) && s.threads[t].Has?
    ensures Enabled(s, Release(t)) && Apply(s, Release(t)) == s.(threads := s.threads[t := Idle])
  {
  }

  lemma FreeBound(s: Pool)
    requires Inv(s)
    ensures s.free != [] ==> s.free[0] < |s.frames|
  {
    hide ThreadOk, TableOk, DiskOk, FrameOk;
  }

  // -------------------------------------------------------- what pages hold

  /** What the run has put into pages: the content that a creation registers, and after it
      what holders write. */
  ghost function Contents(states: seq<Pool>, steps: seq<Step>, n: nat): map<PageId, Content>
    requires IsRun(states, steps) && n < |states|
  {
    if n == 0 then states[0].flat
    else
      var m, s := Contents(states, steps, n - 1), states[n - 1];
      assert Follows(states, steps, n - 1);
      match steps[n - 1]
      case Write(t, c) => m[s.threads[t].id := c]
      case Register(t) =>
        var pc := s.threads[t];
        if pc.creating && pc.id !in s.table && pc.frame < |s.frames| then m[pc.id := s.frames[pc.frame].content] else m
      case _ => m
  }

  /** In every state of every run: a page's valid frame, and the disk unless that frame is
      dirty, hold what the run last put into the page. */
  lemma {:induction false} HoldsLast(states: seq<Pool>, steps: seq<Step>, n: nat)
    requires IsRun(states, steps) && Inv(states[0]) && n < |states|
    ensures Inv(states[n]) && states[n].flat == Contents(states, steps, n)
  {
    hide Inv, Apply, Enabled;
    RunKeepsInv(states, steps, n);
    if n > 0 {
      HoldsLast(states, steps, n - 1);
      assert Follows(states, steps, n - 1);
      if steps[n - 1].Register? {
        RegisterFlat(states[n - 1], steps[n - 1]);
      } else {
        OtherFlat(states[n - 1], steps[n - 1]);
      }
    }
  }

  lemma RegisterFlat(s: Pool, step: Step)
    requires Inv(s) && Enabled(s, step) && step.Register?
    ensures var pc := s.threads[step.t];
      && pc.frame < |s.frames|
      && Apply(s, step).flat == if pc.creating && pc.id !in s.table then s.flat[pc.id := s.frames[pc.frame].content] else s.flat
  {
    InvThread(s, step.t);
    hide Inv;
  }

  lemma OtherFlat(s: Pool, step: Step)
    requires Enabled(s, step) && !step.Register?
    ensures Apply(s, step).flat == if step.Write? then s.flat[s.threads[step.t].id := step.content] else s.flat
  {
  }

  /** A page in its frame, and on disk unless the frame is dirty, is what the run last put
      there. */
  lemma PageHolds(states: seq<Pool>, steps: seq<Step>, n: nat, id: PageId)
    requires IsRun(states, steps) && Inv(states[0]) && n < |states| && id in Contents(states, steps, n)
    ensures var s, c := states[n], Contents(states, steps, n)[id];
      && (id in s.table ==> s.table[id] < |s.frames| && s.frames[s.table[id]].content == c)
      && (id !in s.table || !s.frames[s.table[id]].dirty ==> id in s.disk && s.disk[id] == c)
  {
    HoldsLast(states, steps, n);
    TableAt(states[n], id);
    hide Inv, Contents;
  }

  /** Writing back a frame makes its page the same on disk, until it is written again. */
  lemma FlushStores(s: Pool, f: FrameId)
    requires Inv(s) && Enabled(s, Flush(f))
    ensures var s', id := Apply(s, Flush(f)), s.frames[f].id;
      && id in s.flat && s'.disk == s.disk[id := s.flat[id]] && !s'.frames[f].dirty
      && s'.table == s.table && s'.free == s.free && s'.threads == s.threads
  {
    FrameAt(s, f);
    TableAt(s, s.frames[f].id);
    hide Inv;
  }

  lemma FrameAt(s: Pool, f: FrameId)
    requires Inv(s) && f < |s.frames|
    ensures FrameOk(s, f)
  {
    hide ThreadOk, TableOk, DiskOk, FrameOk;
  }
}
