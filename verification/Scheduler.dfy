/** Priority scheduling with aging on one CPU: who runs, and how soon. */
module Scheduler {

  const INT_MIN: int := -0x8000_0000
  const INT_MAX: int := 0x7fff_ffff

  type Prios = seq<int>

  // -------------------------------------------------- one tick on priorities

  /** The first of the highest among the first `n`. */
  function BestUpTo(ps: Prios, n: nat): (b: nat)
    requires 0 < n <= |ps|
    ensures b < n
    ensures forall q | 0 <= q < n :: ps[q] <= ps[b]
    ensures forall q | 0 <= q < b :: ps[q] < ps[b]
  {
    if n == 1 then 0
    else
      var b := BestUpTo(ps, n - 1);
      if ps[n - 1] > ps[b] then n - 1 else b
  }

  function Best(ps: Prios): nat
    requires ps != []
  {
    BestUpTo(ps, |ps|)
  }

  /** Everyone but the one that ran moves up. */
  function Aged(ps: Prios): (r: Prios)
    requires ps != []
    ensures |r| == |ps|
  {
    seq(|ps|, q requires 0 <= q < |ps| => if q == Best(ps) then ps[q] else ps[q] + 1)
  }

  function After(ps: Prios, n: nat): (r: Prios)
    requires ps != []
    ensures |r| == |ps|
    decreases n
  {
    if n == 0 then ps else After(Aged(ps), n - 1)
  }

  // ---------------------------------------------------------- waiting time

  /** How often `q` will still be preferred to `p`; ties go to the earlier one. */
  function Ahead(ps: Prios, p: nat, q: nat): nat
    requires p < |ps| && q < |ps|
  {
    var lead := ps[q] - ps[p] + if q < p then 1 else 0;
    if q == p || lead < 0 then 0 else lead
  }

  function WaitUpTo(ps: Prios, p: nat, n: nat): nat
    requires p < |ps| && n <= |ps|
  {
    if n == 0 then 0 else WaitUpTo(ps, p, n - 1) + Ahead(ps, p, n - 1)
  }

  function Wait(ps: Prios, p: nat): nat
    requires p < |ps|
  {
    WaitUpTo(ps, p, |ps|)
  }

  lemma {:induction false} WaitZero(ps: Prios, p: nat, n: nat)
    requires p < |ps| && n <= |ps|
    ensures WaitUpTo(ps, p, n) == 0 <==> forall q | 0 <= q < n :: Ahead(ps, p, q) == 0
  {
    if n > 0 {
      WaitZero(ps, p, n - 1);
    }
  }

  lemma BestIffNoneAhead(ps: Prios, p: nat)
    requires p < |ps|
    ensures Best(ps) == p <==> forall q | 0 <= q < |ps| :: Ahead(ps, p, q) == 0
  {
    if Best(ps) != p {
      assert Ahead(ps, p, Best(ps)) > 0;
    }
  }

  /** Only the one that ran loses its lead, by one. */
  lemma AheadAfterTick(ps: Prios, p: nat, q: nat)
    requires p < |ps| && q < |ps| && Best(ps) != p
    ensures Ahead(Aged(ps), p, q) == Ahead(ps, p, q) - if q == Best(ps) then 1 else 0
  {
    hide BestUpTo;
  }

  lemma {:induction false} WaitAfterTick(ps: Prios, p: nat, n: nat)
    requires p < |ps| && n <= |ps| && Best(ps) != p
    ensures WaitUpTo(Aged(ps), p, n) == WaitUpTo(ps, p, n) - if Best(ps) < n then 1 else 0
  {
    hide Best, Aged, Ahead;
    if n > 0 {
      WaitAfterTick(ps, p, n - 1);
      AheadAfterTick(ps, p, n - 1);
    }
  }

  /** `p` first runs exactly `Wait(ps, p)` ticks from now, counting from zero. */
  lemma {:induction false} FirstRun(ps: Prios, p: nat)
    requires p < |ps|
    ensures Best(After(ps, Wait(ps, p))) == p
    ensures forall k | 0 <= k < Wait(ps, p) :: Best(After(ps, k)) != p
    decreases Wait(ps, p)
  {
    hide Best, Aged, Ahead;
    WaitZero(ps, p, |ps|);
    BestIffNoneAhead(ps, p);
    if Best(ps) != p {
      WaitAfterTick(ps, p, |ps|);
      BestInRange(ps);
      FirstRun(Aged(ps), p);
      forall k | 0 <= k < Wait(ps, p)
        ensures Best(After(ps, k)) != p
      {
        if k > 0 {
          assert After(ps, k) == After(Aged(ps), k - 1);
        }
      }
    }
  }

  lemma BestInRange(ps: Prios)
    requires ps != []
    ensures Best(ps) < |ps|
  {
  }

  // ------------------------------------------------------ bound and spread

  function Gap(ps: Prios, p: nat, q: nat): nat
    requires p < |ps| && q < |ps|
  {
    if q == p || ps[q] - ps[p] + 1 < 0 then 0 else ps[q] - ps[p] + 1
  }

  function GapsUpTo(ps: Prios, p: nat, n: nat): nat
    requires p < |ps| && n <= |ps|
  {
    if n == 0 then 0 else GapsUpTo(ps, p, n - 1) + Gap(ps, p, n - 1)
  }

  lemma {:induction false} WaitBound(ps: Prios, p: nat, n: nat)
    requires p < |ps| && n <= |ps|
    ensures WaitUpTo(ps, p, n) <= GapsUpTo(ps, p, n)
  {
    if n > 0 {
      WaitBound(ps, p, n - 1);
    }
  }

  /** No starvation: `p` runs within one tick more than the sum of the leads over it. */
  lemma NoStarvation(ps: Prios, p: nat)
    requires p < |ps|
    ensures exists k | 0 <= k < 1 + GapsUpTo(ps, p, |ps|) :: Best(After(ps, k)) == p
  {
    hide Best, After, WaitUpTo, GapsUpTo;
    FirstRun(ps, p);
    WaitBound(ps, p, |ps|);
    assert Best(After(ps, Wait(ps, p))) == p;
  }

  /** No two priorities are more than `d` apart. */
  predicate Within(ps: Prios, d: nat) { forall q, r | 0 <= q < |ps| && 0 <= r < |ps| :: ps[q] - ps[r] <= d }

  lemma SpreadTick(ps: Prios, d: nat)
    requires ps != [] && d >= 1 && Within(ps, d)
    ensures Within(Aged(ps), d)
  {
    forall q, r | 0 <= q < |ps| && 0 <= r < |ps|
      ensures Aged(ps)[q] - Aged(ps)[r] <= d
    {
      assert ps[q] - ps[r] <= d && ps[q] <= ps[Best(ps)] && ps[r] <= ps[Best(ps)];
    }
  }

  /** The spread never exceeds what it was, or one. */
  lemma {:induction false} SpreadKept(ps: Prios, d: nat, n: nat)
    requires ps != [] && d >= 1 && Within(ps, d)
    ensures Within(After(ps, n), d)
    decreases n
  {
    hide Aged, Within;
    if n > 0 {
      SpreadTick(ps, d);
      SpreadKept(Aged(ps), d, n - 1);
    }
  }

  lemma {:induction false} WaitInSpread(ps: Prios, p: nat, d: nat, n: nat)
    requires p < |ps| && n <= |ps| && Within(ps, d)
    ensures WaitUpTo(ps, p, n) <= (d + 1) * (if p < n then n - 1 else n)
  {
    if n > 0 {
      WaitInSpread(ps, p, d, n - 1);
      assert ps[n - 1] - ps[p] <= d;
      assert Ahead(ps, p, n - 1) <= if n - 1 == p then 0 else d + 1;
      Distribute(d + 1, if p < n - 1 then n - 2 else n - 1);
    }
  }

  lemma Distribute(a: nat, b: int)
    ensures a * (b + 1) == a * b + a
  {
  }

  lemma {:induction false} AfterSum(ps: Prios, m: nat, n: nat)
    requires ps != []
    ensures After(After(ps, m), n) == After(ps, m + n)
    decreases m
  {
    hide Aged;
    if m > 0 {
      AfterSum(Aged(ps), m - 1, n);
    }
  }

  /** At any time, whatever has run, every process runs within the next
      1 + (d + 1) * (processes - 1) ticks. */
  lemma RunsForever(ps: Prios, p: nat, d: nat, now: nat)
    requires p < |ps| && d >= 1 && Within(ps, d)
    ensures exists k | now <= k <= now + (d + 1) * (|ps| - 1) :: Best(After(ps, k)) == p
  {
    hide Best, After, WaitUpTo, Within;
    SpreadKept(ps, d, now);
    var qs := After(ps, now);
    WaitInSpread(qs, p, d, |qs|);
    FirstRun(qs, p);
    AfterSum(ps, now, Wait(qs, p));
    assert Best(After(ps, now + Wait(qs, p))) == p;
  }

  // ------------------------------------------------------------ the queue

  datatype Proc = Proc(pid: nat, prio: int, running: bool, lastRun: nat, runtime: nat, wait: nat)

  datatype Option<T> = None | Some(value: T)

  function PriosOf(procs: seq<Proc>): (r: Prios)
    ensures |r| == |procs|
  {
    seq(|procs|, i requires 0 <= i < |procs| => procs[i].prio)
  }

  /** The accounting of a tick for one process. */
  function Charged(p: Proc, executed: nat, elapsed: nat): Proc {
    if p.pid == executed then p.(lastRun := elapsed, runtime := p.runtime + elapsed, wait := 0)
    else p.(wait := p.wait + elapsed, prio := p.prio + 1)
  }

  // ------------------------------------------------------- time accounting

  function Sum(xs: seq<nat>): nat { if xs == [] then 0 else Sum(xs[..|xs| - 1]) + xs[|xs| - 1] }

  /** How long `p` ran over a run of ticks. */
  function RanFor(ran: seq<nat>, elapsed: seq<nat>, p: nat): nat
    requires |ran| == |elapsed|
  {
    if ran == [] then 0
    else
      var n := |ran| - 1;
      RanFor(ran[..n], elapsed[..n], p) + if ran[n] == p then elapsed[n] else 0
  }

  /** How long `p` has waited since it last ran, or had waited `w` before and has not run. */
  function WaitedFor(w: nat, ran: seq<nat>, elapsed: seq<nat>, p: nat): nat
    requires |ran| == |elapsed|
  {
    if ran == [] then w
    else
      var n := |ran| - 1;
      if ran[n] == p then 0 else WaitedFor(w, ran[..n], elapsed[..n], p) + elapsed[n]
  }

  /** What its last turn took, or `l` when it has not run. */
  function LastTurn(l: nat, ran: seq<nat>, elapsed: seq<nat>, p: nat): nat
    requires |ran| == |elapsed|
  {
    if ran == [] then l
    else
      var n := |ran| - 1;
      if ran[n] == p then elapsed[n] else LastTurn(l, ran[..n], elapsed[..n], p)
  }

  /** The accounts of process `p` after a run. */
  ghost predicate Accounted(before: Proc, after: Proc, ran: seq<nat>, elapsed: seq<nat>, p: nat)
    requires |ran| == |elapsed|
  {
    && after.pid == before.pid
    && after.runtime == before.runtime + RanFor(ran, elapsed, p)
    && after.wait == WaitedFor(before.wait, ran, elapsed, p)
    && after.lastRun == LastTurn(before.lastRun, ran, elapsed, p)
  }

  lemma AccountTick(before: Proc, now: Proc, after: Proc, ran: seq<nat>, elapsed: seq<nat>, k: nat, best: nat, executed: nat, p: nat)
    requires |ran| == k < |elapsed| && Accounted(before, now, ran, elapsed[..k], p)
    requires after == Charged(now, executed, elapsed[k]) && (now.pid == executed <==> p == best)
    ensures Accounted(before, after, ran + [best], elapsed[..k + 1], p)
  {
    var more, es := ran + [best], elapsed[..k + 1];
    assert more[..k] == ran && es[..k] == elapsed[..k];
  }

  class RunQueue {
    var procs: seq<Proc>
    var curr: Option<nat>
    var total: nat
    var schedules: nat
    const onlineCpus: nat

    /** Between ticks no process runs and none is held over. */
    ghost predicate Idle()
      reads this
    {
      && curr == None
      && (forall i | 0 <= i < |procs| :: !procs[i].running && INT_MIN < procs[i].prio)
      && (forall i, j | 0 <= i < j < |procs| :: procs[i].pid != procs[j].pid)
    }

    constructor (onlineCpus: nat)
      ensures Idle() && procs == []
    {
      procs, curr, total, schedules := [], None, 0, 0;
      this.onlineCpus := onlineCpus;
    }

    /** Adds a system process at the end of the list. */
    method Register(pid: nat, prio: int)
      requires Idle() && INT_MIN < prio && forall i | 0 <= i < |procs| :: procs[i].pid != pid
      modifies this
      ensures Idle() && procs == old(procs) + [Proc(pid, prio, false, 0, 0, 0)]
    {
      procs := procs + [Proc(pid, prio, false, 0, 0, 0)];
    }

    /** The scan for the highest priority among the processes that do not run. */
    method Select() returns (best: Option<nat>)
      requires Idle()
      ensures best == if procs == [] then None else Some(Best(PriosOf(procs)))
    {
      best := None;
      var bestPrio := INT_MIN;
      var i := 0;
      while i < |procs|
        invariant 0 <= i <= |procs|
        invariant i == 0 ==> best == None && bestPrio == INT_MIN
        invariant i > 0 ==> best == Some(BestUpTo(PriosOf(procs), i)) && bestPrio == procs[best.value].prio
      {
        if !procs[i].running && procs[i].prio > bestPrio {
          bestPrio := procs[i].prio;
          best := Some(i);
        }
        i := i + 1;
      }
    }

    /** Ages everyone but the one that ran. */
    method UpdateWaitTime(elapsed: nat, executed: nat)
      modifies this`procs
      ensures |procs| == |old(procs)|
      ensures forall i | 0 <= i < |procs| :: procs[i] == Charged(old(procs)[i], executed, elapsed)
    {
      var i := 0;
      while i < |procs|
        invariant 0 <= i <= |procs| == |old(procs)|
        invariant forall j | 0 <= j < i :: procs[j] == Charged(old(procs)[j], executed, elapsed)
        invariant forall j | i <= j < |procs| :: procs[j] == old(procs)[j]
      {
        var p := procs[i];
        if p.pid == executed {
          procs := procs[i := p.(lastRun := elapsed, runtime := p.runtime + elapsed, wait := 0)];
        } else {
          procs := procs[i := p.(wait := p.wait + elapsed, prio := p.prio + 1)];
        }
        i := i + 1;
      }
    }

    /** The process held over from the last tick, when it may go on without a scan. */
    method HeldOver() returns (held: Option<nat>)
      requires curr.Some? ==> curr.value < |procs|
      ensures held.Some? <==> |procs| < onlineCpus && curr.Some? && !procs[curr.value].running
      ensures held.Some? ==> held == curr
    {
      held := if |procs| < onlineCpus && curr.Some? && !procs[curr.value].running then curr else None;
    }

    /** One tick that takes `elapsed`. It always scans, it runs the best process, and
        it ages the others. */
    method Schedule(elapsed: nat) returns (ran: Option<nat>, fast: bool)
      requires Idle() && forall i | 0 <= i < |procs| :: procs[i].prio < INT_MAX
      modifies this
      ensures Idle() && !fast
      ensures ran == if old(procs) == [] then None else Some(Best(PriosOf(old(procs))))
      ensures old(procs) != [] ==> PriosOf(procs) == Aged(PriosOf(old(procs)))
      ensures ran.None? ==> procs == [] && total == old(total) && schedules == old(schedules)
      ensures ran.Some? ==> |procs| == |old(procs)| && total == old(total) + elapsed && schedules == old(schedules) + 1
      ensures ran.Some? ==> forall i | 0 <= i < |procs| :: procs[i] == Charged(old(procs)[i], old(procs)[ran.value].pid, elapsed)
    {
      var held := HeldOver();
      fast := held.Some?;
      if fast {
        ran := held;
      } else {
        ran := Select();
      }
      if ran.None? {
        return;
      }
      var best := ran.value;
      BestInRange(PriosOf(procs));
      ghost var before := procs;
      procs := procs[best := procs[best].(running := true)];
      curr := ran;
      // The selected process runs here.
      UpdateWaitTime(elapsed, procs[best].pid);
      total := total + elapsed;
      procs := procs[best := procs[best].(running := false)];
      if !fast {
        curr := None;
      }
      schedules := schedules + 1;
      TickAges(before, procs, best, elapsed);
    }

    /** A run of ticks follows the priorities: who ran at each of them. */
    method ScheduleMany(elapsed: seq<nat>) returns (ran: seq<nat>)
      requires Idle() && procs != []
      requires forall i | 0 <= i < |procs| :: procs[i].prio + |elapsed| < INT_MAX
      modifies this
      ensures Idle() && |ran| == |elapsed| && |procs| == |old(procs)|
      ensures PriosOf(procs) == After(PriosOf(old(procs)), |elapsed|)
      ensures forall k | 0 <= k < |ran| :: ran[k] == Best(After(PriosOf(old(procs)), k))
      ensures forall p | 0 <= p < |procs| :: Accounted(old(procs)[p], procs[p], ran, elapsed, p)
      ensures total == old(total) + Sum(elapsed) && schedules == old(schedules) + |elapsed|
    {
      hide Best, Aged, After, RunQueue.Idle, Accounted;
      AccountsStart(procs);
      ghost var ps := PriosOf(procs);
      ran := [];
      AfterZero(ps);
      for k := 0 to |elapsed|
        invariant Idle() && |procs| == |ps| && |ran| == k
        invariant PriosOf(procs) == After(ps, k)
        invariant forall i | 0 <= i < |procs| :: procs[i].prio + |elapsed| - k < INT_MAX
        invariant forall j | 0 <= j < k :: ran[j] == Best(After(ps, j))
        invariant forall p | 0 <= p < |procs| :: Accounted(old(procs)[p], procs[p], ran, elapsed[..k], p)
        invariant total == old(total) + Sum(elapsed[..k]) && schedules == old(schedules) + k
      {
        ghost var before, told := procs, ran;
        Pids();
        var r, _ := Schedule(elapsed[k]);
        BestInRange(PriosOf(before));
        ran := ran + [r.value];
        AfterOne(ps, k);
        AccountsTick(old(procs), before, procs, told, elapsed, k, r.value);
        assert elapsed[..k + 1][..k] == elapsed[..k];
      }
      assert elapsed[..|elapsed|] == elapsed;
    }

    lemma Pids()
      requires Idle()
      ensures forall i, j | 0 <= i < j < |procs| :: procs[i].pid != procs[j].pid
    {
    }
  }

  lemma AccountsStart(procs: seq<Proc>)
    ensures forall p | 0 <= p < |procs| :: Accounted(procs[p], procs[p], [], [], p)
  {
  }

  lemma AccountsTick(before: seq<Proc>, now: seq<Proc>, after: seq<Proc>, ran: seq<nat>, elapsed: seq<nat>, k: nat, best: nat)
    requires |before| == |now| == |after| && best < |now| && |ran| == k < |elapsed|
    requires forall i, j | 0 <= i < j < |now| :: now[i].pid != now[j].pid
    requires forall p | 0 <= p < |now| :: Accounted(before[p], now[p], ran, elapsed[..k], p)
    requires forall p | 0 <= p < |now| :: after[p] == Charged(now[p], now[best].pid, elapsed[k])
    ensures forall p | 0 <= p < |now| :: Accounted(before[p], after[p], ran + [best], elapsed[..k + 1], p)
  {
    hide Accounted, Charged;
    forall p | 0 <= p < |now|
      ensures Accounted(before[p], after[p], ran + [best], elapsed[..k + 1], p)
    {
      AccountTick(before[p], now[p], after[p], ran, elapsed, k, best, now[best].pid, p);
    }
  }

  lemma AfterZero(ps: Prios)
    requires ps != []
    ensures After(ps, 0) == ps
  {
  }

  lemma AfterOne(ps: Prios, k: nat)
    requires ps != []
    ensures After(ps, k + 1) == Aged(After(ps, k))
  {
    hide Aged;
    AfterSum(ps, k, 1);
    AfterZero(Aged(After(ps, k)));
    assert After(After(ps, k), 1) == After(Aged(After(ps, k)), 0);
  }

  lemma TickAges(before: seq<Proc>, after: seq<Proc>, best: nat, elapsed: nat)
    requires before != [] && |after| == |before| && best == Best(PriosOf(before))
    requires forall i, j | 0 <= i < j < |before| :: before[i].pid != before[j].pid
    requires best < |before|
    requires forall i | 0 <= i < |after| :: after[i] == Charged(before[i], before[best].pid, elapsed)
    ensures PriosOf(after) == Aged(PriosOf(before))
  {
    hide BestUpTo;
    var ps := PriosOf(before);
    forall i | 0 <= i < |after|
      ensures PriosOf(after)[i] == Aged(ps)[i]
    {
      assert i != best ==> before[i].pid != before[best].pid;
    }
  }
}
