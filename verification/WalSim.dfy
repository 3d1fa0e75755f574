/** The counters of the log: how every step moves them, which steps lose bytes and which
    records get numbers out of order, all by the state before and the steps. */
module WalSim {
  import opened Basics
  import opened Bytes
  import opened WalRing
  import opened WalChain
  import opened WalRecord

  /** The draining thread: its position and target, and whether it left its loop
      because no page was to be had. */
  datatype Draining = Idle | Draining(start: nat, end: nat, stopped: bool)

  /** Where the log stood when a record was numbered: tail page, bytes in it, flush_off. */
  datatype Mark = Mark(page: PageId, used: nat, flush: nat)

  /** A record of `len` bytes numbered at `m` comes before one numbered next at `n`: the
      tail page moved on, or flush_off moved past fewer than `len` bytes that the tail page
      did not take. */
  predicate InStep(m: Mark, len: nat, n: Mark) {
    m.page < n.page || (n.flush - m.flush) - (n.used - m.used) < len
  }

  /** Steps of concurrent threads: an append; the snapshot, one turn of the loop and
      the end of a drain; the page allocator staging ids for the log. */
  datatype Event =
    | Write(xid: nat, ty: byte, body: seq<byte>)
    | Begin
    | Step
    | End
    | Stage(ids: seq<PageId>)

  /** Offsets of the ring, the tail page, the staged pages, and the last record with the
      place where it was numbered (length 0 when there is none). */
  datatype Sim = Sim(writeOff: nat, flushOff: nat, draining: Draining, page: PageId, used: nat, supply: seq<PageId>,
                     last: Mark, lastLen: nat)
  {
    function Drained(): nat { if draining.Idle? then flushOff else draining.start }

    function Backlog(): int { writeOff - Drained() }

    /** Bytes that fit into the tail page and the staged pages. */
    function Room(): int { (|supply| + 1) * PAYLOAD - used }

    function Here(): Mark { Mark(page, used, flushOff) }

    predicate Busy() { draining.Draining? && draining.start < draining.end && !draining.stopped }

    predicate Finished() { draining.Draining? && (draining.start == draining.end || draining.stopped) }

    /** The drain has left its loop before it had drained all. */
    predicate Stuck() { draining.Draining? && draining.stopped && draining.start < draining.end }
  }

  /** Ids that can follow `page`. */
  predicate IdsOk(ids: seq<PageId>, page: PageId) {
    && (forall i | 0 <= i < |ids| :: page < ids[i] < LSN_OFFSETS)
    && (forall i, j | 0 <= i < j < |ids| :: ids[i] < ids[j])
  }

  predicate SimOk(s: Sim) {
    && s.flushOff <= s.Drained() <= s.writeOff <= s.flushOff + BUF_SIZE && s.used <= PAYLOAD
    && (s.draining.Draining? ==> s.draining.start <= s.draining.end <= s.writeOff)
    && s.page < LSN_OFFSETS && IdsOk(s.supply, s.page)
  }

  // ---------------------------------------------------------------- steps

  /** An append of this many body bytes finds room and is not too long. */
  predicate Accepts(s: Sim, len: nat) {
    len < 0x1_0000_0000 - REC_HDR && REC_HDR + len <= MAX_REC && s.writeOff - s.flushOff + REC_HDR + len <= BUF_SIZE
  }

  function Appended(s: Sim, len: nat): Sim {
    s.(writeOff := s.writeOff + REC_HDR + len, last := s.Here(), lastLen := REC_HDR + len)
  }

  function NewTail(s: Sim): Sim
    requires s.supply != []
  {
    s.(page := s.supply[0], used := 0, supply := s.supply[1..])
  }

  /** The tail takes as much as it can; when that fills it, the loop is over unless a page
      is found. */
  function Fill(s: Sim): Sim
    requires s.Busy() && s.used < PAYLOAD
  {
    var Draining(start, end, _) := s.draining;
    var chunk := Min(end - start, PAYLOAD - s.used);
    s.(used := s.used + chunk, draining := Draining(start + chunk, end, s.used + chunk == PAYLOAD))
  }

  /** One turn of the draining loop: a full tail gets a successor, or the drain fails;
      otherwise the tail takes what fits, and a successor when it is full. */
  function Turn(s: Sim): Sim
    requires s.Busy() && s.used <= PAYLOAD
  {
    if s.used == PAYLOAD then
      if s.supply == [] then s.(draining := Idle) else NewTail(s)
    else
      var t := Fill(s);
      if t.used < PAYLOAD || s.supply == [] then t else NewTail(t.(draining := t.draining.(stopped := false)))
  }

  function Next(s: Sim, e: Event): Sim
    requires s.used <= PAYLOAD
  {
    match e
    case Write(_, _, body) => if Accepts(s, |body|) then Appended(s, |body|) else s
    case Begin =>
      if s.draining.Idle? && s.flushOff < s.writeOff then s.(draining := Draining(s.flushOff, s.writeOff, false)) else s
    case Step => if s.Busy() then Turn(s) else s
    case End => if s.Finished() then s.(flushOff := s.draining.end, draining := Idle) else s
    case Stage(ids) => if IdsOk(ids, s.page) then s.(supply := ids) else s
  }

  lemma TurnOk(s: Sim)
    requires SimOk(s) && s.Busy()
    ensures SimOk(Turn(s)) && Turn(s).page >= s.page
    ensures Turn(s).draining.Draining? ==> Turn(s).Room() == s.Room() - (Turn(s).draining.start - s.draining.start)
    ensures Turn(s).Busy() ==> Turn(s).used < PAYLOAD
    ensures Turn(s).draining.Draining? ==>
      Turn(s).draining.end == s.draining.end
      && (Turn(s).draining.start > s.draining.start || (Turn(s).draining.start == s.draining.start && s.used == PAYLOAD && Turn(s).used < PAYLOAD))
  {
  }

  lemma NextOk(s: Sim, e: Event)
    requires SimOk(s)
    ensures SimOk(Next(s, e)) && Next(s, e).page >= s.page
  {
    if e.Step? && s.Busy() {
      TurnOk(s);
    }
  }

  // ------------------------------------------------------------ whole runs

  /** The drain ends although it has not drained everything. */
  predicate Drops(s: Sim, e: Event) { e.End? && s.Finished() && s.draining.start < s.draining.end }

  /** The append is accepted and its number does not exceed the one before it. */
  predicate Slips(s: Sim, e: Event) {
    e.Write? && Accepts(s, |e.body|) && s.lastLen > 0 && !InStep(s.last, s.lastLen, s.Here())
  }

  ghost function After(s: Sim, events: seq<Event>): (r: Sim)
    requires SimOk(s)
    ensures SimOk(r)
    decreases |events|
  {
    if events == [] then s else NextOk(s, events[0]); After(Next(s, events[0]), events[1..])
  }

  ghost predicate Loses(s: Sim, events: seq<Event>)
    requires SimOk(s)
    decreases |events|
  {
    events != [] && (Drops(s, events[0]) || (NextOk(s, events[0]); Loses(Next(s, events[0]), events[1..])))
  }

  ghost predicate SlipsIn(s: Sim, events: seq<Event>)
    requires SimOk(s)
    decreases |events|
  {
    events != [] && (Slips(s, events[0]) || (NextOk(s, events[0]); SlipsIn(Next(s, events[0]), events[1..])))
  }

  function Logged(s: Sim, e: Event): seq<Entry> { if e.Write? && Accepts(s, |e.body|) then [Entry(e.xid, e.ty, e.body)] else [] }

  /** The entries that a run accepts, in order. */
  ghost function Taken(s: Sim, events: seq<Event>): seq<Entry>
    requires SimOk(s)
    decreases |events|
  {
    if events == [] then [] else NextOk(s, events[0]); Logged(s, events[0]) + Taken(Next(s, events[0]), events[1..])
  }

  /** Bytes that the appends of a run can add at most. */
  function Offered(events: seq<Event>): nat {
    if events == [] then 0 else (if events[0].Write? then REC_HDR + |events[0].body| else 0) + Offered(events[1..])
  }

  predicate NoStaging(events: seq<Event>) { forall i | 0 <= i < |events| :: !events[i].Stage? }

  /** One step with room for the backlog and what is still offered. */
  lemma RoomStep(s: Sim, e: Event, rest: nat)
    requires SimOk(s) && !e.Stage? && !s.Stuck()
    requires s.Backlog() + rest + (if e.Write? then REC_HDR + |e.body| else 0) <= s.Room()
    ensures var t := Next(s, e);
      !Drops(s, e) && SimOk(t) && t.Backlog() + rest <= t.Room() && !t.Stuck()
  {
    NextOk(s, e);
    if e.Step? && s.Busy() {
      TurnOk(s);
    }
  }

  /** A run without staging loses nothing when the backlog and all that is offered fit into
      the tail page and the pages staged beforehand. */
  lemma {:induction false} EnoughPages(s: Sim, events: seq<Event>)
    requires SimOk(s) && !s.Stuck()
    requires NoStaging(events) && s.Backlog() + Offered(events) <= s.Room()
    ensures !Loses(s, events)
    decreases |events|
  {
    hide Next, Turn;
    if events != [] {
      RoomStep(s, events[0], Offered(events[1..]));
      EnoughPages(Next(s, events[0]), events[1..]);
    }
  }

  // ---------------------------------------------------------- whole drains

  function DrainSim(s: Sim): (d: Sim)
    requires SimOk(s)
    ensures SimOk(d)
    decreases if s.draining.Draining? then s.draining.end - s.draining.start else 0, if s.used == PAYLOAD then 1 else 0
  {
    if s.Busy() then TurnOk(s); DrainSim(Turn(s)) else s
  }

  /** The bytes that a drain of `n` bytes cannot place. */
  function Excess(n: int, room: int): int { if n <= room then 0 else n - room }

  ghost predicate DrainedFrom(s: Sim, d: Sim)
    requires s.draining.Draining?
  {
    && d.Finished() && d.draining.end == s.draining.end && d.draining.start >= s.draining.start
    && d.Room() == s.Room() - (d.draining.start - s.draining.start)
    && d.draining.end - d.draining.start == Excess(s.draining.end - s.draining.start, s.Room())
    && d.page >= s.page && (d.page == s.page ==> d.used == s.used + (d.draining.start - s.draining.start))
    && (s.supply == [] ==> d.page == s.page) && |d.supply| <= |s.supply|
    && d.writeOff == s.writeOff && d.flushOff == s.flushOff && d.last == s.last && d.lastLen == s.lastLen
  }

  lemma TurnDrains(s: Sim, d: Sim)
    requires SimOk(s) && s.Busy() && Turn(s).draining.Draining? && !Turn(s).draining.stopped && DrainedFrom(Turn(s), d)
    ensures DrainedFrom(s, d)
  {
    TurnOk(s);
  }

  lemma TurnStops(s: Sim)
    requires SimOk(s) && s.Busy() && Turn(s).draining.Draining? && Turn(s).draining.stopped
    ensures DrainedFrom(s, Turn(s))
  {
    TurnOk(s);
  }

  /** A drain fails at its start, changing nothing, or drains what fits. */
  lemma {:induction false} DrainFacts(s: Sim)
    requires SimOk(s) && s.draining.Draining? && !s.draining.stopped
    ensures var d, fails := DrainSim(s), s.Busy() && s.used == PAYLOAD && s.supply == [];
      if fails then d == s.(draining := Idle) else DrainedFrom(s, d)
    decreases s.draining.end - s.draining.start, if s.used == PAYLOAD then 1 else 0
  {
    if s.Busy() {
      TurnOk(s);
      var t := Turn(s);
      if t.draining.Draining? {
        if t.draining.stopped {
          TurnStops(s);
        } else {
          DrainFacts(t);
          TurnDrains(s, DrainSim(t));
        }
      }
    }
  }

  /** The whole of a flush. */
  function FlushSim(s: Sim): (r: Sim)
    requires SimOk(s) && s.draining.Idle?
    ensures SimOk(r)
  {
    if s.flushOff == s.writeOff then s
    else
      var d := DrainSim(s.(draining := Draining(s.flushOff, s.writeOff, false)));
      if d.Finished() then d.(flushOff := d.draining.end, draining := Idle) else d
  }

  /** The turns that a drain takes. */
  function Turns(s: Sim): nat
    requires SimOk(s)
    decreases if s.draining.Draining? then s.draining.end - s.draining.start else 0, if s.used == PAYLOAD then 1 else 0
  {
    if s.Busy() then TurnOk(s); 1 + Turns(Turn(s)) else 0
  }

  function Steps(n: nat): (r: seq<Event>)
    ensures |r| == n
  {
    seq(n, _ => Step)
  }

  lemma {:induction false} AfterSteps(s: Sim, rest: seq<Event>)
    requires SimOk(s)
    ensures After(s, Steps(Turns(s)) + rest) == After(DrainSim(s), rest)
    decreases if s.draining.Draining? then s.draining.end - s.draining.start else 0, if s.used == PAYLOAD then 1 else 0
  {
    hide Turn;
    if s.Busy() {
      TurnOk(s);
      var events := Steps(Turns(s)) + rest;
      assert events[0] == Step && events[1..] == Steps(Turns(Turn(s))) + rest;
      AfterSteps(Turn(s), rest);
    } else {
      assert Steps(0) + rest == rest;
    }
  }

  /** The steps of one thread, with nothing between them, are a flush. */
  lemma FlushAsSteps(s: Sim)
    requires RestOk(s) && s.flushOff < s.writeOff
    ensures var n := Turns(s.(draining := Draining(s.flushOff, s.writeOff, false)));
      After(s, [Begin] + (Steps(n) + [End])) == FlushSim(s)
  {
    hide DrainSim, Turns;
    var b := s.(draining := Draining(s.flushOff, s.writeOff, false));
    var events := [Begin] + (Steps(Turns(b)) + [End]);
    assert events[0] == Begin && events[1..] == Steps(Turns(b)) + [End];
    AfterSteps(b, [End]);
    var d := DrainSim(b);
    assert [End][1..] == [];
    assert After(d, [End]) == After(Next(d, End), []);
  }

  /** Pages staged between steps are there for the next: a flush that would fail does not. */
  lemma StagedPages(s: Sim, ids: seq<PageId>)
    requires RestOk(s) && IdsOk(ids, s.page)
    ensures var r := After(s, [Stage(ids)]); r == s.(supply := ids) && r.Room() == (|ids| + 1) * PAYLOAD - s.used && (ids != [] ==> !FlushFails(r))
  {
    assert [Stage(ids)][1..] == [];
    assert After(s, [Stage(ids)]) == After(Next(s, Stage(ids)), []);
  }

  /** A flush finds the tail full and no page staged. */
  predicate FlushFails(s: Sim) { s.flushOff < s.writeOff && s.used == PAYLOAD && s.supply == [] }

  lemma FlushFacts(s: Sim)
    requires SimOk(s) && s.draining.Idle?
    ensures var r, n := FlushSim(s), s.writeOff - s.flushOff;
      && r.draining.Idle? && r.writeOff == s.writeOff && r.last == s.last && r.lastLen == s.lastLen
      && (FlushFails(s) || s.flushOff == s.writeOff ==> r == s)
      && (!FlushFails(s) ==> r.flushOff == s.writeOff) && (s.supply == [] ==> r.page == s.page)
      && (!FlushFails(s) && n <= s.Room() ==> r.Room() == s.Room() - n && (r.page > s.page || (r.page == s.page && r.used == s.used + n)))
      && (n <= s.Room() ==> !FlushFails(s))
      && (!FlushFails(s) && n > s.Room() ==> r.Room() == 0)
      && (!FlushFails(s) && n > 0 ==> r.page > s.page || (r.page == s.page && r.used > s.used))
  {
    if s.flushOff < s.writeOff {
      DrainFacts(s.(draining := Draining(s.flushOff, s.writeOff, false)));
    }
  }

  // ------------------------------------------------------- whole operations

  /** Whole operations, for runs in which appends and drains are atomic to each other. */
  datatype Action =
    | AppendRec(xid: nat, ty: byte, body: seq<byte>)
    | FlushAll
    | TakeCheckpoint(dataFlushLsn: nat, time: nat)
    | StageIds(ids: seq<PageId>)

  /** The operation finds room in the ring and in the pages. */
  predicate Fits(s: Sim, a: Action) {
    match a
    case AppendRec(_, _, body) => Accepts(s, |body|)
    case FlushAll => s.writeOff - s.flushOff <= s.Room()
    case TakeCheckpoint(_, _) => Accepts(s, 16) && s.writeOff - s.flushOff + CKPT_REC <= s.Room()
    case StageIds(ids) => IdsOk(ids, s.page)
  }

  predicate RestOk(s: Sim) { SimOk(s) && s.draining.Idle? }

  lemma AppendedOk(s: Sim, len: nat)
    requires RestOk(s) && Accepts(s, len)
    ensures RestOk(Appended(s, len)) && Appended(s, len).Room() == s.Room()
  {
  }

  function Acted(s: Sim, a: Action): (r: Sim)
    requires RestOk(s)
    ensures RestOk(r)
  {
    if !Fits(s, a) then s
    else
      match a
      case AppendRec(_, _, body) => AppendedOk(s, |body|); Appended(s, |body|)
      case FlushAll => FlushFacts(s); FlushSim(s)
      case TakeCheckpoint(_, _) => AppendedOk(s, 16); FlushFacts(Appended(s, 16)); FlushSim(Appended(s, 16))
      case StageIds(ids) => s.(supply := ids)
  }

  /** The entry that an operation logs, if it logs one. */
  function ActLogs(s: Sim, a: Action): seq<Entry> {
    if !Fits(s, a) then []
    else
      match a
      case AppendRec(xid, ty, body) => [Entry(xid, ty, body)]
      case TakeCheckpoint(d, t) => [Entry(0, REC_CHECKPOINT, CheckpointBody(d, t))]
      case _ => []
  }

  /** Bytes that an operation adds to the log. */
  function Adds(a: Action): nat {
    match a case AppendRec(_, _, body) => REC_HDR + |body| case TakeCheckpoint(_, _) => CKPT_REC case _ => 0
  }

  function AddsAll(actions: seq<Action>): nat { if actions == [] then 0 else Adds(actions[0]) + AddsAll(actions[1..]) }

  predicate Plain(a: Action) { !a.StageIds? && (a.AppendRec? ==> |a.body| <= 8192) }

  /** A run without staging is carried out to the last operation when all it adds fits, with
      what is in the ring, into the ring and into the pages. */
  lemma {:induction false} AllFit(s: Sim, actions: seq<Action>)
    requires RestOk(s) && forall i | 0 <= i < |actions| :: Plain(actions[i])
    requires s.writeOff - s.flushOff + AddsAll(actions) <= BUF_SIZE && s.writeOff - s.flushOff + AddsAll(actions) <= s.Room()
    ensures FitsAll(s, actions) == seq(|actions|, _ => true)
    decreases |actions|
  {
    if actions != [] {
      ActFits(s, actions[0], AddsAll(actions[1..]));
      AllFit(Acted(s, actions[0]), actions[1..]);
    }
  }

  lemma ActFits(s: Sim, a: Action, more: nat)
    requires RestOk(s) && Plain(a)
    requires s.writeOff - s.flushOff + Adds(a) + more <= BUF_SIZE && s.writeOff - s.flushOff + Adds(a) + more <= s.Room()
    ensures Fits(s, a) && var r := Acted(s, a); r.writeOff - r.flushOff + more <= BUF_SIZE && r.writeOff - r.flushOff + more <= r.Room()
  {
    hide DrainSim, FlushSim;
    match a {
      case AppendRec(_, _, body) => AppendedOk(s, |body|);
      case FlushAll => FlushFacts(s);
      case TakeCheckpoint(_, _) =>
        AppendedOk(s, 16);
        FlushFacts(Appended(s, 16));
      case StageIds(_) =>
    }
  }

  ghost function ActedAll(s: Sim, actions: seq<Action>): (r: Sim)
    requires RestOk(s)
    ensures RestOk(r)
    decreases |actions|
  {
    if actions == [] then s else ActedAll(Acted(s, actions[0]), actions[1..])
  }

  ghost function LoggedAll(s: Sim, actions: seq<Action>): seq<Entry>
    requires RestOk(s)
    decreases |actions|
  {
    if actions == [] then [] else ActLogs(s, actions[0]) + LoggedAll(Acted(s, actions[0]), actions[1..])
  }

  /** Which operations of a run find room. */
  ghost function FitsAll(s: Sim, actions: seq<Action>): (r: seq<bool>)
    requires RestOk(s)
    ensures |r| == |actions|
    decreases |actions|
  {
    if actions == [] then [] else [Fits(s, actions[0])] + FitsAll(Acted(s, actions[0]), actions[1..])
  }
}
