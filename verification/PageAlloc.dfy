/** Page ids: two counters' conventions, a ring of pages made ahead, and a pool that
    refuses an id it already has. */
module PageAlloc {
  import opened Basics

  const RING_SIZE: nat := 128
  const PRE_ALLOC_NUM: nat := 256
  const THRESHOLD: nat := 32
  const RESERVED_PAGES: nat := 128

  type PageId = nat

  // ---------------------------------------------------------- ids issued

  predicate Rising(s: seq<PageId>) { forall i, j | 0 <= i < j < |s| :: s[i] < s[j] }

  predicate Below(s: seq<PageId>, max: nat) { forall i | 0 <= i < |s| :: s[i] < max }

  /** `ids` went or will go through the ring, `direct` were assigned singly: both rise,
      nothing is in both, and the pool has a page for each. */
  predicate IdsOk(ids: seq<PageId>, direct: seq<PageId>, cached: set<PageId>, max: PageId) {
    && RESERVED_PAGES <= max && Rising(ids) && Below(ids, max) && Rising(direct) && Below(direct, max + 1)
    && (forall i | 0 <= i < |direct| :: direct[i] in cached && direct[i] !in ids)
    && (forall i | 0 <= i < |ids| :: ids[i] in cached)
  }

  lemma IdsRing(ids: seq<PageId>, direct: seq<PageId>, cached: set<PageId>, max: PageId, x: PageId)
    requires IdsOk(ids, direct, cached, max) && Below(ids, x) && x < max && x !in direct
    ensures IdsOk(ids + [x], direct, cached + {x}, max) && Below(ids + [x], x + 1)
  {
  }

  lemma IdsDirect(ids: seq<PageId>, direct: seq<PageId>, cached: set<PageId>, max: PageId)
    requires IdsOk(ids, direct, cached, max)
    ensures IdsOk(ids, direct + [max + 1], cached + {max + 1}, max + 1) && max + 1 !in direct && max + 1 !in ids
  {
  }

  lemma IdsMore(ids: seq<PageId>, direct: seq<PageId>, cached: set<PageId>, max: PageId, cached': set<PageId>, max': PageId)
    requires IdsOk(ids, direct, cached, max) && cached <= cached' && max <= max'
    ensures IdsOk(ids, direct, cached', max')
  {
  }

  lemma IdsCached(ids: seq<PageId>, direct: seq<PageId>, cached: set<PageId>, max: PageId, x: PageId)
    requires IdsOk(ids, direct, cached, max) && x !in cached
    ensures x !in direct
  {
  }

  lemma IdsApart(handed: seq<PageId>, queue: seq<PageId>, direct: seq<PageId>, cached: set<PageId>, max: PageId)
    requires IdsOk(handed + queue, direct, cached, max)
    ensures Rising(handed) && Rising(direct) && Below(handed, max) && Below(queue, max) && forall id | id in handed :: id !in direct
    ensures queue != [] ==> Below(handed, queue[0]) && queue[0] !in handed && queue[0] !in direct
  {
    var ids := handed + queue;
    assert forall i | 0 <= i < |handed| :: handed[i] == ids[i];
    assert forall i | 0 <= i < |queue| :: queue[i] == ids[|handed| + i];
    forall id | id in handed
      ensures id !in direct
    {
      assert id in ids;
    }
    if queue != [] {
      assert ids[|handed|] == queue[0] && queue[0] in ids;
    }
  }

  // ----------------------------------------------------------- ring cells

  function Cell(c: nat, i: nat): nat { (c + i) % RING_SIZE }

  /** A remainder is determined by any quotient that leaves it in range. */
  lemma Remainder(n: nat, q: int, r: nat)
    requires n == q * RING_SIZE + r && r < RING_SIZE
    ensures n % RING_SIZE == r
  {
  }

  lemma RemainderSum(x: nat, y: nat)
    ensures (x % RING_SIZE + y) % RING_SIZE == (x + y) % RING_SIZE
  {
    var z := x % RING_SIZE + y;
    Remainder(x + y, x / RING_SIZE + z / RING_SIZE, z % RING_SIZE);
  }

  lemma CellApart(c: nat, i: nat, j: nat)
    requires i < j < RING_SIZE
    ensures Cell(c, i) != Cell(c, j)
  {
  }

  lemma CellNext(c: nat, i: nat)
    ensures Cell(Cell(c, 1), i) == Cell(c, i + 1) && Cell(Cell(c, i), 1) == Cell(c, i + 1)
    ensures c < RING_SIZE ==> Cell(c, 0) == c
    ensures Cell(c, i) < RING_SIZE
  {
    RemainderSum(c + 1, i);
    RemainderSum(c + i, 1);
  }

  /** The ring's cells from `c` on hold `q`. */
  predicate Holds(cells: seq<PageId>, c: nat, q: seq<PageId>) {
    && |cells| == RING_SIZE && |q| < RING_SIZE
    && forall i | 0 <= i < |q| :: CellAt(cells, c, i) == q[i]
  }

  function CellAt(cells: seq<PageId>, c: nat, i: nat): PageId
    requires |cells| == RING_SIZE
  {
    CellNext(c, i);
    cells[Cell(c, i)]
  }

  lemma HoldsPush(cells: seq<PageId>, c: nat, q: seq<PageId>, x: PageId)
    requires Holds(cells, c, q) && |q| < RING_SIZE - 1
    ensures Cell(c, |q|) < RING_SIZE && Holds(cells[Cell(c, |q|) := x], c, q + [x])
  {
    CellNext(c, |q|);
    hide Cell;
    forall i | 0 <= i < |q|
      ensures CellAt(cells[Cell(c, |q|) := x], c, i) == q[i]
    {
      CellApart(c, i, |q|);
      CellNext(c, i);
      assert CellAt(cells, c, i) == q[i];
    }
  }

  lemma HoldsPop(cells: seq<PageId>, c: nat, q: seq<PageId>)
    requires Holds(cells, c, q) && q != [] && c < RING_SIZE
    ensures cells[c] == q[0] && Holds(cells[c := 0], Cell(c, 1), q[1..])
  {
    CellNext(c, 0);
    hide Cell;
    assert CellAt(cells, c, 0) == q[0];
    forall i | 0 <= i < |q| - 1
      ensures CellAt(cells[c := 0], Cell(c, 1), i) == q[1..][i]
    {
      CellNext(c, i);
      CellNext(c, i + 1);
      CellApart(c, 0, i + 1);
      assert CellAt(cells, c, i + 1) == q[i + 1];
    }
  }

  /** The ids from `base` on. */
  function IdRange(base: PageId, n: nat): (r: seq<PageId>)
    ensures |r| == n && forall i | 0 <= i < n :: r[i] == base + i
  {
    seq(n, i => base + i)
  }

  lemma RangeNext(q: seq<PageId>, base: PageId, n: nat)
    ensures q + IdRange(base, n) + [base + n] == q + IdRange(base, n + 1)
  {
    assert IdRange(base, n) + [base + n] == IdRange(base, n + 1);
  }

  /** What the page scan at boot finds on disk. */
  datatype Found = Found(loads: bool, issued: bool, inited: bool) {
    predicate Unused() { loads && issued && !inited }
  }

  // ------------------------------------------------------------- the stock

  /** A request of the ring, the background refill with the frames at hand, a direct
      assignment; and what each of them answers. */
  datatype Op = Request | Refill(frames: nat) | Direct(room: bool)
  datatype Answer = Refused | Issued(id: PageId) | Staged(count: nat)

  /** The ids in the ring, the counter, and the ids the pool has pages for. */
  datatype Stock = Stock(queue: seq<PageId>, max: PageId, cached: set<PageId>)

  /** How many of `want` pages with ids from `base` on are made before the first that the
      pool refuses. */
  function Made(cached: set<PageId>, base: PageId, want: nat, frames: nat): nat
    decreases want
  {
    if want == 0 || frames == 0 || base in cached then 0 else 1 + Made(cached, base + 1, want - 1, frames - 1)
  }

  lemma {:induction false} MadeIs(cached: set<PageId>, base: PageId, want: nat, frames: nat)
    ensures var n := Made(cached, base, want, frames);
      && n <= want && n <= frames && (forall x | base <= x < base + n :: x !in cached)
      && (n < want ==> n == frames || base + n in cached)
    decreases want
  {
    if want > 0 && frames > 0 && base !in cached {
      MadeIs(cached, base + 1, want - 1, frames - 1);
    }
  }

  function IdSet(base: PageId, n: nat): set<PageId> { set x | x in IdRange(base, n) }

  function Room(s: Stock): nat { if |s.queue| < RING_SIZE then RING_SIZE - 1 - |s.queue| else 0 }

  /** The ids that an operation adds to the ring. */
  function NewIds(s: Stock, op: Op): seq<PageId> {
    if op.Refill? && |s.queue| < THRESHOLD then IdRange(s.max, Made(s.cached, s.max, Room(s), op.frames)) else []
  }

  function Serve(s: Stock, op: Op): Stock {
    match op
    case Request => if s.queue == [] then s else s.(queue := s.queue[1..])
    case Refill(_) =>
      if |s.queue| >= THRESHOLD then s
      else Stock(s.queue + NewIds(s, op), s.max + Room(s), s.cached + IdSet(s.max, |NewIds(s, op)|))
    case Direct(room) =>
      s.(max := s.max + 1, cached := if room && s.max + 1 !in s.cached then s.cached + {s.max + 1} else s.cached)
  }

  function Reply(s: Stock, op: Op): Answer {
    match op
    case Request => if s.queue == [] then Refused else Issued(s.queue[0])
    case Refill(_) => Staged(|NewIds(s, op)|)
    case Direct(room) => if room && s.max + 1 !in s.cached then Issued(s.max + 1) else Refused
  }

  function ServeAll(s: Stock, ops: seq<Op>): Stock {
    if ops == [] then s else Serve(ServeAll(s, ops[..|ops| - 1]), ops[|ops| - 1])
  }

  /** Every operation is answered by the stock that those before it leave. */
  ghost predicate AnswersOf(s: Stock, ops: seq<Op>, answers: seq<Answer>) {
    |answers| == |ops| && forall i | 0 <= i < |ops| :: answers[i] == Reply(ServeAll(s, ops[..i]), ops[i])
  }

  /** All the ids that a run adds to the ring. */
  function AllNewIds(s: Stock, ops: seq<Op>): seq<PageId> {
    if ops == [] then [] else AllNewIds(s, ops[..|ops| - 1]) + NewIds(ServeAll(s, ops[..|ops| - 1]), ops[|ops| - 1])
  }

  function IdOf(op: Op, a: Answer, ring: bool): seq<PageId> { if op.Request? == ring && a.Issued? then [a.id] else [] }

  /** The ids issued to the requests of a run, or to its direct assignments, in order. */
  function IdsIssued(ops: seq<Op>, answers: seq<Answer>, ring: bool): seq<PageId>
    requires |ops| == |answers|
  {
    if ops == [] then []
    else
      var n := |ops| - 1;
      IdsIssued(ops[..n], answers[..n], ring) + IdOf(ops[n], answers[n], ring)
  }

  /** What an operation may answer and leave, by the stock before it. */
  ghost predicate Answered(s: Stock, op: Op, a: Answer, s': Stock) {
    match op
    case Request =>
      s'.max == s.max && s'.cached == s.cached && if s.queue == [] then a == Refused && s'.queue == [] else a.Issued? && s.queue == [a.id] + s'.queue
    case Refill(frames) =>
      && a.Staged? && s'.queue == s.queue + IdRange(s.max, a.count) && a.count <= frames
      && (forall x | s.max <= x < s.max + a.count :: x !in s.cached)
      && (|s.queue| >= 32 ==> s' == s)
      && (|s.queue| < 32 ==> s'.max == s.max + 127 - |s.queue| && (|s'.queue| < 127 ==> a.count == frames || s.max + a.count in s.cached))
      && (forall x :: x in s'.cached <==> x in s.cached || s.max <= x < s.max + a.count)
    case Direct(room) =>
      && s'.queue == s.queue && s'.max == s.max + 1
      && if room && s'.max !in s.cached then a == Issued(s'.max) && s'.cached == s.cached + {s'.max} else a == Refused && s'.cached == s.cached
  }

  lemma ServedRight(s: Stock, op: Op)
    requires |s.queue| < RING_SIZE
    ensures Answered(s, op, Reply(s, op), Serve(s, op))
  {
    if op.Refill? && |s.queue| < THRESHOLD {
      MadeIs(s.cached, s.max, Room(s), op.frames);
      var n := Made(s.cached, s.max, Room(s), op.frames);
      hide Made;
      assert forall x :: x in IdRange(s.max, n) <==> s.max <= x < s.max + n by {
        forall x
          ensures x in IdRange(s.max, n) <==> s.max <= x < s.max + n
        {
          if s.max <= x < s.max + n {
            assert IdRange(s.max, n)[x - s.max] == x;
          }
        }
      }
    }
  }

  lemma {:induction false} QueueFits(s: Stock, ops: seq<Op>)
    requires |s.queue| < RING_SIZE
    ensures |ServeAll(s, ops).queue| < RING_SIZE
  {
    if ops != [] {
      var s1, op := ServeAll(s, ops[..|ops| - 1]), ops[|ops| - 1];
      QueueFits(s, ops[..|ops| - 1]);
      if op.Refill? {
        MadeIs(s1.cached, s1.max, Room(s1), op.frames);
      }
    }
  }

  /** So it is throughout a run. */
  lemma RunAnswered(s: Stock, ops: seq<Op>, answers: seq<Answer>)
    requires |s.queue| < RING_SIZE && AnswersOf(s, ops, answers)
    ensures forall i | 0 <= i < |ops| :: Answered(ServeAll(s, ops[..i]), ops[i], answers[i], ServeAll(s, ops[..i + 1]))
  {
    hide Reply, Serve, Answered;
    forall i | 0 <= i < |ops|
      ensures Answered(ServeAll(s, ops[..i]), ops[i], answers[i], ServeAll(s, ops[..i + 1]))
    {
      QueueFits(s, ops[..i]);
      ServedRight(ServeAll(s, ops[..i]), ops[i]);
      assert ops[..i + 1][..i] == ops[..i];
    }
  }

  lemma OneMoreAnswer(s: Stock, ops: seq<Op>, answers: seq<Answer>, i: nat, a: Answer)
    requires i < |ops| && AnswersOf(s, ops[..i], answers) && a == Reply(ServeAll(s, ops[..i]), ops[i])
    ensures AnswersOf(s, ops[..i + 1], answers + [a])
    ensures ServeAll(s, ops[..i + 1]) == Serve(ServeAll(s, ops[..i]), ops[i])
    ensures AllNewIds(s, ops[..i + 1]) == AllNewIds(s, ops[..i]) + NewIds(ServeAll(s, ops[..i]), ops[i])
    ensures forall ring :: IdsIssued(ops[..i + 1], answers + [a], ring) == IdsIssued(ops[..i], answers, ring) + IdOf(ops[i], a, ring)
  {
    hide Reply, Serve, NewIds, IdOf;
    var more := ops[..i + 1];
    assert more[..i] == ops[..i] && (answers + [a])[..i] == answers;
    forall k | 0 <= k < |more|
      ensures (answers + [a])[k] == Reply(ServeAll(s, more[..k]), more[k])
    {
      assert more[..k] == ops[..k];
      if k < i {
        assert ops[..i][..k] == ops[..k];
      }
    }
  }

  class PageAllocator {
    const ring: array<PageId>
    var cursor: nat
    var reserved: nat
    var maxId: PageId
    var cached: set<PageId>

    // What was made and waits, what the ring gave out, what was assigned singly.
    ghost var queue: seq<PageId>
    ghost var handed: seq<PageId>
    ghost var direct: seq<PageId>

    /** The ring holds the queue. */
    ghost predicate RingOk()
      reads this`cursor, this`reserved, this`queue, ring
    {
      cursor < RING_SIZE && reserved == Cell(cursor, |queue|) && Holds(ring[..], cursor, queue)
    }

    ghost predicate Valid()
      reads this, ring
    {
      RingOk() && IdsOk(handed + queue, direct, cached, maxId)
    }

    /** A boot: the pool caches what it caches, nothing is given out. */
    constructor (maxId: PageId, cached: set<PageId>)
      requires RESERVED_PAGES <= maxId
      ensures Valid() && fresh(ring) && queue == [] && handed == [] && direct == [] && this.maxId == maxId && this.cached == cached
    {
      ring := new PageId[RING_SIZE](_ => 0);
      cursor, reserved, this.maxId, this.cached := 0, 0, maxId, cached;
      queue, handed, direct := [], [], [];
    }

    method Count() returns (n: nat)
      requires RingOk()
      ensures n == |queue|
    {
      n := (reserved + RING_SIZE - cursor) % RING_SIZE;
    }

    method IsFull() returns (full: bool)
      requires RingOk()
      ensures full <==> |queue| == RING_SIZE - 1
    {
      full := (reserved + 1) % RING_SIZE == cursor;
    }

    method Push(id: PageId)
      requires RingOk() && |queue| < RING_SIZE - 1
      modifies ring, this`reserved, this`queue
      ensures RingOk() && queue == old(queue) + [id]
    {
      hide Cell, Holds;
      ghost var cells := ring[..];
      HoldsPush(cells, cursor, queue, id);
      CellNext(cursor, |queue|);
      RingLength(cells, cursor, queue);
      ring[reserved] := id;
      assert ring[..] == cells[reserved := id];
      reserved := Cell(reserved, 1);
      queue := queue + [id];
    }

    /** Hands out the oldest page of the ring, or none. */
    method Alloc() returns (id: PageId, ok: bool)
      requires Valid()
      modifies ring, this`cursor, this`queue, this`handed
      ensures Valid()
      ensures ok <==> old(queue) != []
      ensures ok ==> old(queue) == [id] + queue && handed == old(handed) + [id]
      ensures ok ==> id !in old(handed) && id !in direct && Below(old(handed), id)
      ensures !ok ==> queue == old(queue) && handed == old(handed)
    {
      id := 0;
      var n := Count();
      ok := n != 0;
      if ok {
        hide Cell, Holds, IdsOk, Below;
        ghost var q, cells := queue, ring[..];
        IdsApart(handed, q, direct, cached, maxId);
        HoldsPop(cells, cursor, q);
        CellNext(cursor, |q| - 1);
        RingLength(cells, cursor, queue);
        id := ring[cursor];
        ring[cursor] := 0;
        assert ring[..] == cells[cursor := 0];
        cursor := Cell(cursor, 1);
        assert handed + q == (handed + [id]) + q[1..];
        queue := q[1..];
        handed := handed + [id];
      }
    }

    /** The pool makes a page unless it has one by that id, or is out of frames. */
    method MakePage(id: PageId, room: bool) returns (ok: bool)
      modifies this`cached
      ensures ok <==> id !in old(cached) && room
      ensures cached == if ok then old(cached) + {id} else old(cached)
    {
      ok := id !in cached && room;
      if ok {
        cached := cached + {id};
      }
    }

    /** Makes up to `count` pages with new ids, while the pool has `frames` frames. It
        stops at the first page the pool refuses: at once if the first id is cached. The
        counter moves on by the whole batch. */
    method BatchAlloc(count: nat, frames: nat) returns (got: nat)
      requires Valid()
      modifies this, ring
      ensures Valid() && handed == old(handed) && direct == old(direct)
      ensures var want := Min(count, RING_SIZE - 1 - |old(queue)|);
        maxId == old(maxId) + want && got == Made(old(cached), old(maxId), want, frames) <= Min(want, frames)
      ensures queue == old(queue) + IdRange(old(maxId), got) && cached == old(cached) + IdSet(old(maxId), got)
    {
      hide IdsOk, Below, Cell, Holds, IdRange, IdSet;
      var n := Count();
      RingLengthHere();
      var want := Min(count, RING_SIZE - 1 - n);
      NoneYet(queue, cached, maxId);
      if count == 0 || want == 0 {
        return 0;
      }
      var base := maxId;
      StartBatch(want);
      maxId := maxId + want;
      if base == 0 {
        base := RESERVED_PAGES;
      }
      got := FillBatch(base, want, frames);
      MadeIs(old(cached), base, want, frames);
    }

    /** The loop of a batch. */
    method FillBatch(base: PageId, want: nat, frames: nat) returns (got: nat)
      requires Valid() && maxId == base + want && |queue| + want < RING_SIZE && Below(handed + queue, base)
      modifies this`cached, this`queue, this`reserved, ring
      ensures Valid() && got == Made(old(cached), base, want, frames)
      ensures queue == old(queue) + IdRange(base, got) && cached == old(cached) + IdSet(base, got)
    {
      hide Valid, IdsOk, Below, Cell, Holds, IdRange, IdSet;
      got := 0;
      NoneYet(queue, cached, base);
      while got < want
        invariant got <= want && got <= frames && Valid() && Below(handed + queue, base + got)
        invariant queue == old(queue) + IdRange(base, got) && cached == old(cached) + IdSet(base, got)
        invariant got + Made(old(cached), base + got, want - got, frames - got) == Made(old(cached), base, want, frames)
      {
        RangeLength(base, got);
        OneMoreId(old(queue), old(cached), base, got);
        var ok := StagePage(base + got, got < frames);
        if !ok {
          return;
        }
        got := got + 1;
      }
    }

    /** One page of a batch: made by the pool and put into the ring, or refused. */
    method StagePage(id: PageId, room: bool) returns (ok: bool)
      requires Valid() && id < maxId && |queue| < RING_SIZE - 1 && Below(handed + queue, id)
      modifies this`cached, this`queue, this`reserved, ring
      ensures Valid() && (ok <==> id !in old(cached) && room)
      ensures ok ==> queue == old(queue) + [id] && cached == old(cached) + {id} && Below(handed + queue, id + 1)
      ensures !ok ==> queue == old(queue) && cached == old(cached)
    {
      hide IdsOk, Below, Cell, Holds;
      ghost var was, q := cached, queue;
      ok := MakePage(id, room);
      if ok {
        Push(id);
        IdsCached(handed + q, direct, was, maxId, id);
        IdsRing(handed + q, direct, was, maxId, id);
        assert handed + queue == (handed + q) + [id];
      }
    }

    lemma StartBatch(want: nat)
      requires Valid()
      ensures IdsOk(handed + queue, direct, cached, maxId + want) && maxId != 0 && Below(handed + queue, maxId)
    {
      IdsMore(handed + queue, direct, cached, maxId, cached, maxId + want);
    }

    /** A single id for direct use; it is where the next batch would start. */
    method Assign(room: bool) returns (id: PageId, ok: bool)
      requires Valid()
      modifies this`maxId, this`cached, this`direct
      ensures Valid() && maxId == old(maxId) + 1 == id
      ensures ok <==> room && id !in old(cached)
      ensures ok ==> direct == old(direct) + [id] && id !in old(direct) && id !in handed + queue
      ensures !ok ==> direct == old(direct)
      ensures cached == if ok then old(cached) + {id} else old(cached)
    {
      hide IdsOk;
      IdsDirect(handed + queue, direct, cached, maxId);
      IdsMore(handed + queue, direct, cached, maxId, cached, maxId + 1);
      maxId := maxId + 1;
      id := maxId;
      ok := MakePage(id, room);
      if ok {
        direct := direct + [id];
      }
    }

    /** At boot: the ids of the last batch whose pages were never used go to the ring,
        in order, as many as it takes. */
    method Reclaim(allocPoint: PageId, disk: PageId -> Found) returns (got: nat, ghost stop: PageId)
      requires Valid() && queue == [] && handed == [] && direct == []
      modifies this, ring
      ensures Valid() && handed == [] && direct == [] && maxId == old(maxId) && got == |queue|
      ensures allocPoint <= stop && queue == Unused(disk, allocPoint, stop) && Rising(queue)
      ensures forall id :: id in queue <==> allocPoint <= id < stop && disk(id).loads && disk(id).issued && !disk(id).inited
      ensures forall id :: id in cached <==> id in old(cached) || (allocPoint <= id < stop && disk(id).loads)
      ensures var end := Min(allocPoint + PRE_ALLOC_NUM, maxId); stop <= Max(end, allocPoint) && (stop < end ==> got == RING_SIZE - 1)
    {
      hide Valid, RingOk, Below, Unused, Found.Unused, Rising;
      got, stop := 0, allocPoint;
      UnusedIs(disk, allocPoint, stop);
      var end := Min(allocPoint + PRE_ALLOC_NUM, maxId);
      UnusedNone(disk, allocPoint);
      if allocPoint >= end {
        return;
      }
      var id := allocPoint;
      StartScan(id);
      while id < end
        invariant allocPoint <= id <= end && Valid() && handed == [] && direct == [] && maxId == old(maxId)
        invariant Below(queue, id) && queue == Unused(disk, allocPoint, id) && got == |queue| && stop == id
        invariant forall x :: x in cached <==> x in old(cached) || (allocPoint <= x < id && disk(x).loads)
      {
        UnusedIs(disk, allocPoint, id);
        Opened();
        var full := IsFull();
        if full {
          return;
        }
        UnusedNext(disk, allocPoint, id);
        var put := TakeBack(id, disk(id));
        got := if put then got + 1 else got;
        id, stop := id + 1, id + 1;
      }
      UnusedIs(disk, allocPoint, id);
    }

    lemma Opened()
      requires Valid()
      ensures RingOk() && |queue| < RING_SIZE
    {
    }

    lemma StartScan(id: PageId)
      requires queue == []
      ensures Below(queue, id)
    {
    }

    /** One page of the scan at boot: it is cached when it loads, and queued when it is unused. */
    method TakeBack(id: PageId, found: Found) returns (put: bool)
      requires Valid() && handed == [] && direct == [] && id < maxId && Below(queue, id) && |queue| < RING_SIZE - 1
      modifies this`cached, this`queue, this`reserved, ring
      ensures Valid() && put == found.Unused() && Below(queue, id + 1)
      ensures queue == (if put then old(queue) + [id] else old(queue))
      ensures cached == if found.loads then old(cached) + {id} else old(cached)
    {
      hide IdsOk, Cell, Holds;
      put := false;
      assert [] + queue == queue;
      IdsMore(queue, direct, cached, maxId, cached + {id}, maxId);
      if found.loads {
        if found.issued && !found.inited {
          IdsRing(queue, direct, cached, maxId, id);
          Push(id);
          assert [] + queue == queue;
          put := true;
        }
        cached := cached + {id};
      }
    }

    lemma RingLengthHere()
      requires RingOk()
      ensures |queue| < RING_SIZE
    {
    }

    ghost function S(): Stock
      reads this`queue, this`maxId, this`cached
    {
      Stock(queue, maxId, cached)
    }

    /** Tops the ring up when it runs low. */
    method Prealloc(frames: nat) returns (got: nat)
      requires Valid()
      modifies this, ring
      ensures Valid() && handed == old(handed) && direct == old(direct)
      ensures S() == Serve(old(S()), Refill(frames)) && got == |NewIds(old(S()), Refill(frames))|
      ensures |old(queue)| >= 32 ==> got == 0 && S() == old(S())
      ensures |old(queue)| < 32 ==>
        && got == Made(old(cached), old(maxId), 127 - |old(queue)|, frames) && maxId == old(maxId) + 127 - |old(queue)|
        && queue == old(queue) + IdRange(old(maxId), got)
    {
      hide IdsOk, Cell, Holds, IdRange, IdSet, Rising, Below;
      RingLengthHere();
      got := 0;
      var n := Count();
      if n < THRESHOLD {
        got := BatchAlloc(RING_SIZE - n, frames);
        RangeLength(old(maxId), got);
      }
    }

    /** One operation, and what it answers. */
    method Perform(op: Op) returns (a: Answer)
      requires Valid()
      modifies this, ring
      ensures Valid() && S() == Serve(old(S()), op) && a == Reply(old(S()), op)
      ensures handed == old(handed) + IdOf(op, a, true) && direct == old(direct) + IdOf(op, a, false)
      ensures handed + queue == old(handed + queue) + NewIds(old(S()), op)
    {
      hide Valid, IdsOk, Cell, Holds, IdRange, IdSet, Rising, Below;
      match op {
        case Request =>
          var id, ok := Alloc();
          a := if ok then Issued(id) else Refused;
        case Refill(frames) =>
          var got := Prealloc(frames);
          a := Staged(got);
          assert handed + (old(queue) + NewIds(old(S()), op)) == (handed + old(queue)) + NewIds(old(S()), op);
        case Direct(room) =>
          var id, ok := Assign(room);
          a := if ok then Issued(id) else Refused;
      }
    }

    /** Any run of requests, refills and direct assignments: each is answered as the stock at
        that point says, a request being refused only when the ring is empty; the ids that
        the requests get are those that the refills staged, in the same order; and no id is
        issued twice. */
    method Run(ops: seq<Op>) returns (answers: seq<Answer>)
      requires Valid()
      modifies this, ring
      ensures Valid() && AnswersOf(old(S()), ops, answers) && S() == ServeAll(old(S()), ops)
      ensures handed == old(handed) + IdsIssued(ops, answers, true) && direct == old(direct) + IdsIssued(ops, answers, false)
      ensures handed + queue == old(handed + queue) + AllNewIds(old(S()), ops)
      ensures forall i | 0 <= i < |ops| :: Answered(ServeAll(old(S()), ops[..i]), ops[i], answers[i], ServeAll(old(S()), ops[..i + 1]))
      ensures Rising(handed) && Rising(direct) && forall id | id in handed :: id !in direct
    {
      hide Valid, IdsOk, Serve, Reply, NewIds, IdOf, Rising, Answered;
      answers := [];
      ghost var s0 := S();
      RingNotFull();
      for i := 0 to |ops|
        invariant Valid() && AnswersOf(s0, ops[..i], answers) && S() == ServeAll(s0, ops[..i])
        invariant handed == old(handed) + IdsIssued(ops[..i], answers, true) && direct == old(direct) + IdsIssued(ops[..i], answers, false)
        invariant handed + queue == old(handed + queue) + AllNewIds(s0, ops[..i])
      {
        var a := Perform(ops[i]);
        OneMoreAnswer(s0, ops, answers, i, a);
        answers := answers + [a];
      }
      assert ops[..|ops|] == ops;
      RunAnswered(s0, ops, answers);
      Apart();
    }

    lemma RingNotFull()
      requires Valid()
      ensures |queue| < RING_SIZE
    {
    }

    lemma Apart()
      requires Valid()
      ensures Rising(handed) && Rising(direct) && forall id | id in handed :: id !in direct
    {
      IdsApart(handed, queue, direct, cached, maxId);
    }

    /** A refill that follows a direct assignment stages nothing; the one after it does. */
    method AssignThenRefill(frames: nat) returns (ok: bool, first: nat, second: nat)
      requires Valid() && |queue| < THRESHOLD
      modifies this, ring
      ensures Valid()
      ensures ok <==> old(maxId) + 1 !in old(cached)
      ensures ok ==> first == 0 && queue == old(queue) + IdRange(old(maxId) + RING_SIZE - |old(queue)|, second)
      ensures ok ==> second == Made(old(cached) + {old(maxId) + 1}, old(maxId) + RING_SIZE - |old(queue)|, RING_SIZE - 1 - |old(queue)|, frames)
    {
      hide Valid, IdsOk, Cell, Holds, IdRange, IdSet, Rising, Below;
      var id;
      id, ok := Assign(true);
      ghost var s := S();
      first := Prealloc(frames);
      second := 0;
      if ok {
        RangeLength(s.max, 0);
        EmptyRange(queue, old(queue), s.max);
        NoneYet(s.queue, s.cached, s.max);
        second := Prealloc(frames);
      }
    }
  }

  lemma NoneYet(q: seq<PageId>, cached: set<PageId>, base: PageId)
    ensures q == q + IdRange(base, 0) && cached == cached + IdSet(base, 0)
  {
  }

  lemma OneMoreId(q: seq<PageId>, cached: set<PageId>, base: PageId, n: nat)
    ensures base + n in cached + IdSet(base, n) <==> base + n in cached
    ensures q + IdRange(base, n) + [base + n] == q + IdRange(base, n + 1)
    ensures cached + IdSet(base, n) + {base + n} == cached + IdSet(base, n + 1)
  {
    RangeNext(q, base, n);
    assert IdRange(base, n + 1) == IdRange(base, n) + [base + n];
  }

  lemma EmptyRange(q: seq<PageId>, q0: seq<PageId>, base: PageId)
    requires q == q0 + IdRange(base, 0)
    ensures q == q0
  {
  }

  lemma RangeLength(base: PageId, n: nat)
    ensures |IdRange(base, n)| == n
  {
  }

  lemma RingLength(cells: seq<PageId>, c: nat, q: seq<PageId>)
    requires Holds(cells, c, q)
    ensures |cells| == RING_SIZE && |q| < RING_SIZE
  {
  }

  /** They are those that are found issued and not initialised. */
  lemma {:induction false} UnusedIs(disk: PageId -> Found, from: PageId, end: PageId)
    requires from <= end
    ensures var s := Unused(disk, from, end);
      && Rising(s) && Below(s, end)
      && forall id :: id in s <==> from <= id < end && disk(id).loads && disk(id).issued && !disk(id).inited
    decreases end
  {
    if from < end {
      UnusedIs(disk, from, end - 1);
      var s := Unused(disk, from, end - 1);
      assert disk(end - 1).Unused() ==> forall id :: id in s + [end - 1] <==> id in s || id == end - 1;
    }
  }

  lemma UnusedNone(disk: PageId -> Found, from: PageId)
    ensures Unused(disk, from, from) == []
  {
  }

  lemma UnusedNext(disk: PageId -> Found, from: PageId, to: PageId)
    requires from <= to
    ensures Unused(disk, from, to + 1) == if disk(to).Unused() then Unused(disk, from, to) + [to] else Unused(disk, from, to)
  {
  }

  /** The unused pages of [from, to), in order. */
  function Unused(disk: PageId -> Found, from: PageId, to: PageId): seq<PageId>
    requires from <= to
  {
    if from == to then []
    else Unused(disk, from, to - 1) + if disk(to - 1).Unused() then [to - 1] else []
  }
}
