/** Row versions kept as a chain of undo entries, against a plain log of every write. */
module UndoHistory {
  import opened Basics
  import opened Bytes
  import opened HeapLayout
  import opened HeapEffects

  const MAX_OLD_DATA: nat := 256
  const ENTRY_SIZE: nat := 307
  const OP_UPDATE: byte := 1

  // ---------------------------------------------------------- addresses

  datatype Tid = Tid(page: PageId, slot: nat)

  function Pack(t: Tid): nat { t.page % U48 + t.slot * U48 }

  function Unpack(p: nat): Tid { Tid(p % U48, p / U48 % U16) }

  /** Addresses in range survive packing, and none of them is the empty link. */
  lemma PackRoundTrip(t: Tid)
    requires 0 < t.page < U48 && t.slot < U16
    ensures Unpack(Pack(t)) == t && 0 < Pack(t) < U64
  {
    assert t.page % U48 == t.page;
  }

  // ------------------------------------------------------------- entries

  datatype Entry = Entry(owner: nat, oldTid: Tid, prev: nat, xmin: nat, xmax: nat, op: byte, data: seq<byte>)

  function Zeros(n: nat): (r: seq<byte>)
    ensures |r| == n
  {
    seq(n, _ => 0)
  }

  function EntryHead(e: Entry): (r: seq<byte>)
    ensures |r| == 51
  {
    Le(e.owner, 8) + Le(e.oldTid.page, 8) + Le(e.oldTid.slot, 2) + Zeros(6) + Le(e.prev, 8)
    + Le(e.xmin, 8) + Le(e.xmax, 8) + [e.op] + Le(|e.data|, 2)
  }

  function EncodeEntry(e: Entry): (r: seq<byte>)
    requires |e.data| <= MAX_OLD_DATA
    ensures |r| == ENTRY_SIZE
  {
    EntryHead(e) + e.data + Zeros(MAX_OLD_DATA - |e.data|)
  }

  predicate IsEntry(s: seq<byte>) { |s| == ENTRY_SIZE && Nat(s[49..51]) <= MAX_OLD_DATA }

  function DecodeEntry(s: seq<byte>): Entry
    requires IsEntry(s)
  {
    Entry(Nat(s[..8]), Tid(Nat(s[8..16]), Nat(s[16..18])), Nat(s[24..32]), Nat(s[32..40]), Nat(s[40..48]), s[48],
          s[51..51 + Nat(s[49..51])])
  }

  predicate EntryFits(e: Entry) {
    && e.owner < U64 && e.oldTid.page < U64 && e.oldTid.slot < U16 && e.prev < U64
    && e.xmin < U64 && e.xmax < U64 && |e.data| <= MAX_OLD_DATA
  }

  lemma EntryRoundTrip(e: Entry)
    requires EntryFits(e)
    ensures IsEntry(EncodeEntry(e)) && DecodeEntry(EncodeEntry(e)) == e
  {
    Widths();
    NatOfLe(e.owner, 8);
    NatOfLe(e.oldTid.page, 8);
    NatOfLe(e.oldTid.slot, 2);
    NatOfLe(e.prev, 8);
    NatOfLe(e.xmin, 8);
    NatOfLe(e.xmax, 8);
    NatOfLe(|e.data|, 2);
    hide Nat, Le, Zeros;
    HeadSlices(e);
    var s := EncodeEntry(e);
    hide EntryHead;
    EntrySlices(e);
    assert s[51..51 + |e.data|] == e.data;
  }

  lemma HeadSlices(e: Entry)
    ensures var h := EntryHead(e);
      && h[..8] == Le(e.owner, 8) && h[8..16] == Le(e.oldTid.page, 8) && h[16..18] == Le(e.oldTid.slot, 2)
      && h[24..32] == Le(e.prev, 8) && h[32..40] == Le(e.xmin, 8) && h[40..48] == Le(e.xmax, 8)
      && h[48] == e.op && h[49..51] == Le(|e.data|, 2)
  {
    hide Le, Zeros;
  }

  lemma EntrySlices(e: Entry)
    requires |e.data| <= MAX_OLD_DATA
    ensures var s, h := EncodeEntry(e), EntryHead(e);
      && s[..8] == h[..8] && s[8..16] == h[8..16] && s[16..18] == h[16..18] && s[24..32] == h[24..32]
      && s[32..40] == h[32..40] && s[40..48] == h[40..48] && s[48] == h[48] && s[49..51] == h[49..51]
  {
    hide EntryHead, Zeros;
    var s, h := EncodeEntry(e), EntryHead(e);
    assert s[..51] == h;
    forall x, y | 0 <= x <= y <= 51
      ensures s[x..y] == h[x..y]
    {
      assert s[..51][x..y] == s[x..y];
    }
    assert s[0..8] == h[0..8];
  }

  // --------------------------------------------------------------- pages

  type Pages = map<PageId, Page>

  /** The bounds every heap page keeps. */
  predicate PageOk(p: Page) {
    Lower(|p.slots|) <= p.upper <= NEXT_OFF - TUPLE_HDR * |p.slots|
  }

  /** Rows live on heap pages, prior versions on undo pages. */
  datatype Store = Store(rows: Pages, undo: Pages)

  predicate PagesOk(m: Pages) {
    && (forall id | id in m :: 0 < id < U48)
    && (forall id | id in m :: PageOk(m[id]))
  }

  predicate LiveAt(m: Pages, t: Tid) { t.page in m && IsLive(m[t.page], t.slot) }

  function TupleAt(m: Pages, t: Tid): Tuple
    requires LiveAt(m, t)
  {
    m[t.page].slots[t.slot].tuple
  }

  // ------------------------------------------------------------- updating

  /** What an update leaves: its answer, both pages, the slot of the new version. */
  datatype Outcome = Outcome(err: int, target: Page, undo: Page, slot: nat)

  function UndoTuple(e: Entry, xid: nat): Tuple
    requires |e.data| <= MAX_OLD_DATA
  {
    Tuple(xid, 0, 0, EncodeEntry(e))
  }

  function Updated(target: Page, tid: Tid, undo: Page, undoId: PageId, data: seq<byte>, xid: nat, owner: nat): Outcome {
    if !IsLive(target, tid.slot) then Outcome(ENOENT, target, undo, 0)
    else
      var prior, cap := target.slots[tid.slot].tuple, target.slots[tid.slot].cap;
      if |prior.data| > MAX_OLD_DATA then Outcome(EMSGSIZE, target, undo, 0)
      else if !HasRoom(undo, ENTRY_SIZE) then Outcome(ENOSPC, target, undo, 0)
      else
        var entry := Entry(owner, tid, prior.undoPtr, prior.xmin, xid, OP_UPDATE, prior.data);
        var undo' := Inserted(undo, UndoTuple(entry, xid));
        var next := Tuple(xid, 0, Pack(Tid(undoId, |undo.slots|)), data);
        if |data| <= cap then Outcome(0, Overwritten(target, tid.slot, next), undo', tid.slot)
        else
          var retired := Retired(target, tid.slot);
          if |data| > PAGE_SIZE then Outcome(EINVAL, retired, undo', 0)
          else if !HasRoom(retired, |data|) then Outcome(ENOSPC, retired, undo', 0)
          else Outcome(0, Inserted(retired, next), undo', |target.slots|)
  }

  datatype Step =
    | NewPage(id: PageId)
    | NewUndoPage(id: PageId)
    | Insert(page: PageId, data: seq<byte>, xid: nat)
    | Delete(tid: Tid, xid: nat)
    | Update(tid: Tid, undoId: PageId, data: seq<byte>, xid: nat, owner: nat)

  const EmptyPage: Page := Page([], NEXT_OFF, 0)

  /** Pages are new when they are created and there when they are used; numbers are 64 bits wide. */
  predicate Enabled(s: Store, step: Step) {
    match step
    case NewPage(id) => 0 < id < U48 && id !in s.rows
    case NewUndoPage(id) => 0 < id < U48 && id !in s.undo
    case Insert(page, _, xid) => page in s.rows && xid < U64
    case Delete(tid, xid) => tid.page in s.rows && xid < U64
    case Update(tid, undoId, _, xid, owner) => tid.page in s.rows && undoId in s.undo && xid < U64 && owner < U64
  }

  function UpdateOutcome(s: Store, step: Step): Outcome
    requires step.Update? && Enabled(s, step)
  {
    Updated(s.rows[step.tid.page], step.tid, s.undo[step.undoId], step.undoId, step.data, step.xid, step.owner)
  }

  function Apply(s: Store, step: Step): Store
    requires Enabled(s, step)
  {
    match step
    case NewPage(id) => s.(rows := s.rows[id := EmptyPage])
    case NewUndoPage(id) => s.(undo := s.undo[id := EmptyPage])
    case Insert(page, data, xid) =>
      if HasRoom(s.rows[page], |data|)
      then s.(rows := s.rows[page := Inserted(s.rows[page], Tuple(xid, 0, 0, data))])
      else s
    case Delete(tid, xid) =>
      if LiveAt(s.rows, tid)
      then s.(rows := s.rows[tid.page := Deleted(s.rows[tid.page], tid.slot, xid)])
      else s
    case Update(tid, undoId, _, _, _) =>
      var o := UpdateOutcome(s, step);
      Store(s.rows[tid.page := o.target], s.undo[undoId := o.undo])
  }

  // ------------------------------------------------- the log of all writes

  /** One write of a row. */
  datatype Write = Write(xid: nat, data: seq<byte>)

  /** Every write of a row, newest first, and the transaction that deleted it (or 0). */
  datatype Row = Row(writes: seq<Write>, ended: nat)

  type Log = map<Tid, Row>

  /** Where an update leaves its row: at a new address when it had to move,
      nowhere when there was no room to move to. */
  function LogStep(log: Log, s: Store, step: Step): Log
    requires Enabled(s, step)
  {
    match step
    case NewPage(_) => log
    case NewUndoPage(_) => log
    case Insert(page, data, xid) =>
      if HasRoom(s.rows[page], |data|)
      then log[Tid(page, |s.rows[page].slots|) := Row([Write(xid, data)], 0)]
      else log
    case Delete(tid, xid) => if tid in log then log[tid := log[tid].(ended := xid)] else log
    case Update(tid, _, data, xid, _) =>
      var o := UpdateOutcome(s, step);
      if o.err == 0 && tid in log then (log - {tid})[Tid(tid.page, o.slot) := Row([Write(xid, data)] + log[tid].writes, 0)]
      else if IsLive(o.target, tid.slot) then log
      else log - {tid}
  }

  // ------------------------------------------------------------- histories

  /** A version that is no longer current: valid from `xmin` up to, not including, `xmax`. */
  datatype Version = Version(xmin: nat, xmax: nat, data: seq<byte>)

  predicate EntryAt(undo: Pages, ptr: nat) {
    LiveAt(undo, Unpack(ptr)) && IsEntry(TupleAt(undo, Unpack(ptr)).data)
  }

  function GetEntry(undo: Pages, ptr: nat): Entry
    requires EntryAt(undo, ptr)
  {
    DecodeEntry(TupleAt(undo, Unpack(ptr)).data)
  }

  /** Following the links from `ptr` meets exactly the versions `hs` and ends. */
  predicate IsHistory(undo: Pages, ptr: nat, hs: seq<Version>)
    decreases |hs|
  {
    if hs == [] then ptr == 0
    else
      && ptr != 0 && EntryAt(undo, ptr)
      && var e := GetEntry(undo, ptr);
      && hs[0] == Version(e.xmin, e.xmax, e.data) && IsHistory(undo, e.prev, hs[1..])
  }

  /** A link leads to at most one history. */
  lemma {:induction false} HistoryUnique(undo: Pages, ptr: nat, a: seq<Version>, b: seq<Version>)
    requires IsHistory(undo, ptr, a) && IsHistory(undo, ptr, b)
    ensures a == b
    decreases |a|
  {
    if a != [] && b != [] {
      HistoryUnique(undo, GetEntry(undo, ptr).prev, a[1..], b[1..]);
      assert a == [a[0]] + a[1..] && b == [b[0]] + b[1..];
    }
  }

  /** Undo pages are only ever appended to. */
  predicate Extends(undo: Pages, undo': Pages) {
    forall id | id in undo :: id in undo' && undo[id].slots <= undo'[id].slots
  }

  lemma EntryKept(undo: Pages, undo': Pages, ptr: nat)
    requires Extends(undo, undo') && EntryAt(undo, ptr)
    ensures EntryAt(undo', ptr) && GetEntry(undo', ptr) == GetEntry(undo, ptr)
  {
    hide IsEntry, DecodeEntry;
    var t := Unpack(ptr);
    assert undo[t.page].slots <= undo'[t.page].slots;
  }

  lemma {:induction false} HistoryKept(undo: Pages, undo': Pages, ptr: nat, hs: seq<Version>)
    requires Extends(undo, undo') && IsHistory(undo, ptr, hs)
    ensures IsHistory(undo', ptr, hs)
    decreases |hs|
  {
    hide Extends, EntryAt, GetEntry;
    if hs != [] {
      EntryKept(undo, undo', ptr);
      HistoryKept(undo, undo', GetEntry(undo, ptr).prev, hs[1..]);
    }
  }

  /** The versions that a list of writes leaves behind: each ended by the next newer write. */
  function Past(ws: seq<Write>): (r: seq<Version>)
    ensures |r| == if ws == [] then 0 else |ws| - 1
  {
    if |ws| <= 1 then [] else [Version(ws[1].xid, ws[0].xid, ws[1].data)] + Past(ws[1..])
  }

  lemma {:induction false} PastAt(ws: seq<Write>, k: nat)
    requires k + 1 < |ws|
    ensures Past(ws)[k] == Version(ws[k + 1].xid, ws[k].xid, ws[k + 1].data)
    decreases k
  {
    if k > 0 {
      PastAt(ws[1..], k - 1);
    }
  }

  /** The live tuple is the last write and its undo chain is all the earlier ones. */
  predicate RowOk(undo: Pages, t: Tuple, row: Row) {
    && row.writes != [] && t.xmin == row.writes[0].xid && t.data == row.writes[0].data && t.xmax == row.ended
    && Fits64(t) && IsHistory(undo, t.undoPtr, Past(row.writes))
  }

  predicate RowAt(s: Store, log: Log, t: Tid) {
    && (LiveAt(s.rows, t) <==> t in log)
    && (t in log ==> RowOk(s.undo, TupleAt(s.rows, t), log[t]))
  }

  /** The pages hold exactly the rows of the log, with their whole histories. */
  ghost predicate Agrees(s: Store, log: Log) {
    && PagesOk(s.rows) && PagesOk(s.undo)
    && forall t :: RowAt(s, log, t)
  }

  // --------------------------------------------------- one step at a time

  lemma SlotsFit(p: Page)
    requires PageOk(p)
    ensures |p.slots| <= 246
  {
  }

  /** A row that no step touches keeps its history as undo pages grow. */
  lemma RowKept(s: Store, s': Store, log: Log, log': Log, t: Tid)
    requires RowAt(s, log, t) && Extends(s.undo, s'.undo)
    requires LiveAt(s'.rows, t) == LiveAt(s.rows, t)
    requires LiveAt(s.rows, t) ==> TupleAt(s'.rows, t) == TupleAt(s.rows, t)
    requires (t in log') == (t in log) && (t in log ==> log'[t] == log[t])
    ensures RowAt(s', log', t)
  {
    hide LiveAt, TupleAt, Extends, IsHistory;
    if t in log {
      HistoryKept(s.undo, s'.undo, TupleAt(s.rows, t).undoPtr, Past(log[t].writes));
    }
  }

  lemma InsertedOk(p: Page, t: Tuple)
    requires PageOk(p) && HasRoom(p, |t.data|)
    ensures PageOk(Inserted(p, t)) && p.slots <= Inserted(p, t).slots
  {
  }

  lemma StepNew(s: Store, log: Log, step: Step)
    requires Agrees(s, log) && Enabled(s, step) && (step.NewPage? || step.NewUndoPage?)
    ensures Agrees(Apply(s, step), LogStep(log, s, step))
  {
    var s' := Apply(s, step);
    forall t
      ensures RowAt(s', log, t)
    {
      assert RowAt(s, log, t);
      RowKept(s, s', log, log, t);
    }
  }

  lemma StepInsert(s: Store, log: Log, step: Step)
    requires Agrees(s, log) && Enabled(s, step) && step.Insert?
    ensures Agrees(Apply(s, step), LogStep(log, s, step))
  {
    hide RowOk, IsHistory;
    var s', log' := Apply(s, step), LogStep(log, s, step);
    var p := s.rows[step.page];
    if HasRoom(p, |step.data|) {
      InsertedOk(p, Tuple(step.xid, 0, 0, step.data));
      var next := Tid(step.page, |p.slots|);
      FirstWrite(s.undo, step.xid, step.data);
      forall t
        ensures RowAt(s', log', t)
      {
        assert RowAt(s, log, t);
        if t != next {
          RowKept(s, s', log, log', t);
        }
      }
    }
  }

  lemma FirstWrite(undo: Pages, xid: nat, data: seq<byte>)
    requires xid < U64
    ensures RowOk(undo, Tuple(xid, 0, 0, data), Row([Write(xid, data)], 0))
  {
  }

  lemma StepDelete(s: Store, log: Log, step: Step)
    requires Agrees(s, log) && Enabled(s, step) && step.Delete?
    ensures Agrees(Apply(s, step), LogStep(log, s, step))
  {
    hide IsHistory;
    var s', log' := Apply(s, step), LogStep(log, s, step);
    assert RowAt(s, log, step.tid);
    forall t
      ensures RowAt(s', log', t)
    {
      assert RowAt(s, log, t);
      if t != step.tid {
        RowKept(s, s', log, log', t);
      }
    }
  }

  /** The entry just written heads the history of the version it replaces. */
  lemma EntryPushed(undo: Pages, undoId: PageId, tid: Tid, prior: Tuple, row: Row, xid: nat, owner: nat, data: seq<byte>)
    requires PagesOk(undo) && undoId in undo && RowOk(undo, prior, row) && |prior.data| <= MAX_OLD_DATA
    requires tid.page < U48 && tid.slot < U16 && xid < U64 && owner < U64 && HasRoom(undo[undoId], ENTRY_SIZE)
    ensures var p := undo[undoId];
      var entry := Entry(owner, tid, prior.undoPtr, prior.xmin, xid, OP_UPDATE, prior.data);
      var undo' := undo[undoId := Inserted(p, UndoTuple(entry, xid))];
      && Extends(undo, undo') && PagesOk(undo')
      && RowOk(undo', Tuple(xid, 0, Pack(Tid(undoId, |p.slots|)), data), Row([Write(xid, data)] + row.writes, 0))
  {
    hide EncodeEntry, DecodeEntry, IsEntry, IsHistory;
    var p := undo[undoId];
    var entry := Entry(owner, tid, prior.undoPtr, prior.xmin, xid, OP_UPDATE, prior.data);
    var ut := UndoTuple(entry, xid);
    InsertedOk(p, ut);
    SlotsFit(p);
    var undo' := undo[undoId := Inserted(p, ut)];
    var at := Tid(undoId, |p.slots|);
    PackRoundTrip(at);
    EntryRoundTrip(entry);
    HistoryKept(undo, undo', prior.undoPtr, Past(row.writes));
    assert TupleAt(undo', at) == ut;
    var ws := [Write(xid, data)] + row.writes;
    assert ws[1..] == row.writes;
    HistoryCons(undo', Pack(at), entry, Past(row.writes));
    assert Past(ws) == [Version(prior.xmin, xid, prior.data)] + Past(row.writes);
  }

  lemma HistoryCons(undo: Pages, ptr: nat, e: Entry, hs: seq<Version>)
    requires ptr != 0 && EntryAt(undo, ptr) && GetEntry(undo, ptr) == e && IsHistory(undo, e.prev, hs)
    ensures IsHistory(undo, ptr, [Version(e.xmin, e.xmax, e.data)] + hs)
  {
    hide EntryAt, GetEntry;
    assert ([Version(e.xmin, e.xmax, e.data)] + hs)[1..] == hs;
  }

  /** The pages an update touches stay in bounds. */
  lemma OutcomeOk(s: Store, step: Step)
    requires PagesOk(s.rows) && PagesOk(s.undo) && step.Update? && Enabled(s, step)
    ensures PageOk(UpdateOutcome(s, step).target) && PageOk(UpdateOutcome(s, step).undo)
    ensures PagesOk(Apply(s, step).rows) && PagesOk(Apply(s, step).undo)
    ensures Extends(s.undo, Apply(s, step).undo)
  {
    hide EncodeEntry;
  }

  /** Slots other than the updated and the new one are as before. */
  lemma OutcomeOthers(s: Store, step: Step, t: Tid)
    requires step.Update? && Enabled(s, step)
    requires t != step.tid && (UpdateOutcome(s, step).err == 0 ==> t != Tid(step.tid.page, UpdateOutcome(s, step).slot))
    ensures var s' := Apply(s, step);
      LiveAt(s'.rows, t) == LiveAt(s.rows, t) && (LiveAt(s.rows, t) ==> TupleAt(s'.rows, t) == TupleAt(s.rows, t))
  {
    hide EncodeEntry;
  }

  /** The updated slot and the new one. */
  lemma OutcomeOwn(s: Store, log: Log, step: Step, t: Tid)
    requires Agrees(s, log) && step.Update? && Enabled(s, step)
    requires t == step.tid || (UpdateOutcome(s, step).err == 0 && t == Tid(step.tid.page, UpdateOutcome(s, step).slot))
    ensures RowAt(Apply(s, step), LogStep(log, s, step), t)
  {
    hide EncodeEntry, IsHistory, PagesOk, RowOk;
    var Update(tid, undoId, data, xid, owner) := step;
    assert RowAt(s, log, tid) && RowAt(s, log, t);
    var target := s.rows[tid.page];
    if IsLive(target, tid.slot) && |target.slots[tid.slot].tuple.data| <= MAX_OLD_DATA && HasRoom(s.undo[undoId], ENTRY_SIZE) {
      PageIds(s, tid.page);
      SlotsFit(target);
      EntryPushed(s.undo, undoId, tid, target.slots[tid.slot].tuple, log[tid], xid, owner, data);
    } else {
      assert Apply(s, step).rows == s.rows && Apply(s, step).undo == s.undo;
    }
  }

  lemma PageIds(s: Store, id: PageId)
    requires PagesOk(s.rows) && id in s.rows
    ensures 0 < id < U48 && PageOk(s.rows[id])
  {
  }

  lemma StepUpdate(s: Store, log: Log, step: Step)
    requires Agrees(s, log) && Enabled(s, step) && step.Update?
    ensures Agrees(Apply(s, step), LogStep(log, s, step))
  {
    var s', log' := Apply(s, step), LogStep(log, s, step);
    OutcomeOk(s, step);
    forall t
      ensures RowAt(s', log', t)
    {
      StepUpdateAt(s, log, step, t);
    }
  }

  lemma StepUpdateAt(s: Store, log: Log, step: Step, t: Tid)
    requires Agrees(s, log) && Enabled(s, step) && step.Update?
    ensures RowAt(Apply(s, step), LogStep(log, s, step), t)
  {
    hide Apply, RowOk, UpdateOutcome, Extends, Agrees;
    var o := UpdateOutcome(s, step);
    if t == step.tid || (o.err == 0 && t == Tid(step.tid.page, o.slot)) {
      OutcomeOwn(s, log, step, t);
    } else {
      AgreesAt(s, log, t);
      OutcomeOk(s, step);
      OutcomeOthers(s, step, t);
      RowKept(s, Apply(s, step), log, LogStep(log, s, step), t);
    }
  }

  lemma AgreesAt(s: Store, log: Log, t: Tid)
    requires Agrees(s, log)
    ensures RowAt(s, log, t) && PagesOk(s.rows) && PagesOk(s.undo)
  {
  }

  // -------------------------------------------------------------- whole runs

  ghost predicate IsRun(s: Store, steps: seq<Step>)
    decreases |steps|
  {
    steps == [] || (Enabled(s, steps[0]) && IsRun(Apply(s, steps[0]), steps[1..]))
  }

  ghost function RunStore(s: Store, steps: seq<Step>): Store
    requires IsRun(s, steps)
    decreases |steps|
  {
    if steps == [] then s else RunStore(Apply(s, steps[0]), steps[1..])
  }

  ghost function RunLog(s: Store, log: Log, steps: seq<Step>): Log
    requires IsRun(s, steps)
    decreases |steps|
  {
    if steps == [] then log else RunLog(Apply(s, steps[0]), LogStep(log, s, steps[0]), steps[1..])
  }

  /** Over every run the pages hold the log: every row, every earlier version. */
  lemma {:induction false} RunKeepsHistory(s: Store, log: Log, steps: seq<Step>)
    requires Agrees(s, log) && IsRun(s, steps)
    ensures Agrees(RunStore(s, steps), RunLog(s, log, steps))
    decreases |steps|
  {
    hide Agrees, Apply, LogStep, Enabled;
    if steps != [] {
      var step := steps[0];
      match step {
        case NewPage(_) => StepNew(s, log, step);
        case NewUndoPage(_) => StepNew(s, log, step);
        case Insert(_, _, _) => StepInsert(s, log, step);
        case Delete(_, _) => StepDelete(s, log, step);
        case Update(_, _, _, _, _) => StepUpdate(s, log, step);
      }
      RunKeepsHistory(Apply(s, step), LogStep(log, s, step), steps[1..]);
    }
  }

  lemma EmptyAgrees()
    ensures Agrees(Store(map[], map[]), map[])
  {
  }

  // ------------------------------------------------------------- coverage

  predicate Covers(v: Version, x: nat) { v.xmin <= x < v.xmax }

  predicate NewestFirst(ws: seq<Write>) { forall i, j | 0 <= i < j < |ws| :: ws[j].xid < ws[i].xid }

  /** With increasing transaction ids, each id from the first write on is covered by
      the current version or by exactly one earlier one, never by both. */
  lemma OneVersionCovers(ws: seq<Write>, x: nat)
    requires ws != [] && NewestFirst(ws) && ws[|ws| - 1].xid <= x
    ensures x >= ws[0].xid ==> forall k | 0 <= k < |Past(ws)| :: !Covers(Past(ws)[k], x)
    ensures x < ws[0].xid ==> exists k | 0 <= k < |Past(ws)| ::
      Covers(Past(ws)[k], x) && forall j | 0 <= j < |Past(ws)| && j != k :: !Covers(Past(ws)[j], x)
  {
    hide Past, NewestFirst, Covers;
    if x < ws[0].xid {
      var k := Newest(ws, x);
      assert Covers(Past(ws)[k - 1], x) by { CoveredBy(ws, x, k); }
      forall j | 0 <= j < |Past(ws)| && j != k - 1
        ensures !Covers(Past(ws)[j], x)
      {
        CoveredBy(ws, x, k);
        NotCovered(ws, x, k, j);
      }
    } else {
      forall j | 0 <= j < |Past(ws)|
        ensures !Covers(Past(ws)[j], x)
      {
        NotCovered(ws, x, 0, j);
      }
    }
  }

  lemma CoveredBy(ws: seq<Write>, x: nat, k: nat)
    requires 0 < k < |ws| && ws[k].xid <= x < ws[k - 1].xid
    ensures Covers(Past(ws)[k - 1], x)
  {
    hide Past;
    PastAt(ws, k - 1);
  }

  lemma NotCovered(ws: seq<Write>, x: nat, k: nat, j: nat)
    requires NewestFirst(ws) && k < |ws| && j + 1 < |ws| && j + 1 != k
    requires ws[k].xid <= x && (k == 0 || x < ws[k - 1].xid)
    ensures !Covers(Past(ws)[j], x)
  {
    hide Past;
    PastAt(ws, j);
    if j + 1 < k {
      assert j + 1 == k - 1 || ws[k - 1].xid < ws[j + 1].xid;
    } else {
      assert j == k || ws[j].xid < ws[k].xid;
    }
  }

  /** The transaction of a step that writes a row. */
  function Writer(step: Step, x: nat): nat {
    if step.Insert? || step.Update? then step.xid else x
  }

  /** Writing transactions start after `x` and only rise. */
  predicate Rising(steps: seq<Step>, x: nat)
    decreases |steps|
  {
    steps != [] ==>
      && ((steps[0].Insert? || steps[0].Update?) ==> x < steps[0].xid)
      && Rising(steps[1..], Writer(steps[0], x))
  }

  predicate WritesUpTo(ws: seq<Write>, x: nat) { ws != [] && NewestFirst(ws) && ws[0].xid <= x }

  predicate LogUpTo(log: Log, x: nat) { forall t | t in log :: WritesUpTo(log[t].writes, x) }

  lemma StepRises(s: Store, log: Log, step: Step, x: nat)
    requires Enabled(s, step) && LogUpTo(log, x) && ((step.Insert? || step.Update?) ==> x < step.xid)
    ensures LogUpTo(LogStep(log, s, step), Writer(step, x))
  {
    hide UpdateOutcome;
    var log', y := LogStep(log, s, step), Writer(step, x);
    forall t | t in log'
      ensures WritesUpTo(log'[t].writes, y)
    {
      if step.Update? && step.tid in log {
        assert WritesUpTo(log[step.tid].writes, x);
      }
      if t in log {
        assert WritesUpTo(log[t].writes, x);
      }
    }
  }

  lemma {:induction false} RunRises(s: Store, log: Log, steps: seq<Step>, x: nat)
    requires IsRun(s, steps) && LogUpTo(log, x) && Rising(steps, x)
    ensures forall t | t in RunLog(s, log, steps) :: NewestFirst(RunLog(s, log, steps)[t].writes)
    decreases |steps|
  {
    hide Apply, LogStep, Enabled;
    if steps == [] {
      assert forall t | t in log :: WritesUpTo(log[t].writes, x);
    } else {
      StepRises(s, log, steps[0], x);
      RunRises(Apply(s, steps[0]), LogStep(log, s, steps[0]), steps[1..], Writer(steps[0], x));
    }
  }

  /** From nothing, over any run whose transactions rise: the undo chain of a live
      tuple is its writes but the last, and one version answers each transaction. */
  lemma CompleteHistory(steps: seq<Step>, t: Tid, x: nat)
    requires IsRun(Store(map[], map[]), steps) && Rising(steps, 0)
    requires LiveAt(RunStore(Store(map[], map[]), steps).rows, t)
    ensures var s, log := RunStore(Store(map[], map[]), steps), RunLog(Store(map[], map[]), map[], steps);
      t in log && var ws, live := log[t].writes, TupleAt(s.rows, t);
      && ws != [] && live.xmin == ws[0].xid && live.data == ws[0].data
      && IsHistory(s.undo, live.undoPtr, Past(ws))
      && (ws[|ws| - 1].xid <= x < live.xmin ==> exists k | 0 <= k < |Past(ws)| ::
        Covers(Past(ws)[k], x) && forall j | 0 <= j < |Past(ws)| && j != k :: !Covers(Past(ws)[j], x))
      && (live.xmin <= x ==> forall j | 0 <= j < |Past(ws)| :: !Covers(Past(ws)[j], x))
  {
    hide Past, IsHistory, Covers, Apply, LogStep, Enabled, TupleAt, LiveAt;
    var s0 := Store(map[], map[]);
    EmptyAgrees();
    RunKeepsHistory(s0, map[], steps);
    RunRises(s0, map[], steps, 0);
    hide Agrees;
    AgreesAt(RunStore(s0, steps), RunLog(s0, map[], steps), t);
    var ws := RunLog(s0, map[], steps)[t].writes;
    hide NewestFirst;
    OldestIsLeast(ws);
    if ws[|ws| - 1].xid <= x {
      OneVersionCovers(ws, x);
    }
  }

  lemma OldestIsLeast(ws: seq<Write>)
    requires NewestFirst(ws) && ws != []
    ensures ws[|ws| - 1].xid <= ws[0].xid
  {
  }

  /** The row at `t` is the same in both. */
  predicate SameRow(s: Store, s': Store, t: Tid) {
    LiveAt(s'.rows, t) == LiveAt(s.rows, t) && (LiveAt(s.rows, t) ==> TupleAt(s'.rows, t) == TupleAt(s.rows, t))
  }

  /** An insert adds its row in the next slot exactly when the page has room for it, and
      changes no other. */
  lemma InsertLeaves(s: Store, step: Step, t: Tid)
    requires step.Insert? && Enabled(s, step)
    ensures var s', p := Apply(s, step), s.rows[step.page]; var at := Tid(step.page, |p.slots|);
      && (LiveAt(s'.rows, at) <==> Lower(|p.slots|) + 33 + |step.data| <= p.upper)
      && (LiveAt(s'.rows, at) ==> TupleAt(s'.rows, at) == Tuple(step.xid, 0, 0, step.data))
      && (t != at ==> SameRow(s, s', t)) && s'.undo == s.undo
  {
  }

  /** A delete stamps its row, which stays where it is, and changes no other. */
  lemma DeleteLeaves(s: Store, step: Step, t: Tid)
    requires step.Delete? && Enabled(s, step)
    ensures var s' := Apply(s, step);
      && (LiveAt(s.rows, step.tid) ==>
          LiveAt(s'.rows, step.tid) && TupleAt(s'.rows, step.tid) == TupleAt(s.rows, step.tid).(xmax := step.xid))
      && (t != step.tid || !LiveAt(s.rows, t) ==> SameRow(s, s', t)) && s'.undo == s.undo
  {
  }

  /** When an update succeeds, by the bytes that are free: the old payload fits into an undo
      entry, the entry into the undo page, and the new payload into the old slot or the page. */
  predicate UpdateFits(target: Page, slot: nat, undo: Page, len: nat) {
    && IsLive(target, slot) && |target.slots[slot].tuple.data| <= 256 && Lower(|undo.slots|) + 340 <= undo.upper
    && (len <= target.slots[slot].cap || Lower(|target.slots|) + 33 + len <= target.upper)
  }

  /** The answer of an update, and the slot of the new version: the old one when the payload
      fits there, otherwise the next. */
  lemma UpdateAnswers(target: Page, tid: Tid, undo: Page, undoId: PageId, data: seq<byte>, xid: nat, owner: nat)
    requires PageOk(target)
    ensures var o := Updated(target, tid, undo, undoId, data, xid, owner); var live := IsLive(target, tid.slot);
      && (o.err == 0 <==> UpdateFits(target, tid.slot, undo, |data|))
      && (o.err == ENOENT <==> !live)
      && (o.err == EMSGSIZE <==> live && |target.slots[tid.slot].tuple.data| > 256)
      && (o.err == EINVAL <==> live && |target.slots[tid.slot].tuple.data| <= 256 && Lower(|undo.slots|) + 340 <= undo.upper
                               && target.slots[tid.slot].cap < |data| && 8192 < |data|)
      && o.err in {0, ENOENT, EMSGSIZE, ENOSPC, EINVAL}
      && (o.err == 0 ==> o.slot == if |data| <= target.slots[tid.slot].cap then tid.slot else |target.slots|)
  {
    hide EncodeEntry;
  }

  /** What a successful update leaves: the new version where the answer says, with the room it
      had or takes; nothing at the old address if that is another; and behind its link an entry
      with the old version, its address, its own link and the row's owner. */
  lemma UpdateLeaves(s: Store, log: Log, step: Step)
    requires Agrees(s, log) && step.Update? && Enabled(s, step) && UpdateOutcome(s, step).err == 0
    ensures LiveAt(s.rows, step.tid)
    ensures var s', at := Apply(s, step), Tid(step.tid.page, UpdateOutcome(s, step).slot);
      && LiveAt(s'.rows, at) && (at != step.tid ==> !LiveAt(s'.rows, step.tid))
      && var t, prior := TupleAt(s'.rows, at), TupleAt(s.rows, step.tid);
      && t.xmin == step.xid && t.xmax == 0 && t.data == step.data
      && s'.rows[at.page].slots[at.slot].cap == (if at == step.tid then s.rows[at.page].slots[at.slot].cap else |step.data|)
      && EntryAt(s'.undo, t.undoPtr) && TupleAt(s'.undo, Unpack(t.undoPtr)).xmin == step.xid
      && GetEntry(s'.undo, t.undoPtr) == Entry(step.owner, step.tid, prior.undoPtr, prior.xmin, step.xid, OP_UPDATE, prior.data)
  {
    hide EncodeEntry, DecodeEntry, IsEntry, Agrees, Pack, Unpack, RowOk;
    var Update(tid, undoId, data, xid, owner) := step;
    AgreesAt(s, log, tid);
    PageIds(s, tid.page);
    UndoIds(s, undoId);
    LiveFits(s, log, tid);
    var target, p := s.rows[tid.page], s.undo[undoId];
    SlotsFit(target);
    SlotsFit(p);
    var prior := target.slots[tid.slot].tuple;
    EntryRoundTrip(Entry(owner, tid, prior.undoPtr, prior.xmin, xid, OP_UPDATE, prior.data));
    PackRoundTrip(Tid(undoId, |p.slots|));
  }

  lemma UndoIds(s: Store, id: PageId)
    requires PagesOk(s.undo) && id in s.undo
    ensures 0 < id < U48 && PageOk(s.undo[id])
  {
  }

  lemma LiveFits(s: Store, log: Log, t: Tid)
    requires RowAt(s, log, t)
    ensures LiveAt(s.rows, t) ==> Fits64(TupleAt(s.rows, t))
  {
  }

  /** An update takes a row away exactly when the new payload must move and cannot. */
  lemma UpdateLosesRow(s: Store, log: Log, step: Step)
    requires Agrees(s, log) && step.Update? && Enabled(s, step) && LiveAt(s.rows, step.tid)
    ensures var target, o := s.rows[step.tid.page], UpdateOutcome(s, step);
      var moved := Tid(step.tid.page, o.slot);
      var stuck := && |TupleAt(s.rows, step.tid).data| <= MAX_OLD_DATA && HasRoom(s.undo[step.undoId], ENTRY_SIZE)
                   && target.slots[step.tid.slot].cap < |step.data| && !HasRoom(target, |step.data|);
      && (stuck <==> !LiveAt(Apply(s, step).rows, step.tid) && o.err != 0)
      && (!stuck && o.err != 0 ==> Apply(s, step) == s)
      && (o.err == 0 ==> LiveAt(Apply(s, step).rows, moved) && TupleAt(Apply(s, step).rows, moved).data == step.data)
  {
    hide EncodeEntry, Agrees;
    AgreesAt(s, log, step.tid);
    PageIds(s, step.tid.page);
    assert s.rows[step.tid.page := s.rows[step.tid.page]] == s.rows;
    assert s.undo[step.undoId := s.undo[step.undoId]] == s.undo;
  }

  function Filler(n: nat): (r: seq<byte>)
    ensures |r| == n
  {
    seq(n, _ => 7)
  }

  /** A page with a short row and one that leaves it almost no room, and an undo page. */
  function Crowd(): seq<Step> { [NewPage(1), NewUndoPage(2), Insert(1, Filler(8), 1), Insert(1, Filler(8000), 2)] }

  /** Reached from nothing: an update that loses its row. */
  lemma LostRow()
    ensures var s0, tid := Store(map[], map[]), Tid(1, 0); var update := Update(tid, 2, Filler(100), 3, 0);
      && IsRun(s0, Crowd()) && var s := RunStore(s0, Crowd());
      && LiveAt(s.rows, tid) && Enabled(s, update)
      && UpdateOutcome(s, update).err == ENOSPC && !LiveAt(Apply(s, update).rows, tid)
  {
    hide EncodeEntry, Filler;
    var s0 := Store(map[], map[]);
    var s1 := Apply(s0, NewPage(1));
    var s2 := Apply(s1, NewUndoPage(2));
    var s3 := Apply(s2, Insert(1, Filler(8), 1));
    var s4 := Apply(s3, Insert(1, Filler(8000), 2));
    var steps := Crowd();
    assert steps[1..][1..][1..][1..] == [];
    assert IsRun(s4, steps[1..][1..][1..][1..]) && RunStore(s4, steps[1..][1..][1..][1..]) == s4;
    assert IsRun(s3, steps[1..][1..][1..]) && RunStore(s3, steps[1..][1..][1..]) == s4;
    assert IsRun(s2, steps[1..][1..]) && RunStore(s2, steps[1..][1..]) == s4;
    assert IsRun(s1, steps[1..]) && RunStore(s1, steps[1..]) == s4;
  }

  /** The newest write at or before `x`. */
  lemma Newest(ws: seq<Write>, x: nat) returns (k: nat)
    requires ws != [] && ws[|ws| - 1].xid <= x < ws[0].xid
    ensures 0 < k < |ws| && ws[k].xid <= x < ws[k - 1].xid
  {
    k := 1;
    while ws[k].xid > x
      invariant 0 < k < |ws| && x < ws[k - 1].xid
      decreases |ws| - k
    {
      k := k + 1;
    }
  }
}
