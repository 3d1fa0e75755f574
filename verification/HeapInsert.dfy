/** The resumable, time-sliced insert of one row into a table. */
module HeapInsert {
  import opened Basics
  import opened Bytes
  import opened HeapLayout
  import opened HeapEffects
  import opened UndoHistory
  import opened HeapInsertSpec
  import opened HeapPages

  datatype Phase = DupScan | FindTail | WalInitPage | WalInsert | PhaseDone

  datatype Result = Done | Error | Continue

  datatype WalRecord = InitRec(page: PageId) | InsertRec(page: PageId, data: seq<byte>)

  /** Whether the slice of run `call` has expired at its `check`-th test; tests made on
      entering the second walk are told apart. */
  datatype Slices = Slices(inWalk: (nat, nat) -> bool, onEntry: nat -> bool)

  class HeapInsertExec {
    const root: PageId
    const isHeap: bool
    const data: seq<byte>
    const xid: nat
    const slices: Slices
    const accepts: WalRecord -> bool

    var phase: Phase
    var cursor: PageId
    var ret: int
    var unitsDone: nat
    var target: Tid
    var needInit: bool
    var calls: nat
    var checks: nat

    var pages: Pages
    var supply: seq<PageId>
    var records: seq<WalRecord>

    // The table as it was, and how far the walk has come.
    ghost const start: Pages
    ghost const chain: seq<PageId>
    ghost const startSupply: seq<PageId>
    ghost var at: nat

    constructor (root: PageId, isHeap: bool, data: seq<byte>, xid: nat, pages: Pages, supply: seq<PageId>,
                 slices: Slices, accepts: WalRecord -> bool, ghost chain: seq<PageId>)
      requires IsChain(pages, root, chain) && Supplied(pages, supply) && |data| < 0x1_0000
      ensures Valid() && this.isHeap == isHeap && this.data == data && this.xid == xid && this.root == root
      ensures start == pages && this.chain == chain && startSupply == supply && this.slices == slices
      ensures phase == DupScan && at == 0 && calls == 0
    {
      this.root, this.isHeap, this.data, this.xid := root, isHeap, data, xid;
      this.slices, this.accepts, this.chain := slices, accepts, chain;
      start, startSupply := pages, supply;
      this.pages, this.supply, records := pages, supply, [];
      phase, cursor, ret, unitsDone, target, needInit := DupScan, root, 0, 0, Tid(0, 0), false;
      calls, checks, at := 0, 0, 0;
    }

    function Key(): seq<byte> { if |data| >= KEY_SIZE then data[..KEY_SIZE] else [] }

    /** What the whole insert comes to. */
    ghost function Goal(): Final
      requires Fixed()
    {
      ChainPages(start, root, chain);
      if isHeap then InsertRow(start, chain, data, xid, startSupply) else Final(EINVAL, start, Tid(0, 0), false)
    }

    /** The records of a successful insert: one for a page it added, one for its row, each if
        the log takes it. */
    ghost function GoalRecords(): seq<WalRecord>
      requires Fixed()
    {
      var init, row := InitRec(Goal().at.page), InsertRec(Goal().at.page, data);
      (if Goal().grew && accepts(init) then [init] else []) + (if accepts(row) then [row] else [])
    }

    /** When the insert succeeds and where its row goes, by the pages before it. */
    lemma GoalTaken()
      requires Fixed() && isHeap && KEY_SIZE <= |data| <= 8192 && NoneHas(start, chain, data[..KEY_SIZE])
      ensures forall i | 0 <= i < |chain| :: chain[i] in start
      ensures var f, room := Goal(), exists j | 0 <= j < |chain| :: Fits(start[chain[j]], |data|);
        && (f.err == 0 <==> room || (startSupply != [] && |data| <= 8102))
        && (f.err == 0 && room ==> exists j | 0 <= j < |chain| :: WentTo(start, chain, |data|, f, j))
        && (f.err == 0 && !room ==> f.grew && f.at == Tid(startSupply[0], 0))
        && (f.err == 0 ==> RowIn(f.pages, ChainAfter(chain, f), f.at) && TupleAt(f.pages, f.at) == Tuple(xid, 0, 0, data))
        && (f.err != 0 ==> f.err == ENOSPC)
    {
      hide IsChain, InsertRow, NoneHas;
      ChainPages(start, root, chain);
      InsertTaken(start, root, chain, data, xid, startSupply);
    }

    ghost predicate Fixed() { IsChain(start, root, chain) && Supplied(start, startSupply) && |data| < 0x1_0000 }

    ghost predicate Untouched()
      reads this`pages, this`supply
    {
      pages == start && supply == startSupply
    }

    ghost predicate Scanning()
      requires Fixed()
      reads this`pages, this`supply, this`at, this`cursor, this`unitsDone
    {
      ChainPages(start, root, chain);
      && Untouched() && at <= |chain| && cursor == (if at < |chain| then chain[at] else 0) && unitsDone == at
      && ScanChain(start, chain, 0, Key()) == ScanChain(start, chain, at, Key())
    }

    ghost predicate Walking()
      requires Fixed()
      reads this`pages, this`supply, this`at, this`cursor, this`unitsDone
    {
      ChainPages(start, root, chain);
      && Untouched() && isHeap && |data| >= KEY_SIZE && at < |chain| && cursor == chain[at] && unitsDone == |chain| + at
      && ScanChain(start, chain, 0, Key()).Clear?
      && FirstRoom(start, chain, 0, |data|) == FirstRoom(start, chain, at, |data|)
    }

    ghost predicate AllFull()
      requires Fixed()
    {
      ChainPages(start, root, chain);
      FirstRoom(start, chain, 0, |data|) == |chain|
    }

    /** The pages visited: the whole chain once, then up to the page that took the row. */
    ghost function Visited(): nat
      requires Fixed()
    {
      ChainPages(start, root, chain);
      var j := FirstRoom(start, chain, 0, |data|);
      |chain| + if j < |chain| then j + 1 else |chain|
    }

    ghost predicate Placed()
      requires Fixed()
      reads this`pages, this`target, this`needInit, this`unitsDone
    {
      Goal().err == 0 && pages == Goal().pages && target == Goal().at && needInit == Goal().grew && unitsDone == Visited()
    }

    function Accepted(rec: WalRecord): seq<WalRecord> { if accepts(rec) then [rec] else [] }

    /** The records written before `phase`. */
    function LogBefore(phase: Phase): seq<WalRecord>
      reads this`target, this`needInit
    {
      var init := if needInit then Accepted(InitRec(target.page)) else [];
      match phase
      case WalInsert => init
      case PhaseDone => init + Accepted(InsertRec(target.page, data))
      case _ => []
    }

    ghost predicate Valid()
      reads this
    {
      && Fixed() && records == LogBefore(phase) && (phase.WalInitPage? ==> needInit)
      && match phase
         case DupScan => Scanning() && at < |chain|
         case FindTail => Walking()
         case _ => Placed()
    }

    /** Work left: the pages of both walks that are still ahead. */
    ghost function Rank(): nat
      requires Valid()
      reads this
    {
      if phase.DupScan? then 2 * |chain| - at else if phase.FindTail? then |chain| - at else 0
    }

    method Expired() returns (e: bool)
      modifies this`checks
      ensures e == slices.inWalk(calls, old(checks))
    {
      e := slices.inWalk(calls, checks);
      checks := checks + 1;
    }

    /** One page of the first walk. */
    method ScanPage(id: PageId) returns (v: Verdict, next: PageId)
      requires id in pages
      ensures v == ScanSlots(pages[id].slots, 0, Key()) && next == pages[id].next
    {
      var slots := pages[id].slots;
      v := Clear;
      next := pages[id].next;
      for slot := 0 to |slots|
        invariant v.Clear? && ScanSlots(slots, 0, Key()) == ScanSlots(slots, slot, Key())
      {
        if slots[slot].Live? {
          var row := slots[slot].tuple.data;
          if |row| > SCAN_BUF {
            return TooLong, next;
          }
          if |row| >= KEY_SIZE && row[..KEY_SIZE] == Key() {
            return Duplicate, next;
          }
        }
      }
    }

    method RunDupScan() returns (r: Result)
      requires Fixed() && Scanning() && at < |chain| && isHeap && |data| >= KEY_SIZE
      modifies this`cursor, this`ret, this`unitsDone, this`checks, this`at
      ensures r.Done? ==> Scanning() && at == |chain|
      ensures r.Continue? ==> Scanning() && old(at) < at < |chain|
      ensures r.Error? ==> ret == Goal().err != 0 && pages == Goal().pages
    {
      ChainPages(start, root, chain);
      hide IsChain;
      while cursor != 0
        invariant Scanning() && old(at) <= at
        decreases |chain| - at
      {
        LinkAt(start, root, chain, at);
        var v, next := ScanPage(cursor);
        if v.TooLong? {
          ret := ENOSPC;
          return Error;
        }
        if v.Duplicate? {
          ret := EEXIST;
          return Error;
        }
        unitsDone := unitsDone + 1;
        cursor := next;
        at := at + 1;
        if cursor != 0 {
          var expired := Expired();
          if expired {
            return Continue;
          }
        }
      }
      if at < |chain| {
        LinkAt(start, root, chain, at);
        assert false;
      }
      r := Done;
    }

    /** Adds a page to the end of the chain and the row to it. */
    method Grow() returns (r: Result)
      requires Fixed() && Walking() && at == |chain| - 1 && AllFull() && |data| <= PAGE_SIZE
      modifies this`ret, this`target, this`needInit, this`unitsDone, this`pages, this`supply
      ensures r.Done? ==> Placed()
      ensures r.Error? ==> ret == Goal().err != 0 && pages == Goal().pages
      ensures !r.Continue?
    {
      hide IsChain, ScanChain, FirstRoom;
      ChainPages(start, root, chain);
      if supply == [] {
        ret := ENOSPC;
        return Error;
      }
      var id := supply[0];
      supply := supply[1..];
      pages := pages[id := EmptyPage];
      if !HasRoom(EmptyPage, |data|) {
        ret := ENOSPC;
        return Error;
      }
      pages := pages[id := Inserted(EmptyPage, RowTuple(data, xid))];
      pages := pages[cursor := pages[cursor].(next := id)];
      target := Tid(id, 0);
      needInit := true;
      unitsDone := unitsDone + 1;
      assert pages == Goal().pages;
      r := Done;
    }

    method RunFindTail() returns (r: Result)
      requires Fixed() && Walking()
      modifies this`cursor, this`ret, this`target, this`needInit, this`unitsDone, this`checks, this`pages, this`supply, this`at
      ensures r.Done? ==> Placed()
      ensures r.Continue? ==> Walking() && old(at) < at
      ensures r.Error? ==> ret == Goal().err != 0 && pages == Goal().pages
    {
      ChainPages(start, root, chain);
      hide IsChain, ScanChain;
      while true
        invariant Walking() && old(at) <= at
        decreases |chain| - at
      {
        LinkAt(start, root, chain, at);
        var page := pages[cursor];
        if |data| > PAGE_SIZE {
          ret := EINVAL;
          return Error;
        }
        if HasRoom(page, |data|) {
          pages := pages[cursor := Inserted(page, RowTuple(data, xid))];
          target := Tid(cursor, |page.slots|);
          needInit := false;
          unitsDone := unitsDone + 1;
          return Done;
        }
        var next := page.next;
        if next == 0 {
          r := Grow();
          return;
        }
        unitsDone := unitsDone + 1;
        cursor := next;
        at := at + 1;
        var expired := Expired();
        if expired {
          return Continue;
        }
      }
    }

    /** Appends a record when the log takes it; the insert goes on either way. */
    method Log(rec: WalRecord)
      modifies this`records
      ensures records == old(records) + Accepted(rec)
    {
      if accepts(rec) {
        records := records + [rec];
      } else {
        assert old(records) + [] == records;
      }
    }

    /** One call of the executor. However often it is interrupted, it ends in the goal;
        and each call that does not already start expired brings the end nearer. */
    method Run() returns (r: Result)
      requires Valid()
      modifies this
      ensures calls == old(calls) + 1
      ensures !r.Error? ==> Valid()
      ensures r.Done? ==> Goal().err == 0 && pages == Goal().pages && target == Goal().at && unitsDone == Visited()
      ensures r.Done? ==> needInit == Goal().grew && records == GoalRecords()
      ensures r.Error? ==> ret == Goal().err != 0 && pages == Goal().pages
      ensures r.Continue? ==> pages == start && 0 < Rank()
      ensures r.Continue? ==> Rank() < old(Rank()) || (Rank() == old(Rank()) && Stalls(old(phase), old(calls)))
    {
      hide IsChain, ScanChain, InsertRow, FirstRoom, HeapInsertExec.Goal, HeapInsertExec.Visited;
      calls := calls + 1;
      checks := 0;
      if !isHeap || |data| < KEY_SIZE {
        FirstPhase();
        ret := EINVAL;
        return Error;
      }
      ghost var entered := phase;
      while phase != PhaseDone
        invariant Valid() && calls == old(calls) + 1 && isHeap && |data| >= KEY_SIZE
        invariant phase == entered ==> Rank() == old(Rank())
        invariant phase != entered ==> phase != DupScan && (phase.FindTail? ==> Rank() < old(Rank()))
        decreases PhasesLeft(phase)
      {
        r := RunPhase();
        if r != Done {
          return;
        }
      }
      r := Done;
    }

    ghost function PhasesLeft(phase: Phase): nat {
      match phase case DupScan => 4 case FindTail => 3 case WalInitPage => 2 case WalInsert => 1 case PhaseDone => 0
    }

    /** One phase, to its end or to the end of the slice. */
    method RunPhase() returns (r: Result)
      requires Valid() && phase != PhaseDone && isHeap && |data| >= KEY_SIZE && calls > 0
      modifies this
      ensures calls == old(calls)
      ensures r.Done? ==> Valid() && PhasesLeft(phase) < PhasesLeft(old(phase)) && (phase.FindTail? ==> Rank() < old(Rank()))
      ensures r.Continue? ==> Valid() && phase == old(phase) && pages == start && 0 < Rank()
      ensures r.Continue? ==> Rank() < old(Rank()) || (Rank() == old(Rank()) && Stalls(old(phase), calls - 1))
      ensures r.Error? ==> ret == Goal().err != 0 && pages == Goal().pages
    {
      hide IsChain, ScanChain, InsertRow, FirstRoom, HeapInsertExec.Goal, HeapInsertExec.Visited;
      match phase {
        case DupScan =>
          r := RunDupScan();
          if r == Done {
            StartWalk();
          }
        case FindTail =>
          if slices.onEntry(calls - 1) {
            return Continue;
          }
          r := RunFindTail();
          if r == Done {
            phase := if needInit then WalInitPage else WalInsert;
          }
        case WalInitPage =>
          Log(InitRec(target.page));
          phase := WalInsert;
          r := Done;
        case WalInsert =>
          Log(InsertRec(target.page, data));
          phase := PhaseDone;
          r := Done;
      }
    }

    /** Up to `n` calls. If all of them were interrupted, only as many as two walks over
        the chain can be interrupted, plus those that started with an expired slice. */
    method RunCalls(n: nat) returns (r: Result, ghost stalls: nat)
      requires Valid() && phase == DupScan && at == 0
      modifies this
      ensures r.Continue? ==> n < 2 * |chain| + stalls && pages == start
      ensures r.Done? ==> Goal().err == 0 && pages == Goal().pages && target == Goal().at && unitsDone == Visited()
      ensures r.Done? ==> records == GoalRecords()
      ensures r.Error? ==> ret == Goal().err != 0 && pages == Goal().pages
      ensures (forall c | old(calls) <= c :: !slices.onEntry(c)) ==> stalls == 0
    {
      hide HeapInsertExec.Valid, HeapInsertExec.Goal, HeapInsertExec.Visited, HeapInsertExec.Fixed;
      FreshRank();
      stalls := 0;
      r := Continue;
      for i := 0 to n
        invariant r.Continue? && Valid() && pages == start && calls == old(calls) + i
        invariant 0 < Rank() && Rank() + i <= 2 * |chain| + stalls
        invariant (forall c | old(calls) <= c :: !slices.onEntry(c)) ==> stalls == 0
      {
        ghost var before := Rank();
        ghost var entered, call := phase, calls;
        r := Run();
        if r != Continue {
          return;
        }
        if Rank() == before {
          assert slices.onEntry(call);
          stalls := stalls + 1;
        }
      }
    }

    lemma FreshRank()
      requires Valid() && phase == DupScan && at == 0
      ensures Rank() == 2 * |chain| > 0 && pages == start
    {
    }

    /** A call that finds its slice already expired on entering the second walk. */
    ghost predicate Stalls(phase: Phase, call: nat) { phase.FindTail? && slices.onEntry(call) }

    lemma FirstPhase()
      requires Valid() && (!isHeap || |data| < KEY_SIZE)
      ensures Goal().err == EINVAL && pages == Goal().pages
    {
    }

    method StartWalk()
      requires phase == DupScan && Fixed() && Scanning() && at == |chain| && isHeap && |data| >= KEY_SIZE
      requires records == []
      modifies this`phase, this`cursor, this`at
      ensures phase == FindTail && Valid() && at == 0
    {
      assert IsChain(start, root, chain);
      phase := FindTail;
      cursor := root;
      at := 0;
    }
  }

  /** The same scan on the bytes of a page, whatever lies in memory behind them: each read
      copies 256 bytes, and what it decides depends on the row alone. */
  method ScanBytes(p: HeapPage, key: seq<byte>, beyond: seq<byte>) returns (v: Verdict, next: PageId)
    requires p.Valid() && |key| == KEY_SIZE && |beyond| == SCAN_BUF
    ensures v == ScanSlots(p.Content().slots, 0, key) && next == p.Content().next
  {
    hide WellFormed, View, SlotAt;
    v := Clear;
    next := p.GetNext();
    var n := p.NrOfSlots();
    for slot := 0 to n
      invariant v.Clear? && ScanSlots(p.Content().slots, 0, key) == ScanSlots(p.Content().slots, slot, key)
    {
      p.ReachesAlways(slot, SCAN_BUF);
      var err, hdr, buf := p.ReadTuple(slot, SCAN_BUF, beyond);
      if err == ENOSPC {
        return TooLong, next;
      }
      if err == 0 && |hdr.data| >= KEY_SIZE {
        assert buf[..|hdr.data|][..KEY_SIZE] == buf[..KEY_SIZE];
        if buf[..KEY_SIZE] == key {
          return Duplicate, next;
        }
      }
    }
  }

  lemma LinkAt(m: Pages, root: PageId, ch: seq<PageId>, i: nat)
    requires IsChain(m, root, ch) && i < |ch|
    ensures ch[i] != 0 && ch[i] in m && m[ch[i]].next == if i + 1 < |ch| then ch[i + 1] else 0
    ensures i + 1 < |ch| ==> ch[i + 1] != 0
  {
    assert Link(m, ch, i);
    if i + 1 < |ch| {
      assert Link(m, ch, i + 1);
    }
  }
}
