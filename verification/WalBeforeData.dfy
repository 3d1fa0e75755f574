/** The rule that ties the executor and the checkpointer together: no row reaches the
    disk before the log record that describes it. */
module WalBeforeData {
  import opened Basics
  import opened Bytes
  import opened WalRing
  import opened WalChain
  import opened WalRecord
  import opened WalSim
  import opened WalDisk
  import opened Wal

  type Row = seq<byte>

  /** Ids of heap pages are 64 bits wide. */
  type HeapId = x: nat | x < U64

  const REC_INSERT: byte := 1
  const REC_INIT_PAGE: byte := 3
  const PAGE_TYPE_HEAP: byte := 4

  /** Bytes of an INIT_PAGE record. */
  const INIT_REC: nat := REC_HDR + 12

  // ---------------------------------------------------------------- entries

  /** The body of an INSERT record reads as page id, offset (always 0), length and row. */
  predicate Describes(body: seq<byte>, page: HeapId, row: Row) {
    && |body| == 16 + |row|
    && Nat(body[..8]) == page && Nat(body[8..12]) == 0 && Nat(body[12..16]) == |row| && body[16..] == row
  }

  function InsertBody(page: HeapId, row: Row): (r: seq<byte>)
    ensures |r| == 16 + |row| && (|row| < U32 ==> Describes(r, page, row))
  {
    if |row| < U32 then InsertBodyReads(page, row); Le(page, 8) + Le(0, 4) + Le(|row|, 4) + row
    else Le(page, 8) + Le(0, 4) + Le(|row|, 4) + row
  }

  lemma InsertBodyReads(page: HeapId, row: Row)
    requires |row| < U32
    ensures Describes(Le(page, 8) + Le(0, 4) + Le(|row|, 4) + row, page, row)
  {
    hide Le, Nat, Pow256;
    Widths();
    NatOfLe(page, 8);
    NatOfLe(0, 4);
    NatOfLe(|row|, 4);
    FourParts(Le(page, 8), Le(0, 4), Le(|row|, 4), row);
  }

  lemma FourParts(a: seq<byte>, b: seq<byte>, c: seq<byte>, d: seq<byte>)
    requires |a| == 8 && |b| == 4 && |c| == 4
    ensures var r := a + b + c + d; |r| == 16 + |d| && r[..8] == a && r[8..12] == b && r[12..16] == c && r[16..] == d
  {
  }

  /** The body of an INIT_PAGE record reads as page id and page type. */
  function InitBody(page: HeapId): (r: seq<byte>)
    ensures |r| == 12 && Nat(r[..8]) == page && r[8] == PAGE_TYPE_HEAP && r[9..] == [0, 0, 0]
  {
    Widths();
    NatOfLe(page, 8);
    var r := Le(page, 8) + [PAGE_TYPE_HEAP, 0, 0, 0];
    assert r[..8] == Le(page, 8);
    r
  }

  // ------------------------------------------------------ rows and records

  type Rows = map<HeapId, seq<Row>>

  /** Which record belongs to the `i`-th row of a page. */
  type Owner = map<(HeapId, nat), nat>

  /** The bytes of record `r` are in `bytes`, whole: they read as its numbers, as an INSERT, and
      as this row. */
  ghost predicate IsRecord(bytes: seq<byte>, r: Rec, page: HeapId, row: Row) {
    && r.len == REC_HDR + 16 + |row| && r.off + r.len <= |bytes|
    && (var h := bytes[r.off..r.off + REC_HDR]; Reads(h, r.lsn, r.prev, Nat(h[16..24]), REC_INSERT, 16 + |row|))
    && Describes(bytes[r.off + REC_HDR..r.off + r.len], page, row)
  }

  /** A record is the record of one row. */
  lemma OneRow(bytes: seq<byte>, r: Rec, page: HeapId, row: Row, page': HeapId, row': Row)
    requires IsRecord(bytes, r, page, row) && IsRecord(bytes, r, page', row')
    ensures page == page' && row == row'
  {
  }

  lemma RecordKept(bytes: seq<byte>, longer: seq<byte>, r: Rec, page: HeapId, row: Row)
    requires IsRecord(bytes, r, page, row) && bytes <= longer
    ensures IsRecord(longer, r, page, row)
  {
    hide Reads, Describes;
    assert longer[r.off..r.off + REC_HDR] == bytes[r.off..r.off + REC_HDR];
    assert longer[r.off + REC_HDR..r.off + r.len] == bytes[r.off + REC_HDR..r.off + r.len];
  }

  lemma RecordLength(bytes: seq<byte>, r: Rec, page: HeapId, row: Row)
    requires IsRecord(bytes, r, page, row)
    ensures r.len == REC_HDR + 16 + |row|
  {
    hide Reads, Describes;
  }

  ghost predicate HasRecord(bytes: seq<byte>, recs: seq<Rec>, owner: Owner, page: HeapId, i: nat, row: Row) {
    (page, i) in owner && owner[(page, i)] < |recs| && IsRecord(bytes, recs[owner[(page, i)]], page, row)
  }

  /** Every row has its own record among `bytes`. */
  ghost predicate AllRecorded(bytes: seq<byte>, recs: seq<Rec>, owner: Owner, rows: Rows) {
    forall p, i | p in rows && 0 <= i < |rows[p]| :: HasRecord(bytes, recs, owner, p, i, rows[p][i])
  }

  /** No record serves two rows, and every record named is there. */
  ghost predicate OwnerOk(owner: Owner, n: nat) {
    && (forall x | x in owner :: owner[x] < n)
    && (forall x, y | x in owner && y in owner && x != y :: owner[x] != owner[y])
  }

  /** Only rows that are there have records. */
  ghost predicate Names(owner: Owner, rows: Rows) {
    forall x | x in owner :: x.0 in rows && x.1 < |rows[x.0]|
  }

  lemma AllRecordedKept(bytes: seq<byte>, longer: seq<byte>, recs: seq<Rec>, more: seq<Rec>, owner: Owner, rows: Rows)
    requires AllRecorded(bytes, recs, owner, rows) && bytes <= longer && recs <= more
    ensures AllRecorded(longer, more, owner, rows)
  {
    hide IsRecord;
    forall p, i | p in rows && 0 <= i < |rows[p]|
      ensures HasRecord(longer, more, owner, p, i, rows[p][i])
    {
      assert HasRecord(bytes, recs, owner, p, i, rows[p][i]);
      RecordKept(bytes, longer, recs[owner[(p, i)]], p, rows[p][i]);
    }
  }

  /** Clean pages are on disk as they are in the pool; dirty ones have more rows in the pool. */
  ghost predicate PoolOk(rows: Rows, disk: Rows, dirty: set<HeapId>) {
    && dirty <= rows.Keys
    && (forall p | p in rows && p !in dirty :: p in disk && disk[p] == rows[p])
    && (forall p | p in disk :: p in rows && disk[p] <= rows[p])
  }

  function RowsOf(rows: Rows, page: HeapId): seq<Row> { if page in rows then rows[page] else [] }

  /** A new row takes the record appended for it. */
  lemma RowAdded(bytes: seq<byte>, recs: seq<Rec>, owner: Owner, rows: Rows, page: HeapId, row: Row)
    requires recs != [] && AllRecorded(bytes, recs, owner, rows) && OwnerOk(owner, |recs| - 1)
    requires IsRecord(bytes, recs[|recs| - 1], page, row)
    ensures var rows' := rows[page := RowsOf(rows, page) + [row]]; var owner' := owner[(page, |RowsOf(rows, page)|) := |recs| - 1];
      AllRecorded(bytes, recs, owner', rows') && OwnerOk(owner', |recs|)
  {
    hide IsRecord, OwnerOk, HasRecord;
    var n := |RowsOf(rows, page)|;
    var rows', owner' := rows[page := RowsOf(rows, page) + [row]], owner[(page, n) := |recs| - 1];
    NewRecord(bytes, recs, owner, page, n, row);
    forall p, i | p in rows' && 0 <= i < |rows'[p]|
      ensures HasRecord(bytes, recs, owner', p, i, rows'[p][i])
    {
      if p != page || i < n {
        assert rows'[p][i] == rows[p][i];
        assert HasRecord(bytes, recs, owner, p, i, rows[p][i]);
        OtherRecord(bytes, recs, owner, p, i, rows[p][i], (page, n), |recs| - 1);
      } else {
        assert rows'[p][i] == row;
      }
    }
    OwnerAdded(owner, |recs| - 1, (page, n));
  }

  lemma NewRecord(bytes: seq<byte>, recs: seq<Rec>, owner: Owner, page: HeapId, n: nat, row: Row)
    requires recs != [] && IsRecord(bytes, recs[|recs| - 1], page, row)
    ensures HasRecord(bytes, recs, owner[(page, n) := |recs| - 1], page, n, row)
  {
    hide IsRecord;
  }

  lemma OtherRecord(bytes: seq<byte>, recs: seq<Rec>, owner: Owner, p: HeapId, i: nat, row: Row, x: (HeapId, nat), k: nat)
    requires HasRecord(bytes, recs, owner, p, i, row) && x != (p, i)
    ensures HasRecord(bytes, recs, owner[x := k], p, i, row)
  {
    hide IsRecord;
  }

  lemma OwnerAdded(owner: Owner, n: nat, x: (HeapId, nat))
    requires OwnerOk(owner, n)
    ensures OwnerOk(owner[x := n], n + 1)
  {
  }

  /** Rows already recorded stay so when more rows get records. */
  lemma OthersKept(bytes: seq<byte>, recs: seq<Rec>, owner: Owner, rows: Rows, page: HeapId, n: nat, k: nat)
    requires AllRecorded(bytes, recs, owner, rows) && (page in rows ==> |rows[page]| <= n)
    ensures AllRecorded(bytes, recs, owner[(page, n) := k], rows)
  {
    hide IsRecord;
    forall p, i | p in rows && 0 <= i < |rows[p]|
      ensures HasRecord(bytes, recs, owner[(page, n) := k], p, i, rows[p][i])
    {
      assert HasRecord(bytes, recs, owner, p, i, rows[p][i]);
    }
  }

  // --------------------------------------------------------- log on disk

  /** The log pages that have contents. */
  ghost function Written(pages: map<PageId, WalPage>, chain: seq<PageId>): seq<PageId>
    requires ChainOk(pages, chain)
  {
    if pages[Last(chain)].used > 0 then chain else chain[..|chain| - 1]
  }

  /** The disk images of the log pages that have contents hold the bytes of the log. */
  lemma DurableBytes(pages: map<PageId, WalPage>, disk: map<PageId, WalPage>, chain: seq<PageId>)
    requires ChainOk(pages, chain) && OnDisk(pages, disk, chain)
    ensures var w := Written(pages, chain);
      (forall i | 0 <= i < |w| :: PageOk(disk, w[i])) && ChainBytes(disk, w) == ChainBytes(pages, chain)
  {
    var n, written := |chain|, Written(pages, chain);
    forall i | 0 <= i < |written| ensures PageOk(pages, written[i]) && SameBytes(pages, disk, written[i]) {
      assert written[i] == chain[i] && PageOk(pages, chain[i]);
      if i < n - 1 {
        assert Linked(pages, chain[i], chain[i + 1]);
      }
    }
    ChainBytesFrame(pages, disk, written);
    if pages[Last(chain)].used == 0 {
      assert ChainBytes(pages, chain) == ChainBytes(pages, chain[..n - 1]) + [];
    }
  }

  /** The bytes of the log as they are on disk. */
  ghost function DiskLog(wal: WalBuffer): (r: seq<byte>)
    requires wal.Valid()
    reads wal
    ensures r == wal.Paged()
  {
    DurableBytes(wal.pages, wal.disk, wal.chain);
    ChainBytes(wal.disk, Written(wal.pages, wal.chain))
  }

  // ---------------------------------------------------- what a slice does

  /** What one slice of a background or query process does. */
  datatype Slice = Insert(page: HeapId, row: Row, xid: nat, newPage: bool) | Checkpointer(time: nat)

  /** Ring bytes in use, bytes left in the tail and the staged log pages, and the rows in the
      pool and on disk. */
  datatype View = View(used: nat, room: int, rows: Rows, disk: Rows)

  /** Ring bytes in use after the record for a new page, which is dropped when there is no room. */
  function AfterInit(used: nat, newPage: bool): nat {
    if newPage && used + INIT_REC <= BUF_SIZE then used + INIT_REC else used
  }

  /** The record of a row is accepted: it is not too long and the ring has room. */
  predicate LogsRow(used: nat, row: Row, newPage: bool) {
    REC_HDR + 16 + |row| <= MAX_REC && AfterInit(used, newPage) + REC_HDR + 16 + |row| <= BUF_SIZE
  }

  /** What an insert logs. */
  function InsertLogs(used: nat, page: HeapId, row: Row, xid: nat, newPage: bool): seq<Entry> {
    (if newPage && used + INIT_REC <= BUF_SIZE then [Entry(xid, REC_INIT_PAGE, InitBody(page))] else [])
    + (if LogsRow(used, row, newPage) then [Entry(xid, REC_INSERT, InsertBody(page, row))] else [])
  }

  /** The first drain of the checkpointer leaves this much room, 0 when it loses bytes. */
  function Left(n: nat, room: int): int { if n <= room then room - n else 0 }

  function RowAdd(rows: Rows, page: HeapId, row: Row): Rows { rows[page := RowsOf(rows, page) + [row]] }

  function Sliced(v: View, s: Slice): View {
    match s
    case Insert(page, row, _, newPage) =>
      v.(used := AfterInit(v.used, newPage) + (if LogsRow(v.used, row, newPage) then REC_HDR + 16 + |row| else 0),
         rows := RowAdd(v.rows, page, row))
    case Checkpointer(_) =>
      if v.used == 0 || v.room == 0 then v
      else View(if v.room <= v.used then CKPT_REC else 0, Left(v.used + CKPT_REC, v.room), v.rows, v.rows)
  }

  /** The engine panics: a drain finds the tail page full and no page staged. */
  predicate Panics(v: View, s: Slice) { s.Checkpointer? && 0 < v.used && v.room <= v.used }

  /** The rule outlives the slice: the row's record is accepted, and no drain loses bytes. */
  predicate Keeps(v: View, s: Slice) {
    match s
    case Insert(_, row, _, newPage) => LogsRow(v.used, row, newPage)
    case Checkpointer(_) => v.used == 0 || v.room == 0 || v.room == v.used || v.used + CKPT_REC <= v.room
  }

  function AfterAll(v: View, slices: seq<Slice>): View {
    if slices == [] then v else Sliced(AfterAll(v, slices[..|slices| - 1]), slices[|slices| - 1])
  }

  predicate Fine(v: View, s: Slice) { Keeps(v, s) && !Panics(v, s) }

  /** Every slice of the run finds room in the ring and in the pages. */
  predicate RunFits(v: View, slices: seq<Slice>) {
    slices == [] ||
    (RunFits(v, slices[..|slices| - 1]) && Fine(AfterAll(v, slices[..|slices| - 1]), slices[|slices| - 1]))
  }

  /** The rows of the pool are on disk, or their records are in the ring. */
  lemma {:induction false} Pending(v: View, slices: seq<Slice>)
    requires RunFits(v, slices) && (v.used > 0 || v.disk == v.rows)
    ensures var w := AfterAll(v, slices); w.used > 0 || w.disk == w.rows
  {
    if slices != [] {
      Pending(v, slices[..|slices| - 1]);
    }
  }

  /** After a last slice of the checkpointer the rows on disk are those of the pool. */
  lemma LastCheckpoint(v: View, slices: seq<Slice>)
    requires RunFits(v, slices) && (v.used > 0 || v.disk == v.rows)
    requires slices != [] && slices[|slices| - 1].Checkpointer?
    ensures AfterAll(v, slices).disk == AfterAll(v, slices).rows
  {
    Pending(v, slices[..|slices| - 1]);
  }

  /** The rows that a run inserts into a page, in order. */
  function Inserted(slices: seq<Slice>, page: HeapId): seq<Row> {
    if slices == [] then []
    else
      var s := slices[|slices| - 1];
      Inserted(slices[..|slices| - 1], page) + if s.Insert? && s.page == page then [s.row] else []
  }

  /** Every page has its rows from before the run and then those of the run's inserts. */
  lemma {:induction false} RowsAfterRun(v: View, slices: seq<Slice>, page: HeapId)
    ensures RowsOf(AfterAll(v, slices).rows, page) == RowsOf(v.rows, page) + Inserted(slices, page)
  {
    if slices != [] {
      var init, s := slices[..|slices| - 1], slices[|slices| - 1];
      RowsAfterRun(v, init, page);
      assert RowsOf(AfterAll(v, slices).rows, page) == RowsOf(AfterAll(v, init).rows, page) + if s.Insert? && s.page == page then [s.row] else [];
    }
  }

  // ------------------------------------------------------------ the engine

  class Engine {
    const wal: WalBuffer
    /** Rows of the heap pages in the buffer pool and on disk, and the dirty pages. */
    var rows: Rows
    var diskRows: Rows
    var dirty: set<HeapId>

    /** History: the record of each row, and whether a page was ever written before the
        records of its rows were on disk. */
    ghost var owner: Owner
    ghost var early: bool

    ghost predicate Valid()
      reads this, wal
    {
      && wal.Valid() && wal.draining.Idle? && OwnerOk(owner, |wal.recs|)
      && PoolOk(rows, diskRows, dirty) && Names(owner, rows)
    }

    /** Every row of `rs` has its own record among the accepted ones, every row on disk has
        it in the log pages on disk, and so it was at every page write. */
    ghost predicate SafeFor(rs: Rows)
      requires Valid()
      reads this, wal, wal.buf
    {
      && wal.Conserved() && !early
      && AllRecorded(wal.accepted, wal.recs, owner, rs)
      && AllRecorded(DiskLog(wal), wal.recs, owner, diskRows)
    }

    /** The rule: it holds for the rows in the pool and on disk. */
    ghost predicate Safe()
      requires Valid()
      reads this, wal, wal.buf
    {
      SafeFor(rows)
    }

    /** Bytes of the ring in use. */
    ghost function Used(): nat
      reads wal
    {
      if wal.writeOff >= wal.flushOff then wal.writeOff - wal.flushOff else 0
    }

    ghost function V(): View
      reads this, wal
    {
      View(Used(), wal.Room(), rows, diskRows)
    }

    lemma InUse()
      requires Valid()
      ensures wal.flushOff <= wal.writeOff && Used() <= BUF_SIZE
    {
      wal.InOrder();
    }

    /** The log's numbers are right and the last drain ended in a checkpoint. */
    ghost predicate Settled()
      requires Valid()
      reads this, wal
    {
      wal.Numbered() && wal.flushLsn == wal.checkpointedLsn && wal.flushLsn <= MakeLsn(wal.tailPageId, wal.tailUsed)
    }

    constructor (wal: WalBuffer)
      requires wal.Valid() && wal.draining.Idle? && wal.Conserved()
      ensures Valid() && this.wal == wal && rows == map[] && diskRows == map[] && Safe()
    {
      this.wal := wal;
      rows, diskRows, dirty, owner, early := map[], map[], {}, map[], false;
    }

    /** The slice in which an insert completes: the row goes into the page in the pool,
        then its records are appended. A failed append is only logged. */
    method InsertSlice(page: HeapId, row: Row, xid: nat, newPage: bool) returns (logged: bool)
      requires Valid() && |row| <= 8192
      modifies this, wal, wal.buf
      ensures Valid() && page in dirty && wal.Paged() == old(wal.Paged())
      ensures V() == Sliced(old(V()), Insert(page, row, xid, newPage))
      ensures logged <==> LogsRow(old(Used()), row, newPage)
      ensures Grew(wal.crc, old(wal.recs), wal.recs, wal.accepted, InsertLogs(old(Used()), page, row, xid, newPage))
      ensures old(Safe()) ==> (Safe() <==> logged)
      ensures old(Settled()) ==> Settled()
    {
      hide Valid, SafeFor, Settled, Names, Grew, InitBody, InsertBody;
      ghost var rs, recs, bytes, initial := rows, wal.recs, wal.accepted, [];
      PutRow(page, row);
      GrewNot(wal.crc, recs, bytes);
      if newPage {
        initial := AppendInit(page, xid, rs);
      }
      ghost var recs1, bytes1 := wal.recs, wal.accepted;
      ghost var entries;
      logged, entries := AppendInsert(page, row, xid, rs);
      GrewMore(wal.crc, recs, recs1, wal.recs, bytes1, wal.accepted, initial, entries);
    }

    /** The row goes into its page in the pool. */
    method PutRow(page: HeapId, row: Row)
      requires Valid()
      modifies this`rows, this`dirty
      ensures Valid() && rows == old(rows)[page := RowsOf(old(rows), page) + [row]] && page in dirty
      ensures Names(owner, old(rows)) && (page in diskRows ==> |diskRows[page]| <= |RowsOf(old(rows), page)|)
      ensures (old(Safe()) <==> SafeFor(old(rows))) && (old(Settled()) <==> Settled())
    {
      hide WalBuffer.Valid, WalBuffer.Log, WalBuffer.Numbered, AllRecorded, OwnerOk, DiskLog;
      rows := rows[page := RowsOf(rows, page) + [row]];
      dirty := dirty + {page};
    }

    /** The record for a new page; nothing depends on it. */
    method AppendInit(page: HeapId, xid: nat, ghost rs: Rows) returns (ghost entries: seq<Entry>)
      requires Valid()
      modifies wal, wal.buf
      ensures Valid() && wal.Paged() == old(wal.Paged()) && wal.Room() == old(wal.Room())
      ensures entries == if old(Used()) + INIT_REC <= BUF_SIZE then [Entry(xid, REC_INIT_PAGE, InitBody(page))] else []
      ensures Grew(wal.crc, old(wal.recs), wal.recs, wal.accepted, entries) && old(wal.accepted) <= wal.accepted
      ensures Used() == AfterInit(old(Used()), true)
      ensures old(SafeFor(rs)) ==> SafeFor(rs)
      ensures old(Settled()) ==> Settled()
    {
      hide WalBuffer.Valid, WalBuffer.Log, WalBuffer.Paged, WalBuffer.Numbered, Grew, InitBody, AllRecorded, DiskLog, PoolOk, Names, OwnerOk, Carries, Describes;
      wal.InOrder();
      ghost var bytes, recs := wal.accepted, wal.recs;
      GrewNot(wal.crc, recs, bytes);
      var r, l, rec := wal.Append(xid, REC_INIT_PAGE, InitBody(page));
      entries := if r == 0 then [Entry(xid, REC_INIT_PAGE, InitBody(page))] else [];
      MoreRecords(owner, |recs|, |wal.recs|);
      if AllRecorded(bytes, recs, owner, rs) {
        AllRecordedKept(bytes, wal.accepted, recs, wal.recs, owner, rs);
      }
      if AllRecorded(DiskLog(wal), recs, owner, diskRows) {
        AllRecordedKept(DiskLog(wal), DiskLog(wal), recs, wal.recs, owner, diskRows);
      }
    }

    /** The record for the row that was added to `rs`. */
    method AppendInsert(page: HeapId, row: Row, xid: nat, ghost rs: Rows) returns (logged: bool, ghost entries: seq<Entry>)
      requires Valid() && |row| <= 8192 && rows == RowAdd(rs, page, row)
      requires page in diskRows ==> |diskRows[page]| <= |RowsOf(rs, page)|
      requires Names(owner, rs)
      modifies wal, wal.buf, this`owner
      ensures Valid() && wal.Paged() == old(wal.Paged()) && wal.Room() == old(wal.Room())
      ensures logged <==> REC_HDR + 16 + |row| <= MAX_REC && old(Used()) + REC_HDR + 16 + |row| <= BUF_SIZE
      ensures Used() == old(Used()) + if logged then REC_HDR + 16 + |row| else 0
      ensures old(SafeFor(rs)) ==> (Safe() <==> logged)
      ensures old(Settled()) ==> Settled()
      ensures entries == if logged then [Entry(xid, REC_INSERT, InsertBody(page, row))] else []
      ensures Grew(wal.crc, old(wal.recs), wal.recs, wal.accepted, entries) && old(wal.accepted) <= wal.accepted
    {
      hide WalBuffer.Valid, WalBuffer.Log, WalBuffer.Paged, WalBuffer.Numbered, Grew, InsertBody, AllRecorded, IsRecord, DiskLog, PoolOk, Names, OwnerOk, Carries, Describes;
      wal.InOrder();
      ghost var bytes, recs, n := wal.accepted, wal.recs, |RowsOf(rs, page)|;
      GrewNot(wal.crc, recs, bytes);
      var ret, lsn, rec := wal.Append(xid, REC_INSERT, InsertBody(page, row));
      logged := ret == 0;
      entries := if logged then [Entry(xid, REC_INSERT, InsertBody(page, row))] else [];
      if logged {
        OneMore(wal.crc, recs, wal.recs, wal.accepted, Entry(xid, REC_INSERT, InsertBody(page, row)));
        RecordHere(wal.crc, wal.accepted, wal.recs[|recs|], xid, page, row);
        RowLogged(bytes, wal.accepted, wal.recs[|recs|], recs, owner, rs, DiskLog(wal), diskRows, page, row);
        RowNamed(owner, rs, page, row, |recs|);
        owner := owner[(page, n) := |recs|];
      } else {
        NoRecord(wal.accepted, wal.recs, owner, rs, page, row);
      }
    }

    /** The rows of page `p` have their records in the log on disk. */
    ghost predicate PageRecorded(p: HeapId)
      requires wal.Valid()
      reads this, wal
    {
      AllRecorded(DiskLog(wal), wal.recs, owner, map[p := RowsOf(rows, p)])
    }

    /** Writes one dirty page of the pool to disk. */
    method WritePage(p: HeapId)
      requires Valid() && p in dirty
      modifies this`diskRows, this`dirty, this`early
      ensures Valid() && diskRows == old(diskRows)[p := rows[p]] && dirty == old(dirty) - {p}
      ensures early <==> old(early) || !old(PageRecorded(p))
    {
      hide WalBuffer.Valid, AllRecorded, DiskLog, OwnerOk;
      early := early || !PageRecorded(p);
      diskRows := diskRows[p := rows[p]];
      dirty := dirty - {p};
    }

    /** Writes every dirty page. The rule holds at each write when all records are on disk. */
    method FlushDirty()
      requires Valid()
      modifies this`diskRows, this`dirty, this`early
      ensures Valid() && dirty == {} && (forall p | p in rows :: p in diskRows && diskRows[p] == rows[p])
      ensures old(Safe()) && AllRecorded(DiskLog(wal), wal.recs, owner, rows) ==> Safe()
    {
      hide WalBuffer.Valid, WalBuffer.Log, HasRecord, DiskLog, OwnerOk;
      while dirty != {}
        invariant Valid()
        invariant old(Safe()) && AllRecorded(DiskLog(wal), wal.recs, owner, rows) ==> Safe()
        decreases dirty
      {
        var p :| p in dirty;
        WritePage(p);
      }
    }

    /** One CHECKPOINT record was added, which names `lsn` and `time`. */
    ghost predicate Checkpointed(recs: seq<Rec>, lsn: nat, time: nat)
      reads wal
    {
      Grew(wal.crc, recs, wal.recs, wal.accepted, [Entry(0, REC_CHECKPOINT, CheckpointBody(lsn, time))])
    }

    /** Drains the log; then, if anything is newer than the last checkpoint, writes the
        dirty pages and records a checkpoint. The engine panics when a drain finds the tail
        page full and no page staged; a drain that finds too few pages loses bytes. The
        checkpoint names an LSN above those of all records before it. */
    method CheckpointerSlice(time: nat) returns (panics: bool, ghost lsn: nat)
      requires Valid()
      modifies this, wal, wal.buf
      ensures Valid() && rows == old(rows) && owner == old(owner)
      ensures old(Settled()) ==> V() == Sliced(old(V()), Checkpointer(time)) && panics == Panics(old(V()), Checkpointer(time))
      ensures old(Settled()) && Fine(old(V()), Checkpointer(time)) ==> Settled()
      ensures old(Settled()) && old(Safe()) ==> (Safe() <==> Keeps(old(V()), Checkpointer(time)))
      ensures wal.recs == old(wal.recs) || Checkpointed(old(wal.recs), lsn, time)
      ensures old(Settled()) && 0 < old(Used()) && 0 < old(wal.Room()) ==> Checkpointed(old(wal.recs), lsn, time)
      ensures old(Settled()) && 0 < old(Used()) <= old(wal.Room()) ==> lsn < U64 && forall k | 0 <= k < |old(wal.recs)| :: old(wal.recs)[k].lsn < lsn
    {
      hide WalBuffer.Valid, WalBuffer.Log, WalBuffer.Paged, WalBuffer.Numbered, AllRecorded, LsnOk, MakeLsn, DiskLog, OwnerOk;
      hide Checkpointed;
      wal.InOrder();
      panics := DrainLog();
      lsn := wal.flushLsn;
      if panics {
        return;
      }
      if wal.flushLsn != 0 && wal.flushLsn > wal.checkpointedLsn {
        FlushDirty();
        panics := RecordCheckpoint(time);
      }
    }

    /** The first drain of the slice: all records accepted so far are on disk, unless it
        finds too few pages. */
    method DrainLog() returns (panics: bool)
      requires Valid()
      modifies wal
      ensures Valid() && wal.checkpointedLsn == old(wal.checkpointedLsn) && wal.recs == old(wal.recs)
      ensures panics <==> old(Used()) > 0 && old(wal.Room()) == 0
      ensures panics ==> V() == old(V()) && (old(Safe()) ==> Safe())
      ensures !panics ==> Used() == 0 && wal.Room() == Left(old(Used()), old(wal.Room()))
      ensures !panics && old(Used()) <= old(wal.Room()) ==>
        (old(wal.Numbered()) ==> wal.Numbered()) && (old(Safe()) ==> Safe() && AllRecorded(DiskLog(wal), wal.recs, owner, rows))
      ensures !panics && old(Used()) > old(wal.Room()) && old(wal.Conserved()) ==> |wal.Log()| < |wal.accepted|
      ensures !panics && old(Settled()) ==>
        wal.flushLsn <= MakeLsn(wal.tailPageId, wal.tailUsed) && (wal.flushLsn > wal.checkpointedLsn <==> old(Used()) > 0)
      ensures old(Used()) == 0 ==> wal.flushLsn == old(wal.flushLsn)
      ensures old(Settled()) && 0 < old(Used()) <= old(wal.Room()) ==>
        wal.flushLsn < U64 && forall k | 0 <= k < |wal.recs| :: wal.recs[k].lsn < wal.flushLsn
    {
      hide WalBuffer.Valid, WalBuffer.Log, WalBuffer.Paged, WalBuffer.Numbered, AllRecorded, LsnOk, MakeLsn, DiskLog, FlushSim, AllLinked, Cut, PoolOk, Names, OwnerOk;
      wal.InOrder();
      FlushFacts(wal.S());
      CutNone(wal.Log());
      wal.LogLength();
      ghost var bytes, page, used := DiskLog(wal), wal.tailPageId, wal.tailUsed;
      var ret := wal.Flush();
      panics := ret != 0;
      wal.InOrder();
      LsnLess(page, used, wal.tailPageId, wal.tailUsed);
      LsnLess(wal.tailPageId, wal.tailUsed, page, used);
      LsnBound(wal.tailPageId, wal.tailUsed);
      if !panics && wal.Numbered() {
        AllBelow(wal);
      }
      if AllRecorded(bytes, wal.recs, owner, diskRows) {
        AllRecordedKept(bytes, DiskLog(wal), wal.recs, wal.recs, owner, diskRows);
      }
    }

    method RecordCheckpoint(time: nat) returns (panics: bool)
      requires Valid() && Used() == 0
      modifies wal, wal.buf
      ensures Valid() && Checkpointed(old(wal.recs), old(wal.flushLsn), time)
      ensures panics <==> old(wal.Room()) == 0
      ensures Used() == (if panics then CKPT_REC else 0) && wal.Room() == Left(CKPT_REC, old(wal.Room()))
      ensures CKPT_REC <= old(wal.Room()) && old(wal.Numbered()) ==> Settled()
      ensures panics || CKPT_REC <= old(wal.Room()) ==> (old(Safe()) ==> Safe())
      ensures |wal.accepted| - |wal.Log()| == |old(wal.accepted)| - |old(wal.Log())| + if panics then 0 else Excess(CKPT_REC, old(wal.Room()))
    {
      hide WalBuffer.Valid, WalBuffer.Log, WalBuffer.Paged, WalBuffer.Numbered, AllRecorded, LsnOk, MakeLsn, DiskLog, FlushSim, Grew, PoolOk, Names, OwnerOk, Carries, Describes;
      wal.InOrder();
      ghost var bytes, disk, recs := wal.accepted, DiskLog(wal), wal.recs;
      AppendedOk(wal.S(), 16);
      FlushFacts(Appended(wal.S(), 16));
      var ret := wal.Checkpoint(wal.flushLsn, time);
      panics := ret != 0;
      wal.InOrder();
      GrewPrefix(wal.crc, recs, wal.recs, wal.accepted, [Entry(0, REC_CHECKPOINT, CheckpointBody(old(wal.flushLsn), time))]);
      MoreRecords(owner, |recs|, |wal.recs|);
      if (panics || CKPT_REC <= old(wal.Room())) && old(Safe()) {
        AllRecordedKept(bytes, wal.accepted, recs, wal.recs, owner, rows);
        AllRecordedKept(disk, DiskLog(wal), recs, wal.recs, owner, diskRows);
      }
    }

    /** Over every run of slices, up to the first that does not find room: each slice does to
        the rows in the pool and on disk what it is for, and no row is on disk without a
        record of its own in the log pages on disk, nor was at any page write. The first
        slice that does not find room breaks the rule, or the engine panics; which, the
        state before tells. */
    method Run(slices: seq<Slice>) returns (n: nat)
      requires Valid() && Safe() && Settled()
      requires forall i | 0 <= i < |slices| :: slices[i].Insert? ==> |slices[i].row| <= 8192
      modifies this, wal, wal.buf
      ensures Valid() && n <= |slices| && RunFits(old(V()), slices[..n])
      ensures n == |slices| ==> V() == AfterAll(old(V()), slices) && Safe() && Settled()
      ensures n == |slices| > 0 && slices[n - 1].Checkpointer? && (old(Used()) > 0 || old(diskRows) == old(rows)) ==> diskRows == rows
      ensures n < |slices| ==>
        var v := AfterAll(old(V()), slices[..n]);
        !Fine(v, slices[n]) && V() == Sliced(v, slices[n]) && (Safe() <==> Keeps(v, slices[n]))
    {
      hide Valid, Safe, Settled, WalBuffer.Valid, Sliced, Keeps, Panics;
      n := 0;
      ghost var v0 := V();
      while n < |slices|
        invariant n <= |slices| && Valid() && Safe() && Settled()
        invariant RunFits(v0, slices[..n]) && V() == AfterAll(v0, slices[..n])
      {
        ghost var v := V();
        assert slices[..n + 1][..n] == slices[..n];
        var fine := Perform(slices[n]);
        if !fine {
          return;
        }
        n := n + 1;
      }
      assert slices[..n] == slices;
      if n > 0 && slices[n - 1].Checkpointer? && (v0.used > 0 || v0.disk == v0.rows) {
        LastCheckpoint(v0, slices);
      }
    }

    /** A row on disk that no record describes breaks the rule. */
    lemma Unrecorded(row: Row)
      requires Valid() && ShortRecords(wal.recs) && |row| >= LONG && 1 in diskRows && diskRows[1] == [row]
      ensures !Safe()
    {
      hide IsRecord, DiskLog, OwnerOk, WalBuffer.Valid, WalBuffer.Log;
      if HasRecord(DiskLog(wal), wal.recs, owner, 1, 0, diskRows[1][0]) {
        NotThis(DiskLog(wal), wal.recs, owner[(1, 0)], row);
      }
    }

    /** One slice of either kind. */
    method Perform(s: Slice) returns (fine: bool)
      requires Valid() && Safe() && Settled() && (s.Insert? ==> |s.row| <= 8192)
      modifies this, wal, wal.buf
      ensures Valid() && V() == Sliced(old(V()), s) && fine == Fine(old(V()), s)
      ensures fine ==> Settled()
      ensures Safe() <==> Keeps(old(V()), s)
    {
      hide Valid, Safe, Settled, WalBuffer.Valid, LogsRow, AfterInit;
      InUse();
      match s {
        case Insert(page, row, xid, newPage) =>
          fine := InsertSlice(page, row, xid, newPage);
        case Checkpointer(time) =>
          fine := wal.writeOff == wal.flushOff || wal.writeOff - wal.flushOff + CKPT_REC <= (|wal.supply| + 1) * PAYLOAD - wal.tailUsed;
          var panics, _ := CheckpointerSlice(time);
      }
    }
  }

  lemma OneMore(crc: seq<byte> -> u32, recs: seq<Rec>, more: seq<Rec>, bytes: seq<byte>, e: Entry)
    requires Grew(crc, recs, more, bytes, [e])
    ensures recs <= more && |more| == |recs| + 1 && more[|recs|].len == REC_HDR + |e.body| && Carries(crc, bytes, more[|recs|], e)
  {
    assert Carries(crc, bytes, more[|recs| + 0], [e][0]);
  }

  /** The record just appended becomes the record of the row just added. */
  lemma RowLogged(bytes: seq<byte>, longer: seq<byte>, r: Rec, recs: seq<Rec>, owner: Owner, rs: Rows, disk: seq<byte>, diskRows: Rows,
                  page: HeapId, row: Row)
    requires OwnerOk(owner, |recs|) && (page in diskRows ==> |diskRows[page]| <= |RowsOf(rs, page)|)
    requires bytes <= longer && IsRecord(longer, r, page, row)
    ensures var recs' := recs + [r]; var owner' := owner[(page, |RowsOf(rs, page)|) := |recs|];
      && OwnerOk(owner', |recs'|)
      && (AllRecorded(bytes, recs, owner, rs) ==> AllRecorded(longer, recs', owner', RowAdd(rs, page, row)))
      && (AllRecorded(disk, recs, owner, diskRows) ==> AllRecorded(disk, recs', owner', diskRows))
  {
    hide AllRecorded, IsRecord;
    var recs', n := recs + [r], |RowsOf(rs, page)|;
    if AllRecorded(bytes, recs, owner, rs) {
      AllRecordedKept(bytes, longer, recs, recs', owner, rs);
      RowAdded(longer, recs', owner, rs, page, row);
    }
    if AllRecorded(disk, recs, owner, diskRows) {
      AllRecordedKept(disk, disk, recs, recs', owner, diskRows);
      OthersKept(disk, recs', owner, diskRows, page, n, |recs|);
    }
  }

  /** When everything is drained, flush_lsn is above all numbers. */
  lemma AllBelow(wal: WalBuffer)
    requires wal.Valid() && wal.Numbered() && wal.flushOff == wal.writeOff
    ensures forall k | 0 <= k < |wal.recs| :: wal.recs[k].lsn < wal.flushLsn
  {
    hide Shelf, MakeLsn;
    forall k | 0 <= k < |wal.recs|
      ensures wal.recs[k].lsn < wal.flushLsn
    {
      OffsetsAscend(wal.recs, wal.writeOff, k);
    }
  }

  lemma RowNamed(owner: Owner, rs: Rows, page: HeapId, row: Row, k: nat)
    requires Names(owner, rs)
    ensures Names(owner, RowAdd(rs, page, row)) && Names(owner[(page, |RowsOf(rs, page)|) := k], RowAdd(rs, page, row))
  {
  }

  /** A row added without a record has none. */
  lemma NoRecord(bytes: seq<byte>, recs: seq<Rec>, owner: Owner, rs: Rows, page: HeapId, row: Row)
    requires Names(owner, rs)
    ensures !AllRecorded(bytes, recs, owner, RowAdd(rs, page, row))
  {
    var rows, n := RowAdd(rs, page, row), |RowsOf(rs, page)|;
    assert (page, n) !in owner;
    assert !HasRecord(bytes, recs, owner, page, n, rows[page][n]);
  }

  lemma RecordHere(crc: seq<byte> -> u32, bytes: seq<byte>, r: Rec, xid: nat, page: HeapId, row: Row)
    requires |row| <= 8192 && Carries(crc, bytes, r, Entry(xid, REC_INSERT, InsertBody(page, row)))
    ensures IsRecord(bytes, r, page, row)
  {
    hide Describes;
  }

  lemma MoreRecords(owner: Owner, n: nat, m: nat)
    requires OwnerOk(owner, n) && n <= m
    ensures OwnerOk(owner, m)
  {
  }

  // ------------------------------------------------------- without room

  /** Bytes of the shortest row considered here. */
  const LONG: nat := 72

  /** Records that are no INSERT of a long row, by their lengths. */
  ghost predicate ShortRecords(recs: seq<Rec>) { forall k | 0 <= k < |recs| :: recs[k].len < REC_HDR + 16 + LONG }

  lemma ShortKept(crc: seq<byte> -> u32, recs: seq<Rec>, more: seq<Rec>, bytes: seq<byte>, entries: seq<Entry>)
    requires ShortRecords(recs) && Grew(crc, recs, more, bytes, entries) && forall k | 0 <= k < |entries| :: |entries[k].body| < 16 + LONG
    ensures ShortRecords(more)
  {
    forall k | |recs| <= k < |more|
      ensures more[k].len < REC_HDR + 16 + LONG
    {
      assert Carries(crc, bytes, more[|recs| + (k - |recs|)], entries[k - |recs|]);
    }
  }

  lemma LogsShort(used: nat, page: HeapId, row: Row, xid: nat, newPage: bool)
    requires |row| < LONG || !LogsRow(used, row, newPage)
    ensures forall k | 0 <= k < |InsertLogs(used, page, row, xid, newPage)| :: |InsertLogs(used, page, row, xid, newPage)[k].body| < 16 + LONG
  {
    hide InitBody, InsertBody;
  }

  lemma ShortCheckpoint(e: Engine, recs: seq<Rec>, lsn: nat)
    requires ShortRecords(recs) && e.Checkpointed(recs, lsn, 0)
    ensures ShortRecords(e.wal.recs)
  {
    hide Grew, CheckpointBody;
    ShortKept(e.wal.crc, recs, e.wal.recs, e.wal.accepted, [Entry(0, REC_CHECKPOINT, CheckpointBody(lsn, 0))]);
  }

  /** Inserts short rows, 32 to a page, until the ring has no room for a long one. */
  method FillRing(e: Engine)
    requires e.Valid() && e.Safe() && e.Settled() && e.rows == map[] && e.diskRows == map[] && ShortRecords(e.wal.recs)
    modifies e, e.wal, e.wal.buf
    ensures e.Valid() && e.Safe() && e.Settled() && ShortRecords(e.wal.recs)
    ensures BUF_SIZE < e.Used() + INIT_REC + REC_HDR + 16 + 24 && e.Used() <= BUF_SIZE
    ensures e.wal.Room() == old(e.wal.Room()) && 1 !in e.rows && e.diskRows == map[]
  {
    hide Engine.Valid, Engine.Safe, Engine.Settled, WalBuffer.Valid, WalBuffer.Log, ShortRecords, InitBody, InsertBody, Grew, InsertLogs, Carries;
    var i := 0;
    e.InUse();
    while e.wal.writeOff - e.wal.flushOff + INIT_REC + REC_HDR + 16 + 24 <= BUF_SIZE
      invariant e.Valid() && e.Safe() && e.Settled() && ShortRecords(e.wal.recs) && 0 <= i <= e.Used()
      invariant e.Used() == e.wal.writeOff - e.wal.flushOff <= BUF_SIZE
      invariant e.wal.Room() == old(e.wal.Room()) && 1 !in e.rows && e.diskRows == map[]
      decreases BUF_SIZE - e.Used()
    {
      ghost var recs, used, page := e.wal.recs, e.Used(), 1000 + i / 32;
      var logged := e.InsertSlice(1000 + i / 32, seq(24, _ => 0), 7, i % 32 == 0);
      LogsShort(used, page, seq(24, _ => 0), 7, i % 32 == 0);
      ShortKept(e.wal.crc, recs, e.wal.recs, e.wal.accepted, InsertLogs(used, page, seq(24, _ => 0), 7, i % 32 == 0));
      e.InUse();
      i := i + 1;
    }
  }

  /** With the ring full, an inserted row gets no record, and the next slice of the
      checkpointer writes it to disk all the same. */
  method StarvedInsert(e: Engine, row: Row)
    requires e.Valid() && e.Safe() && e.Settled() && LONG <= |row| <= 8192 && ShortRecords(e.wal.recs) && 1 !in e.rows
    requires BUF_SIZE < e.Used() + REC_HDR + 16 + LONG && e.Used() + CKPT_REC <= e.wal.Room()
    modifies e, e.wal, e.wal.buf
    ensures e.Valid() && 1 in e.diskRows && e.diskRows[1] == [row] && ShortRecords(e.wal.recs) && !e.Safe()
  {
    hide Engine.Valid, Engine.Safe, Engine.Settled, WalBuffer.Valid, WalBuffer.Log, InitBody, InsertBody, Grew, IsRecord, InsertLogs, Carries, ShortRecords, Engine.Checkpointed, CheckpointBody;
    ghost var recs, used := e.wal.recs, e.Used();
    var logged := e.InsertSlice(1, row, 7, false);
    LogsShort(used, 1, row, 7, false);
    ShortKept(e.wal.crc, recs, e.wal.recs, e.wal.accepted, InsertLogs(used, 1, row, 7, false));
    ghost var recs1 := e.wal.recs;
    var panics;
    ghost var lsn;
    panics, lsn := e.CheckpointerSlice(0);
    ShortCheckpoint(e, recs1, lsn);
    e.Unrecorded(row);
  }

  /** A run of inserts and a slice of the checkpointer that leaves a row on disk with no
      record of it anywhere. */
  method RowWithoutRecord(crc: seq<byte> -> u32, row: Row) returns (e: Engine)
    requires LONG <= |row| <= 8192
    ensures e.Valid() && 1 in e.diskRows && e.diskRows[1] == [row] && !e.Safe()
    ensures forall bytes: seq<byte>, k | 0 <= k < |e.wal.recs| :: !IsRecord(bytes, e.wal.recs[k], 1, row)
  {
    hide Engine.Valid, Engine.Safe, WalBuffer.Valid, WalBuffer.Log, WalBuffer.Numbered, IsRecord, MakeLsn, AllRecorded, DiskLog;
    var wal := new WalBuffer(crc, 1, seq(600, i => i + 2));
    e := new Engine(wal);
    FillRing(e);
    StarvedInsert(e, row);
    forall bytes: seq<byte>, k | 0 <= k < |e.wal.recs|
      ensures !IsRecord(bytes, e.wal.recs[k], 1, row)
    {
      NotThis(bytes, e.wal.recs, k, row);
    }
  }

  lemma NotThis(bytes: seq<byte>, recs: seq<Rec>, k: nat, row: Row)
    requires ShortRecords(recs) && |row| >= LONG && k < |recs|
    ensures !IsRecord(bytes, recs[k], 1, row)
  {
    hide IsRecord;
    if IsRecord(bytes, recs[k], 1, row) {
      RecordLength(bytes, recs[k], 1, row);
    }
  }
}
