/** The write-ahead log: records are appended to a ring buffer and drained into a
    chain of log pages. The draining thread's progress is part of the state, so
    that appends may come between any two of its steps. */
module Wal {
  import opened Basics
  import opened Bytes
  import opened WalRing
  import opened WalChain
  import opened WalRecord
  import opened WalSim
  import opened WalDisk

  lemma PutTwice(buf: seq<byte>, from: nat, at: nat, x: seq<byte>, y: seq<byte>)
    requires |buf| == BUF_SIZE && from <= at && at + |x| + |y| <= from + BUF_SIZE
    ensures Slice(Put(Put(buf, at, x), at + |x|, y), from, at + |x| + |y|) == Slice(buf, from, at) + (x + y)
  {
    PutAppends(buf, from, at, x);
    PutAppends(Put(buf, at, x), from, at + |x|, y);
    Assoc(Slice(buf, from, at), x, y);
  }

  // -------------------------------------------------------------- numbers

  lemma Renumber(recs: seq<Rec>, next: nat, prev: nat, flushOff: nat, flushLsn: nat, ckptOff: nat, ckptLsn: nat,
                 w: nat, total: nat, page: PageId, used: nat)
    requires LsnOk(recs, next, prev, flushOff, flushLsn, ckptOff, ckptLsn)
    requires flushOff <= w && 0 < total && used + (w - flushOff) + total < LSN_OFFSETS
    requires next == MakeLsn(page, used + (w - flushOff))
    ensures LsnOk(recs + [Rec(next, prev, w, total)], MakeLsn(page, used + (w + total - flushOff)), next, flushOff, flushLsn, ckptOff, ckptLsn)
  {
    LsnLess(page, used + (w - flushOff), page, used + (w + total - flushOff));
    LsnAppend(recs, next, prev, flushOff, flushLsn, ckptOff, ckptLsn, Rec(next, prev, w, total), MakeLsn(page, used + (w + total - flushOff)));
  }

  lemma RenumberFlush(recs: seq<Rec>, page: PageId, used: nat, n: nat, prev: nat, flushOff: nat, flushLsn: nat, ckptOff: nat, ckptLsn: nat,
                      total: nat, page': PageId, used': nat)
    requires used + n < LSN_OFFSETS && used' < LSN_OFFSETS && flushOff <= total
    requires LsnOk(recs, MakeLsn(page, used + n), prev, flushOff, flushLsn, ckptOff, ckptLsn) && Contiguous(recs, total)
    requires page' > page || (page' == page && used' == used + n)
    ensures LsnOk(recs, MakeLsn(page', used'), prev, total, MakeLsn(page', used'), ckptOff, ckptLsn)
  {
    LsnLess(page', used', page, used + n);
    LsnFlush(recs, MakeLsn(page, used + n), prev, flushOff, flushLsn, ckptOff, ckptLsn, total, MakeLsn(page', used'));
  }

  lemma CheckpointHere(recs: seq<Rec>, next: nat, prev: nat, flushOff: nat, flushLsn: nat, ckptOff: nat, ckptLsn: nat)
    ensures LsnOk(recs, next, prev, flushOff, flushLsn, ckptOff, ckptLsn) ==> LsnOk(recs, next, prev, flushOff, flushLsn, flushOff, flushLsn)
  {
  }

  ghost predicate Ascending(recs: seq<Rec>) { forall i, j | 0 <= i < j < |recs| :: recs[i].lsn < recs[j].lsn }

  /** Each record names its predecessor, and `prev` is the number of the last. */
  ghost predicate Named(recs: seq<Rec>, prev: nat) {
    prev == (if recs == [] then 0 else recs[|recs| - 1].lsn) && forall i | 0 <= i < |recs| :: NamesPrevious(recs, i)
  }

  lemma NamedPush(recs: seq<Rec>, prev: nat, r: Rec)
    requires Named(recs, prev) && r.prev == prev
    ensures Named(recs + [r], r.lsn)
  {
    var more := recs + [r];
    forall i | 0 <= i < |more|
      ensures NamesPrevious(more, i)
    {
      assert i < |recs| ==> NamesPrevious(recs, i);
    }
  }

  lemma AscendingPush(recs: seq<Rec>, r: Rec)
    requires Ascending(recs)
    ensures Ascending(recs + [r]) <==> recs == [] || recs[|recs| - 1].lsn < r.lsn
  {
    var n, s := |recs|, recs + [r];
    if recs != [] && recs[n - 1].lsn < r.lsn {
      forall i, j | 0 <= i < j < |s|
        ensures s[i].lsn < s[j].lsn
      {
        assert i < n - 1 ==> recs[i].lsn < recs[n - 1].lsn;
      }
    }
    if Ascending(s) && recs != [] {
      assert s[n - 1].lsn < s[n].lsn;
    }
  }

  lemma AscendingPrefix(recs: seq<Rec>, more: seq<Rec>)
    requires recs <= more && Ascending(more)
    ensures Ascending(recs)
  {
    assert forall i | 0 <= i < |recs| :: recs[i] == more[i];
  }

  /** The order of two numbers given one after the other. */
  lemma StepOrder(m: Mark, off: nat, len: nat, n: Mark)
    requires m.flush <= off && n.flush <= off + len && m.page <= n.page
    requires m.used + (off - m.flush) < LSN_OFFSETS && n.used + (off + len - n.flush) < LSN_OFFSETS
    ensures MakeLsn(m.page, m.used + (off - m.flush)) < MakeLsn(n.page, n.used + (off + len - n.flush)) <==> InStep(m, len, n)
  {
    LsnLess(m.page, m.used + (off - m.flush), n.page, n.used + (off + len - n.flush));
  }

  lemma SameTail(m: Mark, len: nat, n: Mark)
    requires m.page == n.page && m.used == n.used
    ensures InStep(m, len, n) <==> n.flush - m.flush < len
  {
  }

  // ------------------------------------------------------------ bytes moved

  lemma NothingToDrain(bytes: seq<byte>, buf: seq<byte>, at: nat, log: seq<byte>)
    requires |buf| == BUF_SIZE && log == bytes + Slice(buf, at, at)
    ensures log == bytes == Cut(log, 0)
  {
  }

  lemma AfterDrain(bytes: seq<byte>, buf: seq<byte>, start: nat, end: nat, log: seq<byte>)
    requires |buf| == BUF_SIZE && start <= end && log == bytes + Slice(buf, start, end)
    ensures bytes + Slice(buf, end, end) == bytes == Cut(log, end - start)
  {
  }

  /** The log without its last `lost` bytes. */
  ghost function Cut(log: seq<byte>, lost: int): seq<byte> { if 0 <= lost <= |log| then log[..|log| - lost] else log }

  function EmptyPage(segNo: nat, startLsn: nat): (r: WalPage)
    ensures |r.payload| == PAYLOAD && r.used == 0 && r.next == 0 && r.segNo == segNo && r.startLsn == startLsn
  {
    WalPage(segNo, startLsn, 0, 0, seq(PAYLOAD, _ => 0))
  }

  class WalBuffer {
    const buf: array<byte>
    /** The checksum over header and body; nothing depends on what it computes. */
    const crc: seq<byte> -> u32
    var writeOff: nat
    var flushOff: nat
    var prevLsn: nat
    var currentLsn: nat
    var flushLsn: nat
    var checkpointedLsn: nat
    var tailPageId: PageId
    var tailUsed: nat
    var tailSegNo: nat
    var draining: Draining

    /** Log pages in the buffer pool, and their images on disk. */
    var pages: map<PageId, WalPage>
    var disk: map<PageId, WalPage>
    /** Page ids staged for this log by the page allocator. */
    var supply: seq<PageId>

    /** History: the pages of the log, every accepted byte, every accepted record, and
        the end of the last completed checkpoint. */
    ghost var chain: seq<PageId>
    ghost var accepted: seq<byte>
    ghost var recs: seq<Rec>
    ghost var ckptOff: nat
    /** Where the log stood when the last record was numbered. */
    ghost var last: Mark

    /** The counters. */
    ghost function S(): Sim
      reads this`writeOff, this`flushOff, this`draining, this`tailPageId, this`tailUsed, this`supply, this`last, this`recs
    {
      Sim(writeOff, flushOff, draining, tailPageId, tailUsed, supply, last, if recs == [] then 0 else recs[|recs| - 1].len)
    }

    ghost function Drained(): nat
      reads this`draining, this`flushOff
    {
      if draining.Idle? then flushOff else draining.start
    }

    ghost predicate Offsets()
      reads this`draining, this`flushOff, this`writeOff, this`tailUsed
    {
      && flushOff <= Drained() <= writeOff <= flushOff + BUF_SIZE && tailUsed <= PAYLOAD
      && (draining.Draining? ==> draining.start <= draining.end <= writeOff)
      && (draining.Draining? && draining.start != flushOff && !draining.stopped ==> tailUsed < PAYLOAD)
    }

    ghost predicate Pages()
      reads this`pages, this`disk, this`chain, this`tailPageId, this`tailUsed, this`tailSegNo
    {
      Shelf(pages, disk, chain, tailPageId, tailUsed, tailSegNo)
    }

    ghost predicate Valid()
      reads this`draining, this`flushOff, this`writeOff, this`pages, this`disk, this`chain, this`tailPageId, this`tailUsed, this`tailSegNo, this`supply, this`accepted, this`recs, this`prevLsn
    {
      && buf.Length == BUF_SIZE
      && Offsets() && Pages() && tailPageId < LSN_OFFSETS && IdsOk(supply, tailPageId)
      && |accepted| == writeOff && Contiguous(recs, writeOff) && prevLsn < U64
    }

    /** The bytes in the log pages. */
    ghost function Paged(): seq<byte>
      requires Valid()
      reads this`draining, this`flushOff, this`writeOff, this`pages, this`disk, this`chain, this`tailPageId, this`tailUsed, this`tailSegNo, this`supply, this`accepted, this`recs, this`prevLsn
    {
      ChainBytes(pages, chain)
    }

    /** What the log holds: the bytes of its pages, then the bytes still in the ring. */
    ghost function Log(): seq<byte>
      requires Valid()
      reads this`draining, this`flushOff, this`writeOff, this`pages, this`disk, this`chain, this`tailPageId, this`tailUsed, this`tailSegNo, this`supply, this`accepted, this`recs, this`prevLsn, buf
    {
      Paged() + Slice(buf[..], Drained(), writeOff)
    }

    /** Nothing that was accepted is missing, doubled or out of place. */
    ghost predicate Conserved()
      requires Valid()
      reads this`draining, this`flushOff, this`writeOff, this`pages, this`disk, this`chain, this`tailPageId, this`tailUsed, this`tailSegNo, this`supply, this`accepted, this`recs, this`prevLsn, buf
    {
      Log() == accepted
    }

    /** Bytes that fit into the tail page and the staged pages. */
    ghost function Room(): int
      reads this`supply, this`tailUsed
    {
      (|supply| + 1) * PAYLOAD - tailUsed
    }

    ghost function NextLsn(): nat
      requires Valid()
      reads this`draining, this`flushOff, this`writeOff, this`pages, this`disk, this`chain, this`tailPageId, this`tailUsed, this`tailSegNo, this`supply, this`accepted, this`recs, this`prevLsn
    {
      MakeLsn(tailPageId, tailUsed + (writeOff - flushOff))
    }

    ghost predicate Numbered()
      requires Valid()
      reads this
    {
      LsnOk(recs, NextLsn(), prevLsn, flushOff, flushLsn, ckptOff, checkpointedLsn)
    }

    /** Every link of the chain is in its page's image on disk. */
    ghost predicate LinksOnDisk()
      reads this`disk, this`chain
    {
      AllLinked(disk, chain)
    }

    ghost function Here(): Mark
      reads this`tailPageId, this`tailUsed, this`flushOff
    {
      Mark(tailPageId, tailUsed, flushOff)
    }

    /** Every record names the one before it, and the last has the number that `last` gives it. */
    ghost predicate Marked()
      reads this`recs, this`last, this`tailPageId, this`prevLsn
    {
      && Named(recs, prevLsn)
      && (recs != [] ==>
        var r := recs[|recs| - 1];
        && last.flush <= r.off && last.page <= tailPageId && last.used + (r.off - last.flush) < LSN_OFFSETS
        && r.lsn == MakeLsn(last.page, last.used + (r.off - last.flush)))
    }

    lemma InOrder()
      requires Valid()
      ensures SimOk(S()) && |accepted| == writeOff && S().Room() == Room() && buf.Length == BUF_SIZE && prevLsn < U64
      ensures flushOff <= writeOff <= flushOff + BUF_SIZE && tailUsed <= PAYLOAD
      ensures draining.Draining? ==> flushOff <= draining.start <= draining.end <= writeOff
      ensures recs != [] ==> recs[|recs| - 1].off + recs[|recs| - 1].len == writeOff && recs[|recs| - 1].len > 0
    {
      if recs != [] {
        assert EndsAt(recs, |recs| - 1, writeOff);
      }
    }

    /** Between drains the pages hold exactly the bytes before flush_off, when none is lost. */
    lemma FlushedBytes()
      requires Valid() && Conserved() && draining.Idle?
      ensures |Paged()| == flushOff && Paged() <= accepted
    {
      hide ChainBytes, Shelf, Contiguous;
      assert |Log()| == |Paged()| + (writeOff - flushOff);
    }

    constructor (crc: seq<byte> -> u32, first: PageId, staged: seq<PageId>)
      requires 0 < first < LSN_OFFSETS && IdsOk(staged, first)
      ensures Valid() && Conserved() && Numbered() && draining.Idle?
      ensures accepted == [] && recs == [] && supply == staged && fresh(buf) && Marked() && LinksOnDisk()
      ensures writeOff == flushOff == 0 && tailPageId == first && tailUsed == 0 && flushLsn == checkpointedLsn == 0
    {
      this.crc := crc;
      buf := new byte[BUF_SIZE](_ => 0);
      writeOff, flushOff, prevLsn, currentLsn, flushLsn, checkpointedLsn := 0, 0, 0, 0, 0, 0;
      tailPageId, tailUsed, tailSegNo, draining := first, 0, 1, Idle;
      pages := map[first := EmptyPage(1, MakeLsn(first, 0))];
      disk, supply := map[], staged;
      chain, accepted, recs, ckptOff, last := [first], [], [], 0, Mark(first, 0, 0);
      new;
      assert PageOk(pages, chain[0]);
      assert ChainBytes(pages, []) == [];
      assert chain[..0] == [];
    }

    // --------------------------------------------------------- appending

    /** Copies header and body into the ring, each in two parts when it wraps. */
    method CopyRecord(hdr: seq<byte>, body: seq<byte>, ghost from: nat)
      requires buf.Length == BUF_SIZE && |hdr| == REC_HDR && from <= writeOff && writeOff + |hdr| + |body| <= from + BUF_SIZE
      modifies this`writeOff, buf
      ensures writeOff == old(writeOff) + |hdr| + |body|
      ensures Slice(buf[..], from, writeOff) == Slice(old(buf[..]), from, old(writeOff)) + (hdr + body)
    {
      hide Slice, Put;
      PutTwice(buf[..], from, writeOff, hdr, body);
      RingWrite(buf, writeOff, hdr);
      writeOff := writeOff + REC_HDR;
      RingWrite(buf, writeOff, body);
      writeOff := writeOff + |body|;
    }

    /** The ring takes a record. */
    method Accept(hdr: seq<byte>, body: seq<byte>, lsn: nat)
      requires Valid() && |hdr| == REC_HDR && writeOff - flushOff + |hdr| + |body| <= BUF_SIZE && lsn < U64
      modifies this`writeOff, this`prevLsn, this`currentLsn, this`accepted, this`recs, buf
      ensures Valid() && writeOff == old(writeOff) + |hdr| + |body| && Paged() == old(Paged())
      ensures accepted == old(accepted) + (hdr + body) && Log() == old(Log()) + (hdr + body)
      ensures recs == old(recs) + [Rec(lsn, old(prevLsn), old(writeOff), |hdr| + |body|)] && prevLsn == currentLsn == lsn
    {
      hide Shelf, ChainBytes, Slice, Put, IdsOk;
      ghost var d, w, b0 := Drained(), writeOff, buf[..];
      CopyRecord(hdr, body, d);
      accepted := accepted + (hdr + body);
      ContiguousAppend(recs, w, Rec(lsn, prevLsn, w, REC_HDR + |body|));
      hide Contiguous;
      recs := recs + [Rec(lsn, prevLsn, w, REC_HDR + |body|)];
      currentLsn, prevLsn := lsn, lsn;
      Assoc(old(Paged()), Slice(b0, d, w), hdr + body);
    }

    /** Appends one record. It is accepted when it is not too long and the ring has
        room; otherwise nothing changes. `body` is shorter than 2^32 - 36 bytes, so
        that the record length does not wrap. */
    method Append(xid: nat, ty: byte, body: seq<byte>) returns (ret: int, lsn: nat, ghost rec: seq<byte>)
      requires Valid() && |body| < 0x1_0000_0000 - REC_HDR
      modifies this`writeOff, this`prevLsn, this`currentLsn, this`accepted, this`recs, this`last, buf
      ensures Valid() && Paged() == old(Paged())
      ensures ret == if REC_HDR + |body| > MAX_REC then EINVAL else if Accepts(old(S()), |body|) then 0 else ENOSPC
      ensures ret == 0 <==> |body| <= 8192 && old(writeOff - flushOff) + 36 + |body| <= 0x40_0000
      ensures ret == 0 <==> Accepts(old(S()), |body|)
      ensures ret != 0 ==> unchanged(this) && buf[..] == old(buf[..]) && Log() == old(Log())
      ensures ret == 0 ==> S() == Appended(old(S()), |body|)
      ensures ret == 0 ==>
        && lsn == old(NextLsn()) && prevLsn == lsn
        && |rec| == REC_HDR + |body| && accepted == old(accepted) + rec && Log() == old(Log()) + rec
        && recs == old(recs) + [Rec(lsn, old(prevLsn), old(writeOff), |rec|)]
      ensures ret == 0 ==> Grew(crc, old(recs), recs, accepted, [Entry(xid, ty, body)])
      ensures ret == 0 && draining.Idle? && old(Numbered()) ==> Numbered()
    {
      hide Header, Valid, LsnOk, Log, Paged, MakeLsn, Grew;
      InOrder();
      ret, lsn, rec := Enter(xid, ty, body);
      if ret == 0 && old(Numbered()) {
        Renumber(old(recs), old(NextLsn()), old(prevLsn), flushOff, flushLsn, ckptOff, checkpointedLsn, old(writeOff), REC_HDR + |body|, tailPageId, tailUsed);
      }
    }

    /** The same without regard to the order of numbers. */
    method Enter(xid: nat, ty: byte, body: seq<byte>) returns (ret: int, lsn: nat, ghost rec: seq<byte>)
      requires Valid() && |body| < 0x1_0000_0000 - REC_HDR
      modifies this`writeOff, this`prevLsn, this`currentLsn, this`accepted, this`recs, this`last, buf
      ensures Valid() && Paged() == old(Paged())
      ensures ret == if REC_HDR + |body| > MAX_REC then EINVAL else if Accepts(old(S()), |body|) then 0 else ENOSPC
      ensures ret != 0 ==> unchanged(this) && buf[..] == old(buf[..]) && Log() == old(Log())
      ensures ret == 0 ==> S() == Appended(old(S()), |body|)
      ensures ret == 0 ==>
        && lsn == old(NextLsn()) && prevLsn == lsn
        && |rec| == REC_HDR + |body| && accepted == old(accepted) + rec && Log() == old(Log()) + rec
        && recs == old(recs) + [Rec(lsn, old(prevLsn), old(writeOff), |rec|)]
      ensures ret == 0 ==> Grew(crc, old(recs), recs, accepted, [Entry(xid, ty, body)])
    {
      hide Header, Valid, Log, Paged, MakeLsn, Grew;
      InOrder();
      lsn, rec := 0, [];
      var total := REC_HDR + |body|;
      if total > MAX_REC {
        return EINVAL, lsn, rec;
      }
      if BUF_SIZE - (writeOff - flushOff) < total {
        return ENOSPC, lsn, rec;
      }
      lsn := MakeLsn(tailPageId, tailUsed + (writeOff - flushOff));
      var hdr := Header(crc, lsn, prevLsn, Entry(xid, ty, body));
      rec := hdr + body;
      LsnBound(tailPageId, tailUsed + (writeOff - flushOff));
      GrewOne(crc, recs, accepted, Entry(xid, ty, body), lsn, prevLsn);
      last := Here();
      Accept(hdr, body, lsn);
      ret := 0;
    }

    // ---------------------------------------------------------- draining

    /** Takes the next staged page, links it behind the full tail page and makes it
        the tail. The old tail goes to disk with its new link, or stays dirty. */
    method Grow(writeLink: bool)
      requires Valid() && supply != [] && tailUsed == PAYLOAD && tailPageId in pages && pages[tailPageId].segNo < tailSegNo
      modifies this`pages, this`disk, this`chain, this`supply, this`tailPageId, this`tailUsed
      ensures Valid() && S() == NewTail(old(S())) && Log() == old(Log())
      ensures LinksOnDisk() <==> writeLink && old(LinksOnDisk())
    {
      hide ChainBytes, Shelf, Contiguous, Slice, MakeLsn, AllLinked, EmptyPage;
      ShelfTail(pages, disk, chain, tailPageId, tailUsed, tailSegNo);
      var id := supply[0];
      var page := EmptyPage(tailSegNo, MakeLsn(tailPageId, tailUsed));
      ShelfGrows(pages, disk, chain, tailPageId, tailSegNo, id, page);
      supply := supply[1..];
      pages := LinkTo(pages, tailPageId, id, page);
      if writeLink {
        disk := disk[tailPageId := pages[tailPageId]];
      }
      chain := chain + [id];
      tailPageId, tailUsed := id, 0;
    }

    /** Tries to put a fresh page behind the full tail; the segment counter moves on
        even when there is none. */
    method AddPage(writeLink: bool) returns (ok: bool)
      requires Valid() && tailUsed == PAYLOAD
      modifies this`pages, this`disk, this`chain, this`supply, this`tailPageId, this`tailUsed, this`tailSegNo
      ensures Valid() && Log() == old(Log()) && ok == (old(supply) != [])
      ensures S() == if ok then NewTail(old(S())) else old(S())
      ensures LinksOnDisk() <==> old(LinksOnDisk()) && (ok ==> writeLink)
    {
      hide Shelf, ChainBytes, Slice, Contiguous, AllLinked, IdsOk;
      ShelfTail(pages, disk, chain, tailPageId, tailUsed, tailSegNo);
      tailSegNo := tailSegNo + 1;
      ok := supply != [];
      if ok {
        Grow(writeLink);
      }
    }

    /** Copies as much as fits from the ring into the tail page and writes it to disk. */
    method Drain(space: nat)
      requires Valid() && S().Busy() && space == PAYLOAD - tailUsed > 0
      modifies this`pages, this`disk, this`tailUsed, this`draining
      ensures Valid() && Log() == old(Log()) && S() == Fill(old(S()))
      ensures LinksOnDisk() <==> old(LinksOnDisk())
    {
      hide ChainBytes, Shelf, Slice, Filled, Contiguous, AllLinked, IdsOk;
      var chunk := if draining.end - draining.start < space then draining.end - draining.start else space;
      var bytes := RingRead(buf, draining.start, chunk);
      ShelfFills(pages, disk, chain, tailPageId, tailUsed, tailSegNo, buf[..], draining.start, draining.start + chunk, writeOff);
      PutTail(Filled(pages[tailPageId], bytes), chunk);
    }

    /** The tail page with `chunk` more bytes, in the pool and on disk. */
    method PutTail(page: WalPage, chunk: nat)
      requires Valid() && draining.Draining? && chunk == Min(draining.end - draining.start, PAYLOAD - tailUsed)
      requires tailPageId in pages && page.used == tailUsed + chunk
      requires var pages', disk' := pages[tailPageId := page], disk[tailPageId := page];
        && Shelf(pages', disk', chain, tailPageId, page.used, tailSegNo) && (AllLinked(disk', chain) <==> AllLinked(disk, chain))
        && (forall i | 0 <= i < |chain| :: PageOk(pages', chain[i]))
        && ChainBytes(pages', chain) + Slice(buf[..], draining.start + chunk, writeOff) == Log()
      modifies this`pages, this`disk, this`tailUsed, this`draining
      ensures Valid() && Log() == old(Log()) && (LinksOnDisk() <==> old(LinksOnDisk()))
      ensures S() == old(S()).(used := page.used, draining := Draining(old(draining).start + chunk, old(draining).end, page.used == PAYLOAD))
    {
      hide ChainBytes, Shelf, Slice, Contiguous, AllLinked, IdsOk;
      pages, disk, tailUsed := pages[tailPageId := page], disk[tailPageId := page], page.used;
      draining := Draining(draining.start + chunk, draining.end, page.used == PAYLOAD);
    }

    /** One turn of the draining loop; it fails when the tail is full and no page staged. */
    method FlushStep() returns (ok: bool)
      requires Valid() && S().Busy()
      modifies this`pages, this`disk, this`chain, this`supply, this`tailPageId, this`tailUsed, this`tailSegNo, this`draining
      ensures Valid() && Log() == old(Log()) && S() == Turn(old(S()))
      ensures ok <==> draining.Draining?
      ensures LinksOnDisk() <==> old(LinksOnDisk()) && !(old(tailUsed) == PAYLOAD && old(supply) != [])
    {
      hide Shelf, ChainBytes, Slice, Contiguous, AllLinked, IdsOk;
      ShelfTail(pages, disk, chain, tailPageId, tailUsed, tailSegNo);
      var space := PAYLOAD - pages[tailPageId].used;
      if space == 0 {
        ok := AddPage(false);
        if !ok {
          draining := Idle;
        }
        return;
      }
      Drain(space);
      if tailUsed >= PAYLOAD {
        var more := AddPage(true);
        draining := draining.(stopped := !more);
      }
      ok := true;
    }

    /** Snapshot of the bytes to drain; false when there is nothing to do. */
    method FlushBegin() returns (work: bool)
      requires Valid() && draining.Idle?
      modifies this`draining
      ensures Valid() && Log() == old(Log()) && Paged() == old(Paged()) && S() == Next(old(S()), Begin)
      ensures work == (flushOff < writeOff)
    {
      hide Shelf, ChainBytes, Slice, Contiguous, IdsOk;
      work := flushOff != writeOff;
      if work {
        draining := Draining(flushOff, writeOff, false);
      }
    }

    /** Advances flush_off to the snapshot, even when the loop stopped early: then the
        bytes between are in neither place. */
    method FlushEnd()
      requires Valid() && S().Finished()
      modifies this`flushOff, this`flushLsn, this`draining
      ensures Valid() && S() == Next(old(S()), End)
      ensures flushLsn == MakeLsn(tailPageId, tailUsed)
      ensures Paged() == old(Paged()) && Log() == Paged() + Slice(buf[..], flushOff, writeOff)
      ensures |Log()| == |old(Log())| - (old(draining).end - old(draining).start)
      ensures old(draining).start == old(draining).end ==> Log() == old(Log())
    {
      hide Shelf, ChainBytes, Contiguous, IdsOk;
      flushOff := draining.end;
      draining := Idle;
      flushLsn := MakeLsn(tailPageId, tailUsed);
    }

    /** The draining loop. Every turn drains bytes or replaces a full tail page. */
    method DrainLoop() returns (ok: bool)
      requires Valid() && draining.Draining? && !draining.stopped
      modifies this`pages, this`disk, this`chain, this`supply, this`tailPageId, this`tailUsed, this`tailSegNo, this`draining
      ensures Valid() && Log() == old(Log()) && S() == DrainSim(old(S()))
      ensures ok <==> draining.Draining?
      ensures LinksOnDisk() <==> old(LinksOnDisk()) && !(old(S()).Busy() && old(tailUsed) == PAYLOAD && old(supply) != [])
    {
      hide Valid, Log, AllLinked, Turn;
      ghost var s0 := S();
      InOrder();
      while draining.start < draining.end && !draining.stopped
        invariant Valid() && draining.Draining? && Log() == old(Log())
        invariant SimOk(S()) && DrainSim(S()) == DrainSim(s0)
        invariant if S() == s0 then LinksOnDisk() <==> old(LinksOnDisk())
                  else (S().Busy() ==> tailUsed < PAYLOAD) && (LinksOnDisk() <==> old(LinksOnDisk()) && !(s0.Busy() && s0.used == PAYLOAD && s0.supply != []))
        decreases draining.end - draining.start, if tailUsed == PAYLOAD then 1 else 0
      {
        TurnOk(S());
        TurnMoves(S());
        ok := FlushStep();
        if !ok {
          return;
        }
      }
      ok := true;
    }

    /** Drains the ring. It fails, with nothing drained, when the tail is full and no
        page is staged. Otherwise it drains what fits into the tail and the staged
        pages: exactly the bytes beyond that are lost. A link stays off the disk exactly
        when the tail is found full and a page is there. */
    method Flush() returns (ret: int)
      requires Valid() && draining.Idle?
      modifies this`pages, this`disk, this`chain, this`supply, this`tailPageId, this`tailUsed, this`tailSegNo,
        this`draining, this`flushOff, this`flushLsn
      ensures Valid() && S() == FlushSim(old(S()))
      ensures ret == if FlushFails(old(S())) then ENOSPC else 0
      ensures ret != 0 ==> Log() == old(Log())
      ensures ret == 0 ==> Log() == Paged() == Cut(old(Log()), Excess(old(writeOff - flushOff), old(Room())))
      ensures old(Paged()) <= Paged()
      ensures flushLsn == if old(flushOff) == writeOff || ret != 0 then old(flushLsn) else MakeLsn(tailPageId, tailUsed)
      ensures (ret != 0 || old(writeOff - flushOff) <= old(Room())) && old(Numbered()) ==> Numbered()
      ensures LinksOnDisk() <==> old(LinksOnDisk()) && !(old(flushOff) < writeOff && old(tailUsed) == PAYLOAD && old(supply) != [])
    {
      hide Valid, Paged, Log, LsnOk, MakeLsn, AllLinked, FlushSim, FlushFails, SimOk, Cut;
      ghost var s0 := S();
      InOrder();
      FlushFacts(s0);
      ret := DrainAll();
      if ret == 0 && old(writeOff - flushOff) <= old(Room()) && old(Numbered()) && s0.flushOff < s0.writeOff {
        Renumbered(s0, old(flushLsn));
      }
    }

    /** The same without regard to numbers. */
    method DrainAll() returns (ret: int)
      requires Valid() && draining.Idle?
      modifies this`pages, this`disk, this`chain, this`supply, this`tailPageId, this`tailUsed, this`tailSegNo,
        this`draining, this`flushOff, this`flushLsn
      ensures Valid() && S() == FlushSim(old(S()))
      ensures ret == if FlushFails(old(S())) then ENOSPC else 0
      ensures ret != 0 ==> Log() == old(Log())
      ensures ret == 0 ==> Log() == Paged() == Cut(old(Log()), Excess(old(writeOff - flushOff), old(Room())))
      ensures old(Paged()) <= Paged()
      ensures flushLsn == if old(flushOff) == writeOff || ret != 0 then old(flushLsn) else MakeLsn(tailPageId, tailUsed)
      ensures LinksOnDisk() <==> old(LinksOnDisk()) && !(old(flushOff) < writeOff && old(tailUsed) == PAYLOAD && old(supply) != [])
    {
      hide Valid, Paged, Log, Slice, MakeLsn, AllLinked, DrainSim, SimOk, Cut;
      InOrder();
      FlushFacts(S());
      LogIs();
      var work := FlushBegin();
      if !work {
        NothingToDrain(Paged(), buf[..], flushOff, Log());
        return 0;
      }
      InOrder();
      DrainFacts(S());
      var ok := DrainAndEnd();
      ret := if ok then 0 else ENOSPC;
    }

    lemma LogLength()
      requires Valid() && draining.Idle?
      ensures |Log()| >= writeOff - flushOff && 0 <= Room()
      ensures |Cut(Log(), Excess(writeOff - flushOff, Room()))| == |Log()| - Excess(writeOff - flushOff, Room())
    {
      hide ChainBytes, Shelf, Contiguous;
    }

    lemma LogIs()
      requires Valid()
      ensures Log() == Paged() + Slice(buf[..], Drained(), writeOff)
    {
      hide Valid, Paged;
    }

    /** The loop and the end of a drain that has just taken its snapshot. */
    method DrainAndEnd() returns (ok: bool)
      requires Valid() && draining == Draining(flushOff, writeOff, false)
      modifies this`pages, this`disk, this`chain, this`supply, this`tailPageId, this`tailUsed, this`tailSegNo,
        this`draining, this`flushOff, this`flushLsn
      ensures Valid() && ok == DrainSim(old(S())).draining.Draining?
      ensures !ok ==> S() == DrainSim(old(S())) && Log() == old(Log()) && flushLsn == old(flushLsn) && Paged() == old(Paged())
      ensures ok ==> S() == Next(DrainSim(old(S())), End) && flushLsn == MakeLsn(tailPageId, tailUsed)
      ensures ok ==> var d := DrainSim(old(S())).draining; Log() == Paged() == Cut(old(Log()), d.end - d.start)
      ensures old(Paged()) <= Paged()
      ensures LinksOnDisk() <==> old(LinksOnDisk()) && !(old(S()).Busy() && old(tailUsed) == PAYLOAD && old(supply) != [])
    {
      hide Valid, Paged, Log, Slice, MakeLsn, AllLinked, DrainSim, SimOk;
      ghost var log0, paged0, n := Log(), Paged(), writeOff - flushOff;
      InOrder();
      DrainFacts(S());
      LogIs();
      ok := DrainLoop();
      LogIs();
      if !ok {
        SamePages(paged0, Paged(), Slice(buf[..], Drained(), writeOff));
        return;
      }
      ghost var s, e := draining.start, draining.end;
      FlushEnd();
      AfterDrain(Paged(), buf[..], s, e, log0);
      PagedGrows(paged0, log0, n, Paged(), e - s);
    }

    lemma Renumbered(s0: Sim, lsn0: nat)
      requires Valid() && flushOff == writeOff == s0.writeOff && flushLsn == MakeLsn(tailPageId, tailUsed)
      requires s0.flushOff <= s0.writeOff <= s0.flushOff + BUF_SIZE && s0.used <= PAYLOAD
      requires tailPageId > s0.page || (tailPageId == s0.page && tailUsed == s0.used + (s0.writeOff - s0.flushOff))
      requires LsnOk(recs, MakeLsn(s0.page, s0.used + (s0.writeOff - s0.flushOff)), prevLsn, s0.flushOff, lsn0, ckptOff, checkpointedLsn)
      ensures Numbered()
    {
      hide Offsets, Pages, LsnOk, MakeLsn;
      InOrder();
      RenumberFlush(recs, s0.page, s0.used, s0.writeOff - s0.flushOff, prevLsn, s0.flushOff, lsn0, ckptOff, checkpointedLsn, writeOff, tailPageId, tailUsed);
    }

    // -------------------------------------------------------- checkpoints

    /** Appends a CHECKPOINT record and drains it at once. Afterwards comparing a
        record's number with checkpointedLsn tells whether it was there before. */
    method Checkpoint(dataFlushLsn: nat, time: nat) returns (ret: int)
      requires Valid() && draining.Idle?
      modifies this, buf
      ensures Valid()
      ensures ret == if Accepts(old(S()), 16) && !FlushFails(Appended(old(S()), 16)) then 0 else ENOSPC
      ensures ret == 0 ==> S() == FlushSim(Appended(old(S()), 16)) && Log() == Paged()
      ensures ret == 0 ==> ckptOff == writeOff && checkpointedLsn == flushLsn == MakeLsn(tailPageId, tailUsed)
      ensures ret != 0 ==> S() == (if Accepts(old(S()), 16) then Appended(old(S()), 16) else old(S()))
      ensures ret != 0 ==> ckptOff == old(ckptOff) && checkpointedLsn == old(checkpointedLsn)
      ensures Grew(crc, old(recs), recs, accepted, if Accepts(old(S()), 16) then [Entry(0, REC_CHECKPOINT, CheckpointBody(dataFlushLsn, time))] else [])
      ensures old(accepted) <= accepted && old(Paged()) <= Paged()
      ensures |accepted| - |Log()| ==
        |old(accepted)| - |old(Log())| + if ret == 0 then Excess(old(writeOff - flushOff) + CKPT_REC, old(Room())) else 0
      ensures ret != 0 || old(writeOff - flushOff) + CKPT_REC <= old(Room()) ==>
        (old(Conserved()) ==> Conserved()) && (old(Numbered()) ==> Numbered()) && old(Log()) <= Log()
    {
      hide Valid, LsnOk, MakeLsn, Paged, Log, Numbered, AllLinked, Grew, FlushSim, FlushFails, SimOk, Cut, Le;
      InOrder();
      ret := LogCheckpoint(dataFlushLsn, time);
      if ret == 0 {
        ret := SealCheckpoint();
      }
    }

    /** Drains the CHECKPOINT record and takes note. */
    method SealCheckpoint() returns (ret: int)
      requires Valid() && draining.Idle? && flushOff < writeOff
      modifies this`pages, this`disk, this`chain, this`supply, this`tailPageId, this`tailUsed, this`tailSegNo,
        this`draining, this`flushOff, this`flushLsn, this`checkpointedLsn, this`ckptOff
      ensures Valid() && ret == if FlushFails(old(S())) then ENOSPC else 0
      ensures ret == 0 ==> S() == FlushSim(old(S())) && Log() == Paged()
      ensures ret == 0 ==> ckptOff == writeOff && checkpointedLsn == flushLsn == MakeLsn(tailPageId, tailUsed)
      ensures ret != 0 ==> S() == old(S()) && ckptOff == old(ckptOff) && checkpointedLsn == old(checkpointedLsn)
      ensures old(Paged()) <= Paged()
      ensures |Log()| == |old(Log())| - if ret == 0 then Excess(old(writeOff - flushOff), old(Room())) else 0
      ensures ret != 0 || old(writeOff - flushOff) <= old(Room()) ==> Log() == old(Log()) && (old(Numbered()) ==> Numbered())
    {
      hide Valid, LsnOk, MakeLsn, Paged, Log, Numbered, AllLinked, FlushSim, FlushFails, SimOk, Cut;
      InOrder();
      FlushFacts(S());
      CutNone(Log());
      LogLength();
      ret := Flush();
      if ret == 0 {
        MarkCheckpoint();
      }
    }

    method LogCheckpoint(dataFlushLsn: nat, time: nat) returns (ret: int)
      requires Valid() && draining.Idle?
      modifies this`writeOff, this`prevLsn, this`currentLsn, this`accepted, this`recs, this`last, buf
      ensures Valid() && Paged() == old(Paged()) && old(accepted) <= accepted && old(Log()) <= Log()
      ensures ret == if Accepts(old(S()), 16) then 0 else ENOSPC
      ensures S() == if ret == 0 then Appended(old(S()), 16) else old(S())
      ensures Grew(crc, old(recs), recs, accepted, if ret == 0 then [Entry(0, REC_CHECKPOINT, CheckpointBody(dataFlushLsn, time))] else [])
      ensures |accepted| - |Log()| == |old(accepted)| - |old(Log())|
      ensures (old(Conserved()) ==> Conserved()) && (old(Numbered()) ==> Numbered())
    {
      hide Valid, LsnOk, MakeLsn, Paged, Log, Header, Grew, SimOk, Le;
      InOrder();
      GrewNot(crc, recs, accepted);
      var lsn;
      ghost var rec;
      ret, lsn, rec := Append(0, REC_CHECKPOINT, CheckpointBody(dataFlushLsn, time));
    }

    /** The checkpoint is complete. */
    method MarkCheckpoint()
      requires Valid()
      modifies this`checkpointedLsn, this`ckptOff
      ensures ckptOff == flushOff && checkpointedLsn == flushLsn
      ensures old(Numbered()) ==> Numbered()
    {
      hide Valid, LsnOk, MakeLsn;
      CheckpointHere(recs, NextLsn(), prevLsn, flushOff, flushLsn, ckptOff, checkpointedLsn);
      checkpointedLsn := flushLsn;
      ckptOff := flushOff;
    }

    // ------------------------------------------------------ interleavings

    /** An append and its place in the order of numbers, whatever a drain is doing. */
    method Numbering(e: Event)
      requires Valid() && e.Write?
      modifies this`writeOff, this`prevLsn, this`currentLsn, this`accepted, this`recs, this`last, buf
      ensures Valid() && S() == Next(old(S()), e) && Grew(crc, old(recs), recs, accepted, Logged(old(S()), e))
      ensures old(accepted) <= accepted && Log() == old(Log()) + accepted[|old(accepted)|..]
      ensures old(Marked()) ==> Marked()
      ensures old(Marked()) && Ascending(old(recs)) ==> (Ascending(recs) <==> !Slips(old(S()), e))
    {
      hide Valid, LsnOk, MakeLsn, Paged, Header, Log, InStep, Ascending, Grew, SimOk, Named;
      ghost var recs0, s0 := recs, S();
      InOrder();
      GrewNot(crc, recs, accepted);
      Whole(Log(), accepted);
      if |e.body| < 0x1_0000_0000 - REC_HDR {
        var ret, lsn, rec := Append(e.xid, e.ty, e.body);
        if ret == 0 {
          if old(Marked()) {
            NamedPush(recs0, old(prevLsn), recs[|recs0|]);
          }
          if old(Marked()) && Ascending(recs0) {
            AscendingPush(recs0, recs[|recs0|]);
            if recs0 != [] {
              var r := recs0[|recs0| - 1];
              StepOrder(s0.last, r.off, r.len, s0.Here());
            }
          }
        }
      }
    }

    /** One step of some thread; a step that is not enabled does nothing. */
    method Perform(e: Event)
      requires Valid()
      modifies this, buf
      ensures Valid() && S() == Next(old(S()), e) && Grew(crc, old(recs), recs, accepted, Logged(old(S()), e))
      ensures old(accepted) <= accepted
      ensures old(Conserved()) && !Drops(old(S()), e) ==> Conserved()
      ensures |accepted| - |Log()| >= |old(accepted)| - |old(Log())|
      ensures Drops(old(S()), e) ==> |accepted| - |Log()| > |old(accepted)| - |old(Log())|
      ensures old(Marked()) ==> Marked()
      ensures old(Marked()) && Ascending(old(recs)) ==> (Ascending(recs) <==> !Slips(old(S()), e))
    {
      hide Valid, Log, Paged, LsnOk, MakeLsn, Header, Slice, Ascending, Grew, SimOk, Turn, InStep, Named;
      InOrder();
      GrewNot(crc, recs, accepted);
      NextOk(S(), e);
      match e {
        case Write(_, _, _) =>
          Numbering(e);
        case Begin =>
          if draining.Idle? {
            var work := FlushBegin();
          }
        case Step =>
          if draining.Draining? && draining.start < draining.end && !draining.stopped {
            var ok := FlushStep();
          }
        case End =>
          if draining.Draining? && (draining.start == draining.end || draining.stopped) {
            FlushEnd();
          }
        case Stage(ids) =>
          if IdsOk(ids, tailPageId) {
            SetSupply(ids);
          }
      }
    }

    method SetSupply(ids: seq<PageId>)
      requires Valid() && IdsOk(ids, tailPageId)
      modifies this`supply
      ensures Valid() && supply == ids && Log() == old(Log()) && (old(Numbered()) ==> Numbered())
    {
      hide LsnOk, Shelf, ChainBytes, Slice, Contiguous, IdsOk;
      supply := ids;
    }

    /** Whatever the interleaving of appends with the steps of the draining thread: the log
        has one more record for each append that finds room, in order, which reads as what was
        appended and names the one before it; it
        holds exactly the accepted bytes if and only if no drain ends before it has drained
        all, so always when the pages staged beforehand are enough; and numbers increase if and
        only if no append slips behind the one before it. All of it is decided by the counters
        before the run and the steps. */
    method Run(events: seq<Event>)
      requires Valid() && Conserved() && Marked() && Ascending(recs)
      modifies this, buf
      ensures Valid() && SimOk(old(S())) && S() == After(old(S()), events)
      ensures old(accepted) <= accepted && Grew(crc, old(recs), recs, accepted, Taken(old(S()), events))
      ensures Conserved() <==> !Loses(old(S()), events)
      ensures NoStaging(events) && !old(S()).Stuck() && old(S()).Backlog() + Offered(events) <= old(S()).Room() ==> Conserved()
      ensures Marked() && (Ascending(recs) <==> !SlipsIn(old(S()), events))
    {
      hide Valid, Log, LsnOk, Ascending, Marked, Grew, Next, Slips, Drops, SimOk;
      InOrder();
      ghost var s0, lossy, slipped, entries := S(), false, false, [];
      SameLength(Log(), accepted);
      GrewNot(crc, recs, accepted);
      assert events[0..] == events;
      for i := 0 to |events|
        invariant Valid() && SimOk(S()) && old(accepted) <= accepted && old(recs) <= recs && Marked()
        invariant After(S(), events[i..]) == After(s0, events)
        invariant Grew(crc, old(recs), recs, accepted, entries) && entries + Taken(S(), events[i..]) == Taken(s0, events)
        invariant if lossy then |accepted| > |Log()| else Conserved()
        invariant Loses(s0, events) <==> lossy || Loses(S(), events[i..])
        invariant Ascending(recs) <==> !slipped
        invariant SlipsIn(s0, events) <==> slipped || SlipsIn(S(), events[i..])
      {
        ghost var e, s, recs1, acc1, tail := events[i], S(), recs, accepted, events[i..];
        assert tail[0] == e && tail[1..] == events[i + 1..];
        NextOk(s, e);
        Perform(events[i]);
        GrewMore(crc, old(recs), recs1, recs, acc1, accepted, entries, Logged(s, e));
        Assoc3(entries, Logged(s, e), Taken(S(), events[i + 1..]));
        entries := entries + Logged(s, e);
        GrewPrefix(crc, recs1, recs, accepted, Logged(s, e));
        if slipped && Ascending(recs) {
          AscendingPrefix(recs1, recs);
        }
        lossy := lossy || Drops(s, e);
        slipped := slipped || Slips(s, e);
      }
      assert events[|events|..] == [] && entries + [] == entries;
      if NoStaging(events) && !s0.Stuck() && s0.Backlog() + Offered(events) <= s0.Room() {
        EnoughPages(s0, events);
      }
    }

    /** An append and the number it gives. */
    method Enumerate(xid: nat, ty: byte, body: seq<byte>) returns (ok: bool, lsn: nat)
      requires Valid() && |body| < 0x1_0000_0000 - REC_HDR
      modifies this`writeOff, this`prevLsn, this`currentLsn, this`accepted, this`recs, this`last, buf
      ensures Valid() && (ok <==> Accepts(old(S()), |body|)) && S() == if ok then Appended(old(S()), |body|) else old(S())
      ensures |recs| == |old(recs)| + (if ok then 1 else 0) && old(recs) <= recs
      ensures ok ==> recs[|recs| - 1].lsn == lsn == MakeLsn(old(tailPageId), old(tailUsed + (writeOff - flushOff)))
    {
      hide Valid, LsnOk, MakeLsn, Log, Paged, Numbered, Grew, Header, SimOk, Accepts;
      InOrder();
      var ret;
      ghost var rec;
      ret, lsn, rec := Append(xid, ty, body);
      ok := ret == 0;
    }

    /** Two appends with any steps of drains between them: when both find room, and that then
        the second number is the larger one exactly when the two are in step. */
    method AppendsInOrder(xid: nat, ty: byte, body: seq<byte>, between: seq<Event>, body2: seq<byte>) returns (both: bool, a: nat, b: nat)
      requires Valid() && |body| < 0x1_0000_0000 - REC_HDR && |body2| < 0x1_0000_0000 - REC_HDR
      requires forall i | 0 <= i < |between| :: !between[i].Write?
      modifies this, buf
      ensures Valid() && SimOk(old(S())) && (Accepts(old(S()), |body|) ==> SimOk(Appended(old(S()), |body|)))
      ensures both <==> Accepts(old(S()), |body|) && Accepts(After(Appended(old(S()), |body|), between), |body2|)
      ensures both ==> |recs| == |old(recs)| + 2 && a == recs[|recs| - 2].lsn && b == recs[|recs| - 1].lsn
      ensures both ==> (a < b <==> tailPageId > old(tailPageId)
                                   || (flushOff - old(flushOff)) - (tailUsed - old(tailUsed)) < REC_HDR + |body|)
    {
      hide Valid, LsnOk, MakeLsn, Log, Paged, Grew, Ascending, Slice, Header, Next;
      both, a, b := false, 0, 0;
      InOrder();
      ghost var m, off := Here(), writeOff;
      both, a := Enumerate(xid, ty, body);
      if !both {
        return;
      }
      InOrder();
      ghost var recs1, s1 := recs, S();
      assert between[0..] == between;
      for i := 0 to |between|
        invariant Valid() && SimOk(S()) && recs == recs1 && writeOff == s1.writeOff && tailPageId >= m.page
        invariant After(S(), between[i..]) == After(s1, between)
      {
        ghost var s := S();
        assert between[i..][0] == between[i] && between[i..][1..] == between[i + 1..];
        NextQuiet(s, between[i]);
        Perform(between[i]);
        GrewNone(crc, recs1, recs, accepted);
      }
      assert between[|between|..] == [];
      InOrder();
      ghost var n := Here();
      both, b := Enumerate(xid, ty, body2);
      if both {
        StepOrder(m, off, REC_HDR + |body|, n);
      }
    }

    /** An append between the last turn of a drain and its end, and the next append: in
        order exactly when the record is longer than what the drain has drained. */
    method AppendInsideDrain(xid: nat, ty: byte, body: seq<byte>, body2: seq<byte>) returns (both: bool, a: nat, b: nat)
      requires Valid() && |body| < 0x1_0000_0000 - REC_HDR && |body2| < 0x1_0000_0000 - REC_HDR
      requires draining.Draining? && draining.start == draining.end && !draining.stopped
      modifies this, buf
      ensures Valid() && draining.Idle?
      ensures both <==> |body| <= 8192 && |body2| <= 8192
                        && old(writeOff - flushOff) + REC_HDR + |body| <= BUF_SIZE
                        && old(writeOff - draining.end) + 2 * REC_HDR + |body| + |body2| <= BUF_SIZE
      ensures both ==> |recs| == |old(recs)| + 2 && a == recs[|recs| - 2].lsn && b == recs[|recs| - 1].lsn
      ensures both ==> (a < b <==> old(draining.start - flushOff) < REC_HDR + |body|)
    {
      hide Valid, LsnOk, MakeLsn, Log, Paged, Numbered, Grew, Slice, Header, SimOk, InStep;
      ghost var m, off := Here(), writeOff;
      InOrder();
      var first, second;
      first, a := Enumerate(xid, ty, body);
      FlushEnd();
      InOrder();
      ghost var n := Here();
      second, b := Enumerate(xid, ty, body2);
      both := first && second;
      if both {
        StepOrder(m, off, REC_HDR + |body|, n);
        SameTail(m, REC_HDR + |body|, n);
      }
    }

    // -------------------------------------------------- whole operations

    /** One whole operation, carried out exactly when ring and pages have room for it;
        otherwise nothing changes. */
    method Act(a: Action) returns (ok: bool)
      requires Valid() && draining.Idle? && Conserved() && Numbered()
      modifies this, buf
      ensures Valid() && Conserved() && Numbered() && RestOk(old(S()))
      ensures ok <==> Fits(old(S()), a)
      ensures S() == Acted(old(S()), a)
      ensures old(accepted) <= accepted && Grew(crc, old(recs), recs, accepted, ActLogs(old(S()), a))
      ensures ckptOff == if ok && a.TakeCheckpoint? then writeOff else old(ckptOff)
    {
      hide Valid, LsnOk, MakeLsn, Log, Paged, Numbered, Grew, Header, FlushSim, SimOk, AllLinked, Cut, Accepts;
      InOrder();
      GrewNot(crc, recs, accepted);
      CutNone(Log());
      ok := CanAct(a);
      if !ok {
        return;
      }
      match a {
        case AppendRec(xid, ty, body) =>
          AcceptsSmall(S(), |body|);
          var ret, lsn, _ := Append(xid, ty, body);
        case FlushAll =>
          FlushFacts(S());
          var ret := Flush();
        case TakeCheckpoint(dataFlushLsn, time) =>
          AppendedOk(S(), 16);
          FlushFacts(Appended(S(), 16));
          var ret := Checkpoint(dataFlushLsn, time);
        case StageIds(ids) =>
          SetSupply(ids);
      }
    }

    /** Whether an operation finds room. */
    method CanAct(a: Action) returns (ok: bool)
      requires Valid()
      ensures ok == Fits(S(), a)
    {
      InOrder();
      match a {
        case AppendRec(_, _, body) =>
          ok := |body| < 0x1_0000_0000 - REC_HDR && REC_HDR + |body| <= MAX_REC && writeOff - flushOff + REC_HDR + |body| <= BUF_SIZE;
        case FlushAll =>
          ok := writeOff - flushOff <= (|supply| + 1) * PAYLOAD - tailUsed;
        case TakeCheckpoint(_, _) =>
          ok := writeOff - flushOff + CKPT_REC <= BUF_SIZE && writeOff - flushOff + CKPT_REC <= (|supply| + 1) * PAYLOAD - tailUsed;
        case StageIds(ids) =>
          ok := IdsOk(ids, tailPageId);
      }
    }

    /** Over every run of whole operations: which of them are carried out is decided by the
        counters before the run; each append and each checkpoint carried out adds its record;
        and numbers, flush_lsn and checkpointed_lsn keep their promises. */
    method RunAtomic(actions: seq<Action>) returns (done: seq<bool>)
      requires Valid() && draining.Idle? && Conserved() && Numbered()
      modifies this, buf
      ensures Valid() && Conserved() && Numbered() && RestOk(old(S()))
      ensures done == FitsAll(old(S()), actions) && S() == ActedAll(old(S()), actions)
      ensures old(accepted) <= accepted && Grew(crc, old(recs), recs, accepted, LoggedAll(old(S()), actions))
    {
      hide Valid, Log, LsnOk, MakeLsn, Numbered, Grew, Acted, Fits, ActLogs, SimOk;
      InOrder();
      ghost var s0, entries := S(), [];
      GrewNot(crc, recs, accepted);
      done := [];
      assert actions[0..] == actions;
      for i := 0 to |actions|
        invariant Valid() && RestOk(S()) && Conserved() && Numbered() && old(accepted) <= accepted
        invariant ActedAll(S(), actions[i..]) == ActedAll(s0, actions)
        invariant done + FitsAll(S(), actions[i..]) == FitsAll(s0, actions)
        invariant Grew(crc, old(recs), recs, accepted, entries) && entries + LoggedAll(S(), actions[i..]) == LoggedAll(s0, actions)
      {
        ghost var s, recs1, acc1, tail := S(), recs, accepted, actions[i..];
        assert tail[0] == actions[i] && tail[1..] == actions[i + 1..];
        var ok := Act(actions[i]);
        GrewMore(crc, old(recs), recs1, recs, acc1, accepted, entries, ActLogs(s, actions[i]));
        Assoc3(entries, ActLogs(s, actions[i]), LoggedAll(S(), actions[i + 1..]));
        AssocBool(done, [ok], FitsAll(S(), actions[i + 1..]));
        entries := entries + ActLogs(s, actions[i]);
        done := done + [ok];
      }
      assert actions[|actions|..] == [] && entries + [] == entries && done + [] == done;
    }
  }

  lemma LsnBound(page: PageId, offset: nat)
    requires page < LSN_OFFSETS && offset < LSN_OFFSETS
    ensures MakeLsn(page, offset) < U64
  {
  }

  lemma AcceptsSmall(s: Sim, len: nat)
    requires Accepts(s, len)
    ensures len < 0x1_0000_0000 - REC_HDR
  {
  }

  lemma AssocBool(a: seq<bool>, b: seq<bool>, c: seq<bool>)
    ensures a + (b + c) == (a + b) + c
  {
  }

  /** A step that is no append leaves write_off alone. */
  lemma NextQuiet(s: Sim, e: Event)
    requires SimOk(s) && !e.Write?
    ensures SimOk(Next(s, e)) && Next(s, e).writeOff == s.writeOff && Next(s, e).page >= s.page && Logged(s, e) == []
  {
    NextOk(s, e);
  }

  lemma Assoc3(a: seq<Entry>, b: seq<Entry>, c: seq<Entry>)
    ensures a + (b + c) == (a + b) + c
  {
  }

  lemma SameLength(log: seq<byte>, accepted: seq<byte>)
    requires log == accepted
    ensures |log| == |accepted|
  {
  }

  lemma Whole(log: seq<byte>, accepted: seq<byte>)
    ensures log == log + accepted[|accepted|..]
  {
  }

  lemma CutNone(log: seq<byte>)
    ensures Cut(log, 0) == log
  {
  }

  lemma PagedGrows(paged: seq<byte>, log: seq<byte>, n: nat, more: seq<byte>, lost: nat)
    requires paged <= log && |log| == |paged| + n && lost <= n && more == Cut(log, lost)
    ensures paged <= more
  {
  }

  lemma SamePages(a: seq<byte>, b: seq<byte>, rest: seq<byte>)
    requires a + rest == b + rest
    ensures a == b
  {
    assert |a| == |b|;
    assert (a + rest)[..|a|] == a && (b + rest)[..|a|] == b;
  }

  lemma TurnMoves(s: Sim)
    requires SimOk(s) && s.Busy()
    ensures Turn(s) != s
  {
  }

  // ------------------------------------------------------------ witnesses

  /** Without a staged page, one record longer than a page payload is cut short. */
  method LossWithoutPages(crc: seq<byte> -> u32) returns (w: WalBuffer)
    ensures w.Valid() && !w.Conserved()
  {
    hide Header, WalBuffer.Valid, WalBuffer.Log, WalBuffer.Paged, WalBuffer.Numbered, WalBuffer.LinksOnDisk, Grew, FlushSim, Cut;
    w := new WalBuffer(crc, 1, []);
    var ret, lsn, _ := w.Append(7, 1, seq(8192, _ => 0));
    w.InOrder();
    FlushFacts(w.S());
    CutShorter(w.Log(), Excess(w.writeOff, PAYLOAD));
    ret := w.Flush();
  }

  lemma CutShorter(log: seq<byte>, lost: nat)
    requires 0 < lost <= |log|
    ensures Cut(log, lost) != log
  {
  }

  /** A drain that has drained a header's worth of bytes, an append, the end of the drain,
      another append: the second number is not the larger one. */
  method LsnNotIncreasing(w: WalBuffer) returns (a: nat, b: nat)
    requires w.Valid() && w.draining.Idle? && w.flushOff + REC_HDR <= w.writeOff
    requires w.tailUsed + (w.writeOff - w.flushOff) < PAYLOAD
    modifies w, w.buf
    ensures w.Valid() && |w.recs| == old(|w.recs|) + 2
    ensures w.recs[|w.recs| - 2].lsn == a >= b == w.recs[|w.recs| - 1].lsn
  {
    hide Header, WalBuffer.Valid, WalBuffer.Log, WalBuffer.Numbered, WalBuffer.Conserved, Grew;
    w.InOrder();
    var work := w.FlushBegin();
    var ok := w.FlushStep();
    w.InOrder();
    var both;
    both, a, b := w.AppendInsideDrain(7, 4, [], []);
  }

  /** A tail found full: the page staged for it is linked in the pool, not on disk. */
  method LateLink(w: WalBuffer, id: PageId)
    requires w.Valid() && w.draining.Idle? && w.Conserved() && w.flushOff == w.writeOff && w.tailUsed == PAYLOAD && IdsOk([id], w.tailPageId)
    modifies w, w.buf
    ensures w.Valid() && w.Conserved() && !w.LinksOnDisk()
  {
    hide Header, WalBuffer.Valid, WalBuffer.Log, WalBuffer.Paged, WalBuffer.Numbered, Grew, FlushSim, AllLinked, Cut, IdsOk;
    w.SetSupply([id]);
    var ret, lsn, _ := w.Append(7, 1, []);
    w.InOrder();
    FlushFacts(w.S());
    CutNone(w.Log());
    ret := w.Flush();
  }

  /** A drain that just fills the tail with nothing staged, then a staged page, an append and
      a drain: no byte is lost, and a link is not on disk. */
  method MissingLink(crc: seq<byte> -> u32) returns (w: WalBuffer)
    ensures w.Valid() && w.Conserved() && !w.LinksOnDisk()
  {
    hide Header, WalBuffer.Valid, WalBuffer.Log, WalBuffer.Paged, WalBuffer.Numbered, Grew, FlushSim, AllLinked, Cut;
    w := new WalBuffer(crc, 1, []);
    var ret, lsn, _ := w.Append(7, 1, seq(PAYLOAD - REC_HDR, _ => 0));
    w.InOrder();
    FlushFacts(w.S());
    CutNone(w.Log());
    ret := w.Flush();
    w.InOrder();
    LateLink(w, 2);
  }
}
